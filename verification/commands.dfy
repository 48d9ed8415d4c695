/**
 * The four commands of the editor's core that touch the store: brighten and
 * grey-scale (fetch, transform, put back), load (file to store) and save
 * (store to file). Each command is a function from the state it reads to
 * the state it produces, or to the error it raises; a failed command
 * changes nothing.
 *
 * The file system and ImageIO are parameters: a `Disk` of file contents and
 * a pair of `Codecs` standing for the external decoder and encoder.
 */
module Commands {
  import opened Results
  import opened Images
  import opened Storage
  import Brighten
  import GreyScale
  import Ppm
  import Packing

  /** The file formats the commands dispatch on. */
  datatype Format = PpmFormat | JpgFormat | PngFormat | BmpFormat

  // File extensions.

  /** `lastIndexOf('.')`: the position of the last dot, or -1. */
  function LastDot(s: string): (r: int)
    ensures -1 <= r < |s|
    ensures r >= 0 ==> s[r] == '.'
    ensures forall i :: r < i < |s| ==> s[i] != '.'
  {
    if |s| == 0 then -1
    else if s[|s| - 1] == '.' then |s| - 1
    else LastDot(s[..|s| - 1])
  }

  /** `getFileExtension`: what follows the last dot, or "" when there is no
      dot or the dot is the last character. */
  function Extension(path: string): (ext: string)
    ensures '.' !in ext
    ensures ext == "" <==> '.' !in path || path[|path| - 1] == '.'
    ensures ext != "" ==> |ext| < |path| && path[|path| - |ext| - 1] == '.' && path[|path| - |ext|..] == ext
  {
    var dot := LastDot(path);
    if dot == -1 || dot == |path| - 1 then "" else path[dot + 1..]
  }

  /** A dot-free tail never moves the last dot. */
  lemma {:induction false} LastDotSkips(s: string, t: string)
    requires '.' !in t
    ensures LastDot(s + t) == LastDot(s)
  {
    if |t| == 0 {
      assert s + t == s;
    } else {
      assert (s + t)[..|s + t| - 1] == s + t[..|t| - 1];
      assert (s + t)[|s + t| - 1] == t[|t| - 1];
      LastDotSkips(s, t[..|t| - 1]);
    }
  }

  /** The extension of "stem.ext" is "ext", whatever dots the stem holds. */
  lemma ExtensionOf(stem: string, ext: string)
    requires ext != "" && '.' !in ext
    ensures Extension(stem + "." + ext) == ext
  {
    LastDotSkips(stem + ".", ext);
    assert LastDot(stem + ".") == |stem|;
  }

  /** `Character.toLowerCase` on the ASCII capitals. */
  function LowerChar(c: char): char {
    if 'A' <= c <= 'Z' then (c as int + 32) as char else c
  }

  /** `toLowerCase`, letter by letter. */
  function Lower(s: string): (t: string)
    ensures |t| == |s|
    ensures forall i :: 0 <= i < |s| ==> t[i] == LowerChar(s[i])
  {
    if |s| == 0 then [] else [LowerChar(s[0])] + Lower(s[1..])
  }

  /** The `switch` on the lower-cased extension: "jpg" and "jpeg" are one
      format; anything else is not a format. */
  function FormatOf(ext: string): (f: Option<Format>)
    ensures f.Some? <==> Lower(ext) in {"ppm", "jpg", "jpeg", "png", "bmp"}
    ensures f == Some(JpgFormat) <==> Lower(ext) == "jpg" || Lower(ext) == "jpeg"
  {
    match Lower(ext)
    case "ppm" => Some(PpmFormat)
    case "jpg" => Some(JpgFormat)
    case "jpeg" => Some(JpgFormat)
    case "png" => Some(PngFormat)
    case "bmp" => Some(BmpFormat)
    case _ => None
  }

  /** The extension is what follows the last dot, case kept. */
  lemma ExtensionExamples()
    ensures Extension("scan.v2.Ppm") == "Ppm"
    ensures Extension("image.") == ""
    ensures Extension("ppm") == ""
  {
    ExtensionOf("scan.v2", "Ppm");
  }

  /** The dispatch ignores case. */
  lemma FormatExamples()
    ensures FormatOf("JPEG") == Some(JpgFormat)
    ensures FormatOf("Ppm") == Some(PpmFormat)
    ensures FormatOf("gif") == None
  {
    assert Lower("JPEG") == "jpeg";
    assert Lower("Ppm") == "ppm";
    assert Lower("gif") == "gif";
  }

  // The outside world.

  /** The file system as the commands see it: the contents of every existing
      file, and the paths on which no writer can be opened. */
  datatype Disk = Disk(files: map<string, string>, locked: set<string>)

  /** ImageIO: `decode` is `ImageIO.read` on a file's contents (None where it
      returns null); `encode` is `ImageIO.write` of a raster in a format
      (None where it returns false). */
  datatype Codecs = Codecs(decode: string -> Option<Packing.Raster>,
                           encode: (Format, Packing.Raster) -> Option<string>)
  {
    /** The decoder only produces well-formed rasters. */
    ghost predicate Valid() {
      forall content :: decode(content).Some? ==> decode(content).value.Valid()
    }
  }

  /** What the reader chosen for `format` makes of a file's contents: the P3
      text reader, or ImageIO's decoder followed by the unpacking loop. */
  function Decoded(codecs: Codecs, format: Format, content: string): (r: Result<Image>)
    requires codecs.Valid()
    ensures r.Ok? ==> r.value.Valid()
    ensures format != PpmFormat && r.Ok? ==> r.value.maxValue == 255
    ensures r.Err? ==> r.error.Kind() != IllegalState
  {
    if format == PpmFormat then Ppm.Read(content)
    else match codecs.decode(content)
      case None => Err(DecodeFailed)
      case Some(raster) =>
        if raster.width <= 0 || raster.height <= 0 then Err(InvalidDimensions)
        else Ok(Packing.Unpacked(raster))
  }

  // Transforming commands.

  /** `BrightenCommand.run`: the source fetched, brightened by `amount`, and
      the result put under `dest`. */
  function RunBrighten(store: Store, amount: int, source: Option<string>, dest: Option<string>): (r: Result<Store>)
    requires store.Valid()
    ensures r.Ok? <==> GetImage(store, source).Ok? && !Blank(dest)
    ensures GetImage(store, source).Err? ==> r == Err(GetImage(store, source).error)
    ensures GetImage(store, source).Ok? && Blank(dest) ==> r == Err(EmptyName)
    ensures r.Ok? ==> GetImage(r.value, dest) == Ok(Brighten.Brightened(GetImage(store, source).value, amount))
    ensures r.Ok? ==> forall other :: other != dest ==> GetImage(r.value, other) == GetImage(store, other)
    ensures r.Ok? ==> r.value.Valid()
  {
    var image :- GetImage(store, source);
    Brighten.BrightenedAt(image, amount);
    PutImage(store, dest, Some(Brighten.Brightened(image, amount)))
  }

  /** `AbstractGreyScaleCommand.run` for the projection `kind`: the source
      fetched, projected, and the result put under `dest`. */
  function RunGreyScale(store: Store, kind: GreyScale.ScalarKind, source: Option<string>, dest: Option<string>): (r: Result<Store>)
    requires store.Valid()
    ensures r.Ok? <==> GetImage(store, source).Ok? && !Blank(dest)
    ensures GetImage(store, source).Err? ==> r == Err(GetImage(store, source).error)
    ensures GetImage(store, source).Ok? && Blank(dest) ==> r == Err(EmptyName)
    ensures r.Ok? ==> GetImage(r.value, dest) == Ok(GreyScale.GreyScaled(GetImage(store, source).value, kind))
    ensures r.Ok? ==> forall other :: other != dest ==> GetImage(r.value, other) == GetImage(store, other)
    ensures r.Ok? ==> r.value.Valid()
  {
    var image :- GetImage(store, source);
    GreyScale.GreyScaledAt(image, kind);
    PutImage(store, dest, Some(GreyScale.GreyScaled(image, kind)))
  }

  /** Brightening an image by 0 in place leaves the store as it was. */
  lemma BrightenZeroInPlace(store: Store, name: string)
    requires store.Valid() && GetImage(store, Some(name)).Ok?
    ensures RunBrighten(store, 0, Some(name), Some(name)) == Ok(store)
  {
    Brighten.BrightenZeroIsIdentity(GetImage(store, Some(name)).value);
    PutStored(store, name);
  }

  /** A second grey-scale command on the result, in place, changes nothing:
      the store after both is the store after the first. */
  lemma GreyScaleTwice(store: Store, first: GreyScale.ScalarKind, second: GreyScale.ScalarKind,
                       source: Option<string>, dest: string)
    requires store.Valid() && RunGreyScale(store, first, source, Some(dest)).Ok?
    ensures RunGreyScale(RunGreyScale(store, first, source, Some(dest)).value, second, Some(dest), Some(dest))
              == RunGreyScale(store, first, source, Some(dest))
  {
    var once := RunGreyScale(store, first, source, Some(dest)).value;
    GreyScale.GreyScaleOfGrey(GetImage(store, source).value, first, second);
    PutStored(once, dest);
  }

  // Load and save.

  /** The `catch (IOException e)` of the load command: an I/O failure is
      re-raised as an IllegalStateException; anything else passes through. */
  function LoadError(e: Error): (r: Error)
    ensures r.Kind() != IO
    ensures e.Kind() != IO ==> r == e
    ensures e.Kind() == IO ==> r == LoadFailed(e)
  {
    if e.Kind() == IO then LoadFailed(e) else e
  }

  /** The `switch` of the load command and `reader.read()`: opening a reader
      on a missing file fails; otherwise the reader's outcome, with I/O
      failures re-raised as IllegalStateExceptions. */
  function ReadFile(disk: Disk, codecs: Codecs, format: Format, path: string): (r: Result<Image>)
    requires codecs.Valid()
    ensures r.Ok? ==> r.value.Valid()
    ensures r.Err? ==> r.error.Kind() != IO
    ensures path !in disk.files ==> r == Err(LoadFailed(CannotOpen))
    ensures path in disk.files && Decoded(codecs, format, disk.files[path]).Ok? ==>
              r == Decoded(codecs, format, disk.files[path])
    ensures path in disk.files && Decoded(codecs, format, disk.files[path]).Err? ==>
              r == Err(LoadError(Decoded(codecs, format, disk.files[path]).error))
  {
    if path !in disk.files then Err(LoadFailed(CannotOpen))
    else
      match Decoded(codecs, format, disk.files[path])
      case Err(e) => Err(LoadError(e))
      case Ok(image) => Ok(image)
  }

  /** `imageDatabase.putImage(name, image)` of what the reader returned:
      a read failure propagates; otherwise the image is stored under the
      name, which must not be blank. */
  function StoreRead(store: Store, read: Result<Image>, name: Option<string>): (r: Result<Store>)
    requires read.Ok? ==> read.value.Valid()
    ensures read.Err? ==> r == Err(read.error)
    ensures read.Ok? ==> (r.Ok? <==> !Blank(name))
    ensures read.Ok? && r.Err? ==> r == Err(EmptyName)
    ensures r.Ok? ==> GetImage(r.value, name) == read
    ensures r.Ok? ==> forall other :: other != name ==> GetImage(r.value, other) == GetImage(store, other)
    ensures r.Ok? && store.Valid() ==> r.value.Valid()
  {
    var image :- read;
    PutImage(store, name, Some(image))
  }

  /** `LoadCommand.run`: the format from the path's extension, in any case;
      the file read by the matching reader; the image put under `name`. An
      unsupported extension is reported before the file is opened, and a
      blank name only after the file is read. */
  function Load(store: Store, disk: Disk, codecs: Codecs, path: string, name: Option<string>): (r: Result<Store>)
    requires codecs.Valid()
    ensures r.Err? ==> r.error.Kind() != IO
    ensures FormatOf(Extension(path)).None? ==> r == Err(UnsupportedFormat)
    ensures FormatOf(Extension(path)).Some? ==>
              var read := ReadFile(disk, codecs, FormatOf(Extension(path)).value, path);
              && (read.Err? ==> r == Err(read.error))
              && (read.Ok? ==> (r.Ok? <==> !Blank(name)))
              && (r.Ok? ==> GetImage(r.value, name) == read)
    ensures r.Ok? ==> forall other :: other != name ==> GetImage(r.value, other) == GetImage(store, other)
    ensures r.Ok? && store.Valid() ==> r.value.Valid()
  {
    match FormatOf(Extension(path))
    case None => Err(UnsupportedFormat)
    case Some(format) => StoreRead(store, ReadFile(disk, codecs, format, path), name)
  }

  /** A file written: `path` now holds `content`; every other file, and the
      set of locked paths, is as it was. */
  function Written(disk: Disk, path: string, content: string): (d: Disk)
    ensures d.locked == disk.locked && path in d.files && d.files[path] == content
    ensures forall p :: p != path ==> (p in d.files <==> p in disk.files)
    ensures forall p :: p != path && p in disk.files ==> d.files[p] == disk.files[p]
  {
    disk.(files := disk.files[path := content])
  }

  /** The `switch` of the save command and `writer.write(image)`: opening a
      writer on a locked path fails; the P3 writer then always succeeds; the
      standard writer fails when the encoder refuses the packed raster. Every
      failure here is an IOException, re-raised as an IllegalStateException. */
  function WriteFile(disk: Disk, codecs: Codecs, format: Format, path: string, image: Image): (r: Result<Disk>)
    requires image.Valid()
    ensures r.Err? ==> r.error.Kind() == IllegalState
    ensures path in disk.locked ==> r == Err(SaveFailed(CannotOpen))
    ensures format == PpmFormat && path !in disk.locked ==> r == Ok(Written(disk, path, Ppm.Write(image)))
    ensures format != PpmFormat && path !in disk.locked ==>
              var encoded := codecs.encode(format, Packing.Packed(image));
              && (encoded.None? ==> r == Err(SaveFailed(EncodeFailed)))
              && (encoded.Some? ==> r == Ok(Written(disk, path, encoded.value)))
  {
    if path in disk.locked then Err(SaveFailed(CannotOpen))
    else if format == PpmFormat then Ok(Written(disk, path, Ppm.Write(image)))
    else
      match codecs.encode(format, Packing.Packed(image))
      case None => Err(SaveFailed(EncodeFailed))
      case Some(bytes) => Ok(Written(disk, path, bytes))
  }

  /** `SaveCommand.run`: the image fetched first, so a missing image is
      reported before a bad extension; then the format from the path's
      extension; then the file written. */
  function Save(store: Store, disk: Disk, codecs: Codecs, path: string, name: Option<string>): (r: Result<Disk>)
    requires store.Valid()
    ensures r.Err? ==> r.error.Kind() != IO
    ensures GetImage(store, name).Err? ==> r == Err(GetImage(store, name).error)
    ensures GetImage(store, name).Ok? && FormatOf(Extension(path)).None? ==> r == Err(UnsupportedFormat)
    ensures GetImage(store, name).Ok? && FormatOf(Extension(path)).Some? ==>
              r == WriteFile(disk, codecs, FormatOf(Extension(path)).value, path, GetImage(store, name).value)
  {
    var image :- GetImage(store, name);
    match FormatOf(Extension(path))
    case None => Err(UnsupportedFormat)
    case Some(format) => WriteFile(disk, codecs, format, path, image)
  }

  /** Saving an image as P3 text and loading the file again puts the very
      same image under the new name. */
  lemma SaveThenLoadPpm(store: Store, disk: Disk, codecs: Codecs, path: string, name: Option<string>, dest: string)
    requires store.Valid() && codecs.Valid() && dest != ""
    requires FormatOf(Extension(path)) == Some(PpmFormat)
    requires Save(store, disk, codecs, path, name).Ok?
    ensures Load(store, Save(store, disk, codecs, path, name).value, codecs, path, Some(dest)).Ok?
    ensures GetImage(Load(store, Save(store, disk, codecs, path, name).value, codecs, path, Some(dest)).value, Some(dest))
              == GetImage(store, name)
  {
    var image := GetImage(store, name).value;
    Ppm.RoundTrip(image, "");
    assert Ppm.Write(image) + "" == Ppm.Write(image);
  }

  /** What a `FileWriter` that is never flushed or closed leaves in its
      file. Its encoder collects the (ASCII, one byte per character) text in
      a buffer of `buffer` bytes and passes a full buffer on only when a
      further character arrives; whatever is still buffered at the end, at
      least one character and at most one buffer, is lost. A text that fits
      in one buffer leaves the file empty. */
  function FlushedPrefix(text: string, buffer: nat): (kept: string)
    requires buffer > 0
    ensures kept <= text
    ensures |text| <= buffer ==> kept == ""
    ensures |text| > 0 ==> |text| - buffer <= |kept| < |text|
    decreases |text|
  {
    if |text| <= buffer then ""
    else
      var rest := FlushedPrefix(text[buffer..], buffer);
      assert text == text[..buffer] + text[buffer..];
      text[..buffer] + rest
  }

  /** `writer.write(image)` of the save command as written: the P3 branch
      writes through `new FileWriter(filePath)`, which is never flushed or
      closed, so the file keeps only the flushed part of the text. The
      standard branch closes its stream and is `WriteFile`'s. */
  function WriteFileAsWritten(disk: Disk, codecs: Codecs, format: Format, path: string, image: Image, buffer: nat): (r: Result<Disk>)
    requires image.Valid() && buffer > 0
    ensures format != PpmFormat || path in disk.locked ==> r == WriteFile(disk, codecs, format, path, image)
    ensures format == PpmFormat && path !in disk.locked ==>
              && r.Ok? && path in r.value.files
              && r == Ok(Written(disk, path, r.value.files[path]))
              && r.value.files[path] < Ppm.Write(image)
              && (|Ppm.Write(image)| <= buffer ==> r.value.files[path] == "")
  {
    if path !in disk.locked && format == PpmFormat then
      Ok(Written(disk, path, FlushedPrefix(Ppm.Write(image), buffer)))
    else WriteFile(disk, codecs, format, path, image)
  }

  /** `SaveCommand.run` as written: every check and every standard-format
      save as in `Save`; only the contents of a P3 file differ. */
  function SaveAsWritten(store: Store, disk: Disk, codecs: Codecs, path: string, name: Option<string>, buffer: nat): (r: Result<Disk>)
    requires store.Valid() && buffer > 0
    ensures r.Ok? <==> Save(store, disk, codecs, path, name).Ok?
    ensures r.Err? ==> r == Save(store, disk, codecs, path, name)
    ensures FormatOf(Extension(path)) != Some(PpmFormat) ==> r == Save(store, disk, codecs, path, name)
  {
    var image :- GetImage(store, name);
    match FormatOf(Extension(path))
    case None => Err(UnsupportedFormat)
    case Some(format) => WriteFileAsWritten(disk, codecs, format, path, image, buffer)
  }

  /** As written, saving an image whose P3 text fits in the writer's buffer
      leaves an empty file, and loading that file fails at the magic number
      for want of input. */
  lemma SaveThenLoadUnflushed(store: Store, disk: Disk, codecs: Codecs, path: string, name: Option<string>,
                              dest: Option<string>, buffer: nat)
    requires store.Valid() && codecs.Valid() && buffer > 0
    requires FormatOf(Extension(path)) == Some(PpmFormat)
    requires SaveAsWritten(store, disk, codecs, path, name, buffer).Ok?
    requires |Ppm.Write(GetImage(store, name).value)| <= buffer
    ensures Load(store, SaveAsWritten(store, disk, codecs, path, name, buffer).value, codecs, path, dest)
              == Err(LoadFailed(EndOfInput))
  {
    var saved := SaveAsWritten(store, disk, codecs, path, name, buffer).value;
    assert saved.files[path] == "";
    Ppm.ReadBlank("");
  }

  /** The path of the example below names the P3 format. */
  lemma PpmPathExample()
    ensures FormatOf(Extension("x.ppm")) == Some(PpmFormat)
  {
    ExtensionOf("x", "ppm");
    assert "x" + "." + "ppm" == "x.ppm";
    assert Lower("ppm") == "ppm";
  }

  /** The P3 text of a 1×1 image is 22 characters long. */
  lemma SmallTextExample()
    ensures |Ppm.Write(Image(1, 1, 255, [Rgb(128, 64, 32)]))| == 22
  {
    Ppm.WriteExample();
  }

  /** The smallest case: a 1×1 image saved as `x.ppm` with the 8192-byte
      buffer of the standard encoder comes back as a load failure. */
  lemma UnflushedExample()
    ensures var image := Image(1, 1, 255, [Rgb(128, 64, 32)]);
            var store := Store(map["a" := image]);
            var disk := Disk(map[], {});
            var codecs := Codecs(_ => None, (_, _) => None);
            && SaveAsWritten(store, disk, codecs, "x.ppm", Some("a"), 8192).Ok?
            && Load(store, SaveAsWritten(store, disk, codecs, "x.ppm", Some("a"), 8192).value, codecs, "x.ppm", Some("b"))
               == Err(LoadFailed(EndOfInput))
  {
    var image := Image(1, 1, 255, [Rgb(128, 64, 32)]);
    var store := Store(map["a" := image]);
    var disk := Disk(map[], {});
    var codecs := Codecs(_ => None, (_, _) => None);
    assert image.Valid();
    assert store.Valid();
    assert GetImage(store, Some("a")) == Ok(image);
    PpmPathExample();
    SmallTextExample();
    SaveThenLoadUnflushed(store, disk, codecs, "x.ppm", Some("a"), Some("b"), 8192);
  }

  /** Saving in a format whose codec gives back the raster it encoded (a
      lossless one) and loading the file again puts the same pixels under
      the new name, with ceiling 255, provided every channel fits in a
      byte. */
  lemma SaveThenLoadLossless(store: Store, disk: Disk, codecs: Codecs, path: string, name: Option<string>, dest: string)
    requires store.Valid() && codecs.Valid() && dest != ""
    requires FormatOf(Extension(path)).Some? && FormatOf(Extension(path)) != Some(PpmFormat)
    requires Save(store, disk, codecs, path, name).Ok?
    requires forall i :: 0 <= i < |GetImage(store, name).value.pixels| ==>
               Packing.ByteChannels(GetImage(store, name).value.pixels[i])
    requires var raster := Packing.Packed(GetImage(store, name).value);
             var encoded := codecs.encode(FormatOf(Extension(path)).value, raster);
             encoded.Some? ==> codecs.decode(encoded.value) == Some(raster)
    ensures Load(store, Save(store, disk, codecs, path, name).value, codecs, path, Some(dest)).Ok?
    ensures GetImage(Load(store, Save(store, disk, codecs, path, name).value, codecs, path, Some(dest)).value, Some(dest))
              == Ok(GetImage(store, name).value.(maxValue := 255))
  {
    var image := GetImage(store, name).value;
    Packing.UnpackedOfPacked(image);
  }
}
