/**
 * The plain-text P3 format: the header "P3", width, height and ceiling as
 * decimal tokens, then three channel tokens per pixel in row-major order.
 * The reader skips `#` comments wherever a token is expected; the writer
 * puts one image row per line, each line starting with a space.
 */
module Ppm {
  import opened Results
  import opened JavaInt
  import opened Images
  import opened Text
  import opened Seqs

  /** The ways reading one pixel can fail: input runs out, a token is not
      an `int`, or a channel is outside [0, maxValue]. */
  predicate PixelError(e: Error) {
    e.EndOfInput? || e.NotANumber? || e.ColorOutOfRange?
  }

  /** `readNextToken` as the `i`-th token of the stream; `TokenAtScanned`
      states that it answers as the scanner does. */
  function TokenAt(toks: seq<string>, i: nat): (r: Result<string>)
    ensures r.Ok? <==> i < |toks|
    ensures r.Err? ==> r.error == EndOfInput
    ensures r.Ok? ==> r.value == toks[i]
  {
    if i < |toks| then Ok(toks[i]) else Err(EndOfInput)
  }

  /** The `i`-th call of `readNextToken` on one scanner, read off the
      scanner itself: each call takes the next token from what the calls
      before it left. */
  function ScannedToken(s: string, i: nat): (r: Result<string>)
    ensures r.Err? ==> r.error == EndOfInput
    decreases i
  {
    match NextToken(s)
    case Err(e) => Err(e)
    case Ok((w, rest)) => if i == 0 then Ok(w) else ScannedToken(rest, i - 1)
  }

  /** The eager token list answers every `readNextToken` call exactly as
      the scanner does, including the end of input. */
  lemma {:induction false} TokenAtScanned(s: string, i: nat)
    ensures TokenAt(Tokens(s), i) == ScannedToken(s, i)
    decreases i
  {
    TokensStep(s);
    if NextToken(s).Ok? && i > 0 {
      var rest := NextToken(s).value.1;
      TokenAtScanned(rest, i - 1);
    }
  }

  /** `Integer.parseInt(readNextToken(scanner))`. */
  function IntAt(toks: seq<string>, i: nat): (r: Result<int>)
    ensures r.Ok? ==> IsInt32(r.value)
    ensures r.Err? ==> r.error.EndOfInput? || r.error.NotANumber?
  {
    var t :- TokenAt(toks, i);
    ParseInt(t)
  }

  /** Three channel tokens from position `i`, parsed in order. */
  function ReadChannels(toks: seq<string>, i: nat): (r: Result<(int, int, int)>)
    ensures r.Err? ==> r.error.EndOfInput? || r.error.NotANumber?
  {
    var red :- IntAt(toks, i);
    var green :- IntAt(toks, i + 1);
    var blue :- IntAt(toks, i + 2);
    Ok((red, green, blue))
  }

  /** One pixel: its three channels and the `setPixel` range check. */
  function ReadPixel(toks: seq<string>, i: nat, maxValue: int): (r: Result<Rgb>)
    ensures r.Ok? ==> InRange(r.value, maxValue)
    ensures r.Err? ==> PixelError(r.error)
  {
    var c :- ReadChannels(toks, i);
    var p := Rgb(c.0, c.1, c.2);
    if !InRange(p, maxValue) then Err(ColorOutOfRange) else Ok(p)
  }

  /** `n` pixels from position `i`, read in order; the first failure wins. */
  function ReadPixels(toks: seq<string>, i: nat, n: nat, maxValue: int): (r: Result<seq<Rgb>>)
    ensures r.Ok? ==> |r.value| == n
    ensures r.Ok? ==> forall j :: 0 <= j < n ==> InRange(r.value[j], maxValue)
    ensures r.Err? ==> PixelError(r.error)
    decreases n
  {
    if n == 0 then Ok([])
    else
      var first :- ReadPixel(toks, i, maxValue);
      var more :- ReadPixels(toks, i + 3, n - 1, maxValue);
      Ok([first] + more)
  }

  /** The reader on the token stream: "P3", width, height, ceiling, then
      `width * height` pixels. Tokens after the last pixel are never looked
      at. */
  function ReadTokens(toks: seq<string>): (r: Result<Image>)
    ensures r.Ok? ==> r.value.Valid()
    ensures r.Err? ==> PixelError(r.error) || r.error.BadMagic?
                       || r.error.InvalidDimensions? || r.error.InvalidMaxValue?
  {
    var magic :- TokenAt(toks, 0);
    if magic != "P3" then Err(BadMagic)
    else
      var width :- IntAt(toks, 1);
      var height :- IntAt(toks, 2);
      var maxValue :- IntAt(toks, 3);
      var blank :- Create(width, height, maxValue);
      var body :- ReadPixels(toks, 4, |blank.pixels|, maxValue);
      Ok(blank.(pixels := body))
  }

  /** `PPMReader.read` on the whole input. */
  function Read(s: string): (r: Result<Image>)
    ensures r.Ok? ==> r.value.Valid()
  {
    ReadTokens(Tokens(s))
  }

  /** The image a read finishes with when the first `k` pixels of `img`
      are already read and the scanner stands at the channels of pixel
      `k`: the rest of the pixels completing the image, or the first
      failure among them. */
  function Remaining(toks: seq<string>, img: Image, k: nat): Result<Image>
    requires k <= |img.pixels|
  {
    var rest :- ReadPixels(toks, 4 + 3 * k, |img.pixels| - k, img.maxValue);
    Ok(img.(pixels := img.pixels[..k] + rest))
  }

  /** Once the header is read, the reader's outcome is that of the pixels
      still to come, completing the blank image. */
  lemma ReadTokensHeader(toks: seq<string>, w: int, h: int, m: int, blank: Image)
    requires TokenAt(toks, 0) == Ok("P3")
    requires IntAt(toks, 1) == Ok(w) && IntAt(toks, 2) == Ok(h) && IntAt(toks, 3) == Ok(m)
    requires Create(w, h, m) == Ok(blank)
    ensures ReadTokens(toks) == Remaining(toks, blank, 0)
  {
    var r := ReadPixels(toks, 4, |blank.pixels|, m);
    if r.Ok? {
      assert blank.pixels[..0] + r.value == r.value;
    }
  }

  /** The pixel at buffer position `k` fails to read: its channels, or the
      range check. */
  lemma RemainingFails(toks: seq<string>, img: Image, k: nat)
    requires k < |img.pixels|
    ensures ReadChannels(toks, 4 + 3 * k).Err? ==>
              Remaining(toks, img, k) == Err(ReadChannels(toks, 4 + 3 * k).error)
    ensures ReadChannels(toks, 4 + 3 * k).Ok? ==>
              var c := ReadChannels(toks, 4 + 3 * k).value;
              !InRange(Rgb(c.0, c.1, c.2), img.maxValue) ==> Remaining(toks, img, k) == Err(ColorOutOfRange)
  {
  }

  /** Storing the pixel just read moves it from the outcome still to come
      into the image. */
  lemma RemainingStep(toks: seq<string>, before: Image, after: Image, k: nat, p: Rgb)
    requires k < |before.pixels|
    requires ReadChannels(toks, 4 + 3 * k) == Ok((p.r, p.g, p.b)) && InRange(p, before.maxValue)
    requires after == before.(pixels := before.pixels[k := p])
    ensures Remaining(toks, before, k) == Remaining(toks, after, k + 1)
  {
    var n, m := |before.pixels|, before.maxValue;
    assert ReadPixels(toks, 4 + 3 * k, n - k, m).Ok? <==> ReadPixels(toks, 4 + 3 * (k + 1), n - (k + 1), m).Ok?;
    var r := ReadPixels(toks, 4 + 3 * (k + 1), n - (k + 1), m);
    if r.Ok? {
      assert ReadPixels(toks, 4 + 3 * k, n - k, m).value == [p] + r.value;
      UpdateTake(before.pixels, k, p);
      Assoc(before.pixels[..k], [p], r.value);
    }
  }

  /** Nothing left to read: the image is complete. */
  lemma RemainingEnd(toks: seq<string>, img: Image)
    ensures Remaining(toks, img, |img.pixels|) == Ok(img)
  {
    assert img.pixels[..|img.pixels|] + [] == img.pixels;
  }

  /** The inner loop of `PPMReader.read` for row `y`: the pixels of the
      row, left to right. It moves the row from the outcome still to come
      into the image, or stops at the first failure. */
  method ReadRow(toks: seq<string>, image: Image, y: int, pos: nat, ghost k: nat) returns (res: Result<Image>)
    requires image.Valid() && 0 <= y < image.height
    requires k == y * image.width && k + image.width <= |image.pixels| && pos == 4 + 3 * k
    ensures res.Ok? ==> res.value.Valid()
    ensures res.Ok? ==> res.value.width == image.width && res.value.height == image.height
    ensures res.Ok? ==> res.value.maxValue == image.maxValue && |res.value.pixels| == |image.pixels|
    ensures Remaining(toks, image, k)
              == if res.Err? then Err(res.error) else Remaining(toks, res.value, k + image.width)
  {
    var w, h, m := image.width, image.height, image.maxValue;
    ghost var n := |image.pixels|;
    ghost var goal := Remaining(toks, image, k);
    ghost var j := k;  // the buffer position of the next coordinate read
    var img := image;
    var p := pos;
    var x := 0;
    while x < w
      invariant 0 <= x <= w && j == k + x && j <= n && p == 4 + 3 * j
      invariant img.Valid() && img.width == w && img.height == h && img.maxValue == m
      invariant |img.pixels| == n
      invariant goal == Remaining(toks, img, j)
    {
      RemainingFails(toks, img, j);
      var c :- ReadChannels(toks, p);
      ghost var before := img;
      assert j == Index(w, x, y) && img.InBounds(x, y);
      img :- SetPixel(img, x, y, c.0, c.1, c.2);
      RemainingStep(toks, before, img, j, Rgb(c.0, c.1, c.2));
      p := p + 3;
      x := x + 1;
      j := j + 1;
    }
    return Ok(img);
  }

  /** The outer loop of `PPMReader.read`: the rows of a blank image, top
      to bottom, from the first channel token on. */
  method ReadBody(toks: seq<string>, blank: Image) returns (res: Result<Image>)
    requires blank.Valid()
    ensures res == Remaining(toks, blank, 0)
  {
    var w, h, m := blank.width, blank.height, blank.maxValue;
    ghost var n := |blank.pixels|;
    ghost var goal := Remaining(toks, blank, 0);
    ghost var k := 0;  // the buffer position of the next coordinate read
    var image := blank;
    var pos := 4;
    var y := 0;
    while y < h
      invariant 0 <= y <= h && k == y * w && 0 <= k <= n && pos == 4 + 3 * k
      invariant image.Valid() && image.width == w && image.height == h && image.maxValue == m
      invariant |image.pixels| == n
      invariant goal == Remaining(toks, image, k)
    {
      assert k + w == (y + 1) * w;
      MulMonotone(y + 1, h, w);
      image :- ReadRow(toks, image, y, pos, k);
      pos := pos + 3 * w;
      k := k + w;
      y := y + 1;
    }
    assert y == h && k == h * w;
    RemainingEnd(toks, image);
    return Ok(image);
  }

  /** `PPMReader.read` as written, on the scanner's token stream: the
      header is read, then the nested loops read three tokens and call
      `setPixel` for each coordinate. It computes exactly the reader. */
  method ReadScanned(toks: seq<string>) returns (res: Result<Image>)
    ensures res == ReadTokens(toks)
  {
    var magic :- TokenAt(toks, 0);
    if magic != "P3" {
      return Err(BadMagic);
    }
    var w :- IntAt(toks, 1);
    var h :- IntAt(toks, 2);
    var m :- IntAt(toks, 3);
    var blank :- Create(w, h, m);
    ReadTokensHeader(toks, w, h, m, blank);
    res := ReadBody(toks, blank);
  }

  /** `PPMReader.read` on the whole input: the scanner splits it into
      tokens, then the header and pixels are read. */
  method ReadImage(s: string) returns (res: Result<Image>)
    ensures res == Read(s)
  {
    res := ReadScanned(Tokens(s));
  }

  // The writer.

  /** The three channels of one pixel, separated by single spaces. */
  function PixelText(p: Rgb): string {
    IntText(p.r) + " " + IntText(p.g) + " " + IntText(p.b)
  }

  /** The pixels of one row, separated by single spaces. */
  function RowBody(row: seq<Rgb>): string {
    if |row| == 0 then ""
    else if |row| == 1 then PixelText(row[0])
    else PixelText(row[0]) + " " + RowBody(row[1..])
  }

  /** One output line: a leading space, the row, a line end. */
  function RowLine(row: seq<Rgb>): string {
    " " + RowBody(row) + "\n"
  }

  /** The buffer cut into rows of `width` pixels, one line each. */
  function Rows(ps: seq<Rgb>, width: int): string
    requires width > 0
    decreases |ps|
  {
    if |ps| == 0 then ""
    else if |ps| <= width then RowLine(ps)
    else RowLine(ps[..width]) + Rows(ps[width..], width)
  }

  /** The three header lines. */
  function HeaderText(width: int, height: int, maxValue: int): string {
    "P3\n" + IntText(width) + " " + IntText(height) + "\n" + IntText(maxValue) + "\n"
  }

  /** `PPMWriter.write`: the text appended for an image. */
  function Write(img: Image): string
    requires img.width > 0
  {
    HeaderText(img.width, img.height, img.maxValue) + Rows(img.pixels, img.width)
  }

  /** What a row's loop has appended after its leading space once `x`
      pixels are written: the pixels so far, and a space when more follow. */
  function RowPrefix(row: seq<Rgb>, x: nat): string
    requires x <= |row|
  {
    if x == 0 then "" else RowBody(row[..x]) + (if x < |row| then " " else "")
  }

  lemma {:induction false} RowBodySnoc(r: seq<Rgb>, p: Rgb)
    requires |r| > 0
    ensures RowBody(r + [p]) == RowBody(r) + " " + PixelText(p)
    decreases |r|
  {
    assert (r + [p])[0] == r[0];
    assert (r + [p])[1..] == r[1..] + [p];
    if |r| == 1 {
      assert r[1..] + [p] == [p];
    } else {
      RowBodySnoc(r[1..], p);
      Regroup4(PixelText(r[0]) + " ", RowBody(r[1..]), " ", PixelText(p));
    }
  }

  lemma RowPrefixStep(row: seq<Rgb>, x: nat)
    requires x < |row|
    ensures RowPrefix(row, x + 1) == RowPrefix(row, x) + PixelText(row[x]) + (if x + 1 < |row| then " " else "")
  {
    var sep := if x + 1 < |row| then " " else "";
    var p := PixelText(row[x]);
    assert RowPrefix(row, x + 1) == RowBody(row[..x + 1]) + sep;
    if x == 0 {
      assert RowBody(row[..1]) == p by {
        assert row[..1] == [row[0]];
      }
      EmptyFirst(p, sep);
    } else {
      var body := RowBody(row[..x]);
      assert RowPrefix(row, x) == body + " ";
      assert RowBody(row[..x + 1]) == body + " " + p by {
        TakeSnoc(row, x);
        RowBodySnoc(row[..x], row[x]);
      }
    }
  }

  /** Appending one full row to a buffer of whole rows appends its line. */
  lemma {:induction false} RowsSnoc(ps: seq<Rgb>, row: seq<Rgb>, width: int, rows: nat)
    requires width > 0 && |ps| == rows * width && |row| == width
    ensures Rows(ps + row, width) == Rows(ps, width) + RowLine(row)
    decreases rows
  {
    if rows == 0 {
      assert ps + row == row;
    } else {
      var all := ps + row;
      assert all[..width] == ps[..width];
      assert all[width..] == ps[width..] + row;
      assert |ps[width..]| == (rows - 1) * width;
      RowsSnoc(ps[width..], row, width, rows - 1);
      if |ps| == width {
        assert ps[..width] == ps && ps[width..] == [];
      }
      Regroup(RowLine(ps[..width]), Rows(ps[width..], width), RowLine(row));
    }
  }

  /** One pass of a row's loop: the pixel's text, then a space unless it
      is the row's last pixel. */
  lemma LineGrow(row: seq<Rgb>, x: nat, line: string)
    requires x < |row| && line == " " + RowPrefix(row, x)
    ensures x + 1 < |row| ==> line + PixelText(row[x]) + " " == " " + RowPrefix(row, x + 1)
    ensures x + 1 == |row| ==> line + PixelText(row[x]) == " " + RowPrefix(row, x + 1)
  {
    var sep := if x + 1 < |row| then " " else "";
    RowPrefixStep(row, x);
    Regroup4(" ", RowPrefix(row, x), PixelText(row[x]), sep);
    assert line + PixelText(row[x]) + "" == line + PixelText(row[x]);
  }

  /** The row's loop done, the line end completes the row's line. */
  lemma LineEnd(row: seq<Rgb>, line: string)
    requires line == " " + RowPrefix(row, |row|)
    ensures line + "\n" == RowLine(row)
  {
    assert row[..|row|] == row;
    assert RowBody(row) + "" == RowBody(row);
  }

  /** The inner loop of `PPMWriter.write` for row `y`: a leading space,
      the pixels separated by single spaces, and a line end. */
  method WriteRow(img: Image, y: int, ghost k: nat, ghost next: nat) returns (line: string)
    requires img.Valid() && 0 <= y < img.height
    requires k == y * img.width && next == k + img.width && next <= |img.pixels|
    ensures line == RowLine(img.pixels[k..next])
  {
    var w := img.width;
    ghost var row := img.pixels[k..next];
    line := " ";
    var x := 0;
    while x < w
      invariant 0 <= x <= w
      invariant line == " " + RowPrefix(row, x)
    {
      IndexInRange(w, img.height, x, y);
      var p := img.At(x, y);
      assert p == row[x];
      LineGrow(row, x, line);
      line := line + PixelText(p);
      if x < w - 1 {
        line := line + " ";
      }
      x := x + 1;
    }
    LineEnd(row, line);
    line := line + "\n";
  }

  /** The text of the first rows grows by one line per row: the text so
      far followed by the line of the next row. */
  lemma RowsGrow(ps: seq<Rgb>, width: int, rows: nat, k: nat, next: nat, body: string, line: string)
    requires width > 0 && k == rows * width && next == k + width && next <= |ps|
    requires body == Rows(ps[..k], width) && line == RowLine(ps[k..next])
    ensures body + line == Rows(ps[..next], width)
  {
    TakeMore(ps, k, next);
    RowsSnoc(ps[..k], ps[k..next], width, rows);
  }

  /** One pass of the row loop: the line of row `y` after those above it. */
  method AppendRow(img: Image, y: int, ghost k: nat, ghost next: nat, body: string) returns (more: string)
    requires img.Valid() && 0 <= y < img.height
    requires k == y * img.width && next == k + img.width && next <= |img.pixels|
    requires body == Rows(img.pixels[..k], img.width)
    ensures more == Rows(img.pixels[..next], img.width)
  {
    var line := WriteRow(img, y, k, next);
    RowsGrow(img.pixels, img.width, y, k, next, body, line);
    more := body + line;
  }

  /** The row loop of `PPMWriter.write`: one line per row, top to bottom. */
  method WriteRows(img: Image) returns (body: string)
    requires img.Valid()
    ensures body == Rows(img.pixels, img.width)
  {
    var w, h := img.width, img.height;
    body := "";
    ghost var k := 0;  // the buffer position of the next coordinate written
    assert img.pixels[..0] == [];
    var y := 0;
    while y < h
      invariant 0 <= y <= h && k == y * w && k <= |img.pixels|
      invariant body == Rows(img.pixels[..k], w)
    {
      assert k + w == (y + 1) * w;
      MulMonotone(y + 1, h, w);
      ghost var next := k + w;
      body := AppendRow(img, y, k, next, body);
      y := y + 1;
      k := next;
    }
    assert y == h && k == h * w;
    assert img.pixels[..k] == img.pixels;
  }

  /** `PPMWriter.write` as written: the header lines, then the rows. It
      appends exactly `Write`. */
  method WriteImage(img: Image) returns (out: string)
    requires img.Valid()
    ensures out == Write(img)
  {
    var body := WriteRows(img);
    out := HeaderText(img.width, img.height, img.maxValue) + body;
  }

  /** Every channel of every pixel is a Java `int`. */
  predicate AllInt32(ps: seq<Rgb>) {
    forall j :: 0 <= j < |ps| ==> IsInt32(ps[j].r) && IsInt32(ps[j].g) && IsInt32(ps[j].b)
  }

  predicate PixelsInRange(ps: seq<Rgb>, maxValue: int) {
    forall j :: 0 <= j < |ps| ==> InRange(ps[j], maxValue)
  }

  /** The shape of anything the writer can be handed: a valid image, except
      that channels may lie outside [0, maxValue]. */
  predicate Shaped(img: Image) {
    && 0 < img.width <= INT_MAX && 0 < img.height <= INT_MAX && 0 < img.maxValue <= INT_MAX
    && |img.pixels| == img.width * img.height
    && AllInt32(img.pixels)
  }

  /** The channel tokens of a pixel sequence, three per pixel. */
  function PixelTokens(ps: seq<Rgb>): (toks: seq<string>)
    ensures |toks| == 3 * |ps|
  {
    if |ps| == 0 then []
    else [IntText(ps[0].r), IntText(ps[0].g), IntText(ps[0].b)] + PixelTokens(ps[1..])
  }

  function HeaderTokens(width: int, height: int, maxValue: int): seq<string> {
    ["P3", IntText(width), IntText(height), IntText(maxValue)]
  }

  lemma {:induction false} PixelTokensAppend(a: seq<Rgb>, b: seq<Rgb>)
    ensures PixelTokens(a + b) == PixelTokens(a) + PixelTokens(b)
    decreases |a|
  {
    if |a| > 0 {
      assert (a + b)[1..] == a[1..] + b;
      PixelTokensAppend(a[1..], b);
    } else {
      assert a + b == b;
    }
  }

  lemma {:induction false} PixelTokensAreWords(ps: seq<Rgb>)
    ensures forall i :: 0 <= i < |PixelTokens(ps)| ==> IsWord(PixelTokens(ps)[i])
    decreases |ps|
  {
    if |ps| > 0 {
      PixelTokensAreWords(ps[1..]);
    }
  }

  // The layout of the written text: each token after a run of delimiters.

  /** The runs in front of the channels of `n` pixels of one row, the
      first of them being `lead`. */
  function RowGaps(lead: string, n: nat): (g: seq<string>)
    ensures |g| == 3 * n
    decreases n
  {
    if n == 0 then [] else [lead, " ", " "] + RowGaps(" ", n - 1)
  }

  /** The runs in front of the channels of every pixel, row after row. */
  function RowsGaps(lead: string, ps: seq<Rgb>, width: int): (g: seq<string>)
    requires width > 0
    ensures |g| == 3 * |ps|
    decreases |ps|
  {
    if |ps| == 0 then []
    else if |ps| <= width then RowGaps(lead + " ", |ps|)
    else RowGaps(lead + " ", width) + RowsGaps("\n", ps[width..], width)
  }

  const HeaderGaps: seq<string> := ["", "\n", " ", "\n"]

  /** Non-empty delimiter runs. */
  predicate Runs(g: seq<string>) {
    forall i :: 0 <= i < |g| ==> AllWhitespace(g[i]) && |g[i]| > 0
  }

  lemma {:induction false} RowGapsRuns(lead: string, n: nat)
    requires AllWhitespace(lead) && |lead| > 0
    ensures Runs(RowGaps(lead, n))
    decreases n
  {
    if n > 0 {
      RowGapsRuns(" ", n - 1);
    }
  }

  lemma {:induction false} RowsGapsRuns(lead: string, ps: seq<Rgb>, width: int)
    requires AllWhitespace(lead) && width > 0
    ensures Runs(RowsGaps(lead, ps, width))
    decreases |ps|
  {
    assert AllWhitespace(lead + " ");
    if |ps| > 0 {
      RowGapsRuns(lead + " ", if |ps| <= width then |ps| else width);
      if |ps| > width {
        RowsGapsRuns("\n", ps[width..], width);
      }
    }
  }

  lemma {:induction false} RowLayout(lead: string, row: seq<Rgb>)
    requires |row| > 0
    ensures lead + RowBody(row) == Interleave(RowGaps(lead, |row|), PixelTokens(row))
    decreases |row|
  {
    var p := row[0];
    var three := [IntText(p.r), IntText(p.g), IntText(p.b)];
    var gaps := [lead, " ", " "];
    Interleave3(lead, " ", " ", IntText(p.r), IntText(p.g), IntText(p.b));
    assert RowGaps(lead, |row|) == gaps + RowGaps(" ", |row| - 1);
    assert PixelTokens(row) == three + PixelTokens(row[1..]);
    if |row| == 1 {
      assert RowGaps(lead, |row|) == gaps && PixelTokens(row) == three;
    } else {
      var rest := RowBody(row[1..]);
      assert RowBody(row) == PixelText(p) + (" " + rest);
      RowLayout(" ", row[1..]);
      InterleaveAppend(gaps, three, RowGaps(" ", |row| - 1), PixelTokens(row[1..]));
      Regroup(lead, PixelText(p), " " + rest);
    }
  }

  lemma {:induction false} RowsLayout(lead: string, ps: seq<Rgb>, width: int)
    requires |ps| > 0 && width > 0
    ensures lead + Rows(ps, width) == Interleave(RowsGaps(lead, ps, width), PixelTokens(ps)) + "\n"
    decreases |ps|
  {
    if |ps| <= width {
      RowLayout(lead + " ", ps);
      assert Rows(ps, width) == " " + RowBody(ps) + "\n";
      Regroup(lead, " " + RowBody(ps), "\n");
      Regroup(lead, " ", RowBody(ps));
    } else {
      var head, tail := ps[..width], ps[width..];
      var g1, g2 := RowGaps(lead + " ", width), RowsGaps("\n", tail, width);
      RowLayout(lead + " ", head);
      RowsLayout("\n", tail, width);
      SplitJoin(ps, width);
      PixelTokensAppend(head, tail);
      InterleaveAppend(g1, PixelTokens(head), g2, PixelTokens(tail));
      assert Rows(ps, width) == (" " + RowBody(head) + "\n") + Rows(tail, width);
      LineRegroup(lead, RowBody(head), Rows(tail, width), Interleave(g2, PixelTokens(tail)));
    }
  }

  lemma HeaderLayout(width: int, height: int, maxValue: int)
    ensures HeaderText(width, height, maxValue) == Interleave(HeaderGaps, HeaderTokens(width, height, maxValue)) + "\n"
  {
    var g, w := HeaderGaps, HeaderTokens(width, height, maxValue);
    assert Interleave(g[3..], w[3..]) == "\n" + IntText(maxValue) + "";
    assert Interleave(g[2..], w[2..]) == " " + IntText(height) + ("\n" + IntText(maxValue) + "");
    assert Interleave(g[1..], w[1..]) == "\n" + IntText(width) + (" " + IntText(height) + ("\n" + IntText(maxValue) + ""));
  }

  lemma HeaderDelimited(width: int, height: int, maxValue: int)
    ensures Delimited(HeaderGaps, HeaderTokens(width, height, maxValue))
  {
    assert IsWord("P3");
  }

  /** The three header lines are scanned as their four tokens. */
  lemma HeaderTokensOf(width: int, height: int, maxValue: int, t: string)
    ensures Tokens(HeaderText(width, height, maxValue) + t)
              == HeaderTokens(width, height, maxValue) + Tokens(t)
  {
    HeaderLayout(width, height, maxValue);
    HeaderDelimited(width, height, maxValue);
    var body := Interleave(HeaderGaps, HeaderTokens(width, height, maxValue));
    assert HeaderText(width, height, maxValue) + t == body + ("\n" + t);
    TokensOfInterleave(HeaderGaps, HeaderTokens(width, height, maxValue), "\n" + t);
    TokensAfterWhitespace("\n", t);
  }

  /** The writer's text is scanned as exactly the header tokens, then the
      three channels of each pixel in row-major order, then whatever
      follows the text. */
  lemma WrittenTokens(img: Image, t: string)
    requires Shaped(img)
    ensures Tokens(Write(img) + t)
              == HeaderTokens(img.width, img.height, img.maxValue) + PixelTokens(img.pixels) + Tokens(t)
  {
    var w, h, m, ps := img.width, img.height, img.maxValue, img.pixels;
    IndexInRange(w, h, 0, 0);
    var hg, hw := HeaderGaps, HeaderTokens(w, h, m);
    var pg, pw := RowsGaps("\n", ps, w), PixelTokens(ps);
    HeaderLayout(w, h, m);
    RowsLayout("\n", ps, w);
    InterleaveAppend(hg, hw, pg, pw);
    BlocksRegroup(HeaderText(w, h, m), Interleave(hg, hw), Rows(ps, w), Interleave(pg, pw), t);
    HeaderDelimited(w, h, m);
    RowsGapsRuns("\n", ps, w);
    PixelTokensAreWords(ps);
    DelimitedAppend(hg, hw, pg, pw);
    TokensOfInterleave(hg + pg, hw + pw, "\n" + t);
    TokensAfterWhitespace("\n", t);
  }

  /** The three channel tokens of the first pixel, and the tokens of the
      others after them. */
  lemma PixelTokensHead(toks: seq<string>, i: nat, ps: seq<Rgb>)
    requires |ps| > 0
    requires i + 3 * |ps| <= |toks| && toks[i..i + 3 * |ps|] == PixelTokens(ps)
    ensures toks[i] == IntText(ps[0].r) && toks[i + 1] == IntText(ps[0].g) && toks[i + 2] == IntText(ps[0].b)
    ensures toks[i + 3..i + 3 + 3 * |ps[1..]|] == PixelTokens(ps[1..])
  {
    var slice := toks[i..i + 3 * |ps|];
    assert slice[0] == toks[i] && slice[1] == toks[i + 1] && slice[2] == toks[i + 2];
    assert toks[i + 3..i + 3 + 3 * |ps[1..]|] == slice[3..];
  }

  /** One pixel's channel tokens read back as the pixel, or as the range
      failure. */
  lemma ReadPixelOf(toks: seq<string>, i: nat, p: Rgb, maxValue: int)
    requires IsInt32(p.r) && IsInt32(p.g) && IsInt32(p.b)
    requires i + 3 <= |toks|
    requires toks[i] == IntText(p.r) && toks[i + 1] == IntText(p.g) && toks[i + 2] == IntText(p.b)
    ensures ReadPixel(toks, i, maxValue) == if InRange(p, maxValue) then Ok(p) else Err(ColorOutOfRange)
  {
    ParseIntText(p.r);
    ParseIntText(p.g);
    ParseIntText(p.b);
  }

  lemma PixelsTail(ps: seq<Rgb>, maxValue: int)
    requires |ps| > 0
    ensures AllInt32(ps) ==> AllInt32(ps[1..])
    ensures PixelsInRange(ps, maxValue) <==> InRange(ps[0], maxValue) && PixelsInRange(ps[1..], maxValue)
  {
    if InRange(ps[0], maxValue) && PixelsInRange(ps[1..], maxValue) {
      forall j | 0 < j < |ps| ensures InRange(ps[j], maxValue) {
        assert ps[j] == ps[1..][j - 1];
      }
    }
    if AllInt32(ps) {
      forall j | 0 <= j < |ps| - 1 ensures IsInt32(ps[1..][j].r) {
        assert ps[1..][j] == ps[j + 1];
      }
    }
  }

  /** The first pixel read and the rest read back decide the whole. */
  lemma ReadPixelsFirst(toks: seq<string>, i: nat, ps: seq<Rgb>, maxValue: int)
    requires |ps| > 0
    requires ReadPixel(toks, i, maxValue) == if InRange(ps[0], maxValue) then Ok(ps[0]) else Err(ColorOutOfRange)
    requires ReadPixels(toks, i + 3, |ps| - 1, maxValue)
               == if PixelsInRange(ps[1..], maxValue) then Ok(ps[1..]) else Err(ColorOutOfRange)
    ensures ReadPixels(toks, i, |ps|, maxValue)
              == if PixelsInRange(ps, maxValue) then Ok(ps) else Err(ColorOutOfRange)
  {
    PixelsTail(ps, maxValue);
    ConsTail(ps);
  }

  /** Channel tokens read back as their pixels when every channel is in
      range, and as the range failure otherwise. */
  lemma {:induction false} ReadPixelsOf(toks: seq<string>, i: nat, ps: seq<Rgb>, maxValue: int)
    requires AllInt32(ps)
    requires i + 3 * |ps| <= |toks| && toks[i..i + 3 * |ps|] == PixelTokens(ps)
    ensures ReadPixels(toks, i, |ps|, maxValue)
              == if PixelsInRange(ps, maxValue) then Ok(ps) else Err(ColorOutOfRange)
    decreases |ps|
  {
    if |ps| > 0 {
      var tail := ps[1..];
      assert AllInt32(tail) by {
        PixelsTail(ps, maxValue);
      }
      assert ReadPixel(toks, i, maxValue) == if InRange(ps[0], maxValue) then Ok(ps[0]) else Err(ColorOutOfRange) by {
        PixelTokensHead(toks, i, ps);
        ReadPixelOf(toks, i, ps[0], maxValue);
      }
      assert ReadPixels(toks, i + 3, |tail|, maxValue)
               == if PixelsInRange(tail, maxValue) then Ok(tail) else Err(ColorOutOfRange) by {
        PixelTokensHead(toks, i, ps);
        ReadPixelsOf(toks, i + 3, tail, maxValue);
      }
      ReadPixelsFirst(toks, i, ps, maxValue);
    }
  }

  /** The header tokens read back as "P3" and the three numbers, and the
      scanner then stands at whatever follows them. */
  lemma HeaderRead(width: int, height: int, maxValue: int, rest: seq<string>)
    requires IsInt32(width) && IsInt32(height) && IsInt32(maxValue)
    ensures var toks := HeaderTokens(width, height, maxValue) + rest;
            && TokenAt(toks, 0) == Ok("P3")
            && IntAt(toks, 1) == Ok(width) && IntAt(toks, 2) == Ok(height) && IntAt(toks, 3) == Ok(maxValue)
            && toks[4..] == rest
  {
    var toks := HeaderTokens(width, height, maxValue) + rest;
    assert toks[0] == "P3" && toks[1] == IntText(width) && toks[2] == IntText(height) && toks[3] == IntText(maxValue);
    assert IntAt(toks, 1) == Ok(width) by {
      ParseIntText(width);
    }
    assert IntAt(toks, 2) == Ok(height) by {
      ParseIntText(height);
    }
    assert IntAt(toks, 3) == Ok(maxValue) by {
      ParseIntText(maxValue);
    }
    DropFront(HeaderTokens(width, height, maxValue), rest);
  }

  /** After a well-formed header the reader either rejects the dimensions
      or the ceiling, or goes on to the pixels. */
  lemma ReadAfterHeader(width: int, height: int, maxValue: int, rest: seq<string>)
    requires IsInt32(width) && IsInt32(height) && IsInt32(maxValue)
    ensures var toks := HeaderTokens(width, height, maxValue) + rest;
            var blank := Create(width, height, maxValue);
            ReadTokens(toks) == if blank.Err? then Err(blank.error) else Remaining(toks, blank.value, 0)
  {
    var toks := HeaderTokens(width, height, maxValue) + rest;
    HeaderRead(width, height, maxValue, rest);
    var blank := Create(width, height, maxValue);
    if blank.Ok? {
      ReadTokensHeader(toks, width, height, maxValue, blank.value);
    }
  }

  /** The reader on the writer's text: the written image comes back when
      every channel is within the ceiling, and the range failure otherwise,
      whatever follows the text. */
  lemma ReadOfWritten(img: Image, t: string)
    requires Shaped(img)
    ensures Read(Write(img) + t)
              == if PixelsInRange(img.pixels, img.maxValue) then Ok(img) else Err(ColorOutOfRange)
  {
    var w, h, m, ps := img.width, img.height, img.maxValue, img.pixels;
    var header, body := HeaderTokens(w, h, m), PixelTokens(ps);
    var toks := header + body + Tokens(t);
    IndexInRange(w, h, 0, 0);
    var blank := Create(w, h, m).value;
    assert Read(Write(img) + t) == Remaining(toks, blank, 0) by {
      WrittenTokens(img, t);
      ReadAfterHeader(w, h, m, body + Tokens(t));
      Assoc(header, body, Tokens(t));
    }
    assert toks[4..4 + 3 * |ps|] == body by {
      Middle(header, body, Tokens(t));
    }
    ReadPixelsOf(toks, 4, ps, m);
    assert blank.pixels[..0] + ps == ps;
  }

  /** The reader restores every image the writer writes, whatever follows
      the written text. */
  lemma RoundTrip(img: Image, t: string)
    requires img.Valid()
    ensures Read(Write(img) + t) == Ok(img)
  {
    assert Shaped(img);
    ReadOfWritten(img, t);
  }

  /** Text the writer produced is canonical: reading it and writing the
      image again gives the same text back. */
  lemma RewriteCanonical(img: Image, s: string)
    requires img.Valid() && s == Write(img)
    ensures Read(s).Ok? && Write(Read(s).value) == s
  {
    RoundTrip(img, "");
    assert Write(img) + "" == Write(img);
  }

  /** A comment line in front of the input changes nothing. */
  lemma ReadSkipsComment(sp: string, c: string, e: char, s: string)
    requires AllWhitespace(sp) && NoLineEnd(c) && IsLineEnd(e)
    ensures Read(sp + "#" + c + [e] + s) == Read(s)
  {
    TokensSkipComment(sp, c, e, s);
  }

  /** Input with no token at all is an I/O failure. */
  lemma ReadBlank(sp: string)
    requires AllWhitespace(sp)
    ensures Read(sp) == Err(EndOfInput)
  {
    TokensOfWhitespace(sp);
  }

  /** A first token other than "P3" is rejected as a bad file. */
  lemma ReadBadMagic(sp: string, magic: string, t: string)
    requires AllWhitespace(sp) && IsWord(magic) && magic != "P3" && Separated(t)
    ensures Read(sp + magic + t) == Err(BadMagic)
  {
    TokensOfWord(sp, magic, t);
  }

  /** A header with a non-positive dimension is rejected before any pixel
      is read. */
  lemma ReadBadDimensions(width: int, height: int, maxValue: int, t: string)
    requires IsInt32(width) && IsInt32(height) && IsInt32(maxValue)
    requires width <= 0 || height <= 0
    ensures Read(HeaderText(width, height, maxValue) + t) == Err(InvalidDimensions)
  {
    HeaderTokensOf(width, height, maxValue, t);
    ReadAfterHeader(width, height, maxValue, Tokens(t));
  }

  /** A header with a non-positive ceiling is rejected before any pixel
      is read. */
  lemma ReadBadMaxValue(width: int, height: int, maxValue: int, t: string)
    requires IsInt32(width) && IsInt32(height) && IsInt32(maxValue)
    requires width > 0 && height > 0 && maxValue <= 0
    ensures Read(HeaderText(width, height, maxValue) + t) == Err(InvalidMaxValue)
  {
    HeaderTokensOf(width, height, maxValue, t);
    ReadAfterHeader(width, height, maxValue, Tokens(t));
  }

  /** A valid header with nothing after it runs out of input. */
  lemma ReadMissingPixels(width: int, height: int, maxValue: int)
    requires IsInt32(width) && IsInt32(height) && IsInt32(maxValue)
    requires width > 0 && height > 0 && maxValue > 0
    ensures Read(HeaderText(width, height, maxValue)) == Err(EndOfInput)
  {
    var header := HeaderTokens(width, height, maxValue);
    HeaderTokensOf(width, height, maxValue, "");
    assert HeaderText(width, height, maxValue) + "" == HeaderText(width, height, maxValue);
    TokensOfWhitespace("");
    assert header + [] == header;
    ReadAfterHeader(width, height, maxValue, []);
    var blank := Create(width, height, maxValue).value;
    IndexInRange(width, height, 0, 0);
    assert ReadChannels(header, 4).Err?;
    RemainingFails(header, blank, 0);
  }

  lemma IntTextExamples()
    ensures IntText(1) == "1" && IntText(255) == "255"
    ensures IntText(128) == "128" && IntText(64) == "64" && IntText(32) == "32"
  {
    assert NatText(25) == "25";
    assert NatText(12) == "12";
  }

  /** A one-pixel image as the writer lays it out: the header lines, then
      one line for the row, starting with a space. */
  lemma WriteExample()
    ensures HeaderText(1, 1, 255) == "P3\n1 1\n255\n"
    ensures RowLine([Rgb(128, 64, 32)]) == " 128 64 32\n"
    ensures Write(Image(1, 1, 255, [Rgb(128, 64, 32)])) == HeaderText(1, 1, 255) + RowLine([Rgb(128, 64, 32)])
  {
    IntTextExamples();
    assert PixelText(Rgb(128, 64, 32)) == "128 64 32";
  }
}
