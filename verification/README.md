# Raster image editor core, modelled in Dafny

This project models the core of a Java raster image editor:

- **The pixel buffer.** `ImageImpl` is a width × height grid of (r, g, b) triples with a channel ceiling `maxValue`. Every channel lies in [0, maxValue].
- **The store.** `ImageStorageImpl` maps names to images.
- **The transforms.**
  - Brightening or darkening with clamping.
  - The grey-scale projections that share one traversal: red, green, blue, value and intensity.
- **The histograms.** Four 256-bucket frequency tables, and their overall maximum count.
- **The plain-text P3 codec.** `PPMReader` and `PPMWriter`.
- **The standard codecs' pixel packing.** The standard writer packs each pixel into `(r << 16) | (g << 8) | b` and hands it to ImageIO. The standard reader unpacks ImageIO's words.
- **The commands on the store.**
  - Brighten and grey-scale: get → transform → put.
  - Load and save: pick the format from the file extension, read or write the file, and report I/O failures as `IllegalStateException`.

## How the model is built

Every Java exception is an `Error` value. `Error.Kind()` names the Java class that the original throws for it. A call that returns or throws becomes a `Result`.

Images and the store are immutable values. The consequences:

- "A failed call leaves the image/store unchanged" holds because the caller keeps the value it had.
- Getters returning copies need no model.

The modules follow the program's structure:

| module | models |
|---|---|
| `Results`, `JavaInt`, `Seqs` | errors; Java `int` range, wrap-around and truncating division; sequence lemmas |
| `Images` | `ImageImpl` |
| `Traversal` | the row-major `setPixel` loop shared by every transform |
| `Brighten`, `GreyScale` | `BrightenOperation`, `AbstractGrayScaleOperation` and its scalars |
| `Histograms` | `ImageHistogramImpl` |
| `Text`, `Ppm` | `Scanner` tokens, `Integer.parseInt`, `String.valueOf`; `PPMReader`, `PPMWriter` |
| `Packing` | `StandardImageWriter.convertToBufferedImage` and `StandardImageReader.read` |
| `Storage` | `ImageStorageImpl` |
| `Commands` | `BrightenCommand`, `AbstractGreyScaleCommand`, `LoadCommand`, `SaveCommand` |

**The P3 reader** is modelled on the token stream that `java.util.Scanner` produces, with `#` comment lines dropped. `Ppm.Read` is the reference reader. The methods `ReadImage`, `ReadScanned`, `ReadBody` and `ReadRow` are Java's loops over that stream, proved equal to it.

**The P3 writer** works the same way. `Ppm.Write` is the reference text. `WriteImage`, `WriteRows`, `AppendRow` and `WriteRow` are the loops, proved equal to it. The round trip `Read(Write(img) + t) == Ok(img)` is proved for every valid image, whatever text `t` follows.

**Pixel packing** is modelled on unbounded integers:

- The shifts are multiplication modulo 2^32.
- `|` is a bitwise OR over 32 bits.
- `>>` and `& 0xFF` are floor division and a non-negative remainder.

**The outside world.** ImageIO and the file system are parameters of the commands:

- A `Disk` holds the contents of each existing file and the paths that cannot be opened for writing.
- A `Codecs` value holds the decoder and encoder.

## Model

| member | source | states |
|---|---|---|
| Images.Create | submissions/src/model/ImageImpl.java:23-35 | InvalidDimensions when width or height is ≤ 0; otherwise InvalidMaxValue when maxValue ≤ 0; otherwise a valid image with exactly the given width, height and ceiling, holding (0,0,0) at every coordinate |
| Images.GetPixel | submissions/src/model/ImageImpl.java:83-90 | succeeds exactly for in-bounds coordinates, otherwise fails with an IllegalArgumentException; the triple returned is the one stored at (x, y) and lies in [0, maxValue] |
| Images.SetPixel | submissions/src/model/ImageImpl.java:59-72 | succeeds exactly when (x, y) is in bounds and every channel is in [0, maxValue], checking coordinates before colours; afterwards (x, y) holds (r, g, b), every other coordinate is unchanged, and the image is still valid with the same shape |
| Images.IndexInjective | submissions/src/model/ImageImpl.java:44-46 | two in-bounds coordinates with the same buffer offset are the same coordinate |
| Images.IndexSurjective | submissions/src/model/ImageImpl.java:44-46 | every offset below width·height belongs to the in-bounds coordinate (offset mod width, offset div width) |
| Images.IndexInRange | submissions/src/model/ImageImpl.java:34-46 | the offset of an in-bounds coordinate lies inside the buffer of width·height triples |
| Traversal.Traverse | src/operations/AbstractGrayScaleOperation.java:26-36 | the row-major `setPixel` loop succeeds exactly when every computed triple lies in [0, maxValue] and otherwise fails with ColorOutOfRange; on success it returns a valid image of the source's shape holding, at every position, the function of the source pixel there |
| Traversal.TraverseRow | src/operations/AbstractGrayScaleOperation.java:29-33 | one row of that loop extends the visited prefix by a whole row, or fails only when some computed triple is out of range |
| Traversal.MapPixelsAt | src/operations/AbstractGrayScaleOperation.java:28-33 | when every computed triple is in range, the mapped image is valid and at (x, y) holds the function of the source pixel at (x, y) |
| Brighten.BrightenChannel | submissions/src/operations/BrightenOperation.java:48-63 | for a channel in [0, maxValue], the result of each of the three branches (amount > 0, < 0, = 0) is clamp(c + amount, 0, maxValue) |
| Brighten.BrightenedAt | submissions/src/operations/BrightenOperation.java:39-69 | with the corrected channel arithmetic of Findings, every `setPixel` of the loop is accepted; the result is a valid image with the source's width, height and ceiling, and at each coordinate every channel is clamp(c + amount, 0, maxValue) |
| Brighten.BrightenZeroIsIdentity | submissions/src/operations/BrightenOperation.java:58-63 | brightening by 0 returns an image equal to the source |
| Brighten.ApplyBrighten | submissions/src/operations/BrightenOperation.java:34-70 | a null source fails with NullImage; otherwise, with the corrected channel arithmetic of Findings, the result is valid and holds, at each coordinate, the channel-wise clamp(c + amount, 0, maxValue) of the source |
| Brighten.BrightenExamples | submissions/src/operations/BrightenOperation.java:48-57 | (255,0,128)+100 → (255,100,228); (200,200,200)+100 → white; (0,255,128)−100 → (0,155,28); darkening by 1000 gives black |
| Brighten.AsWrittenAgreesWithoutOverflow | submissions/src/operations/BrightenOperation.java:50-57 | whenever c + amount fits in an `int`, the 32-bit channel arithmetic as written equals the clamped channel |
| GreyScale.Scalar | submissions/src/operations/ValueGreyScaleOperation.java:18-25 | every scalar lies between the smallest and largest channel; the value scalar is at least each channel and equal to one of them |
| GreyScale.ScalarInRange | src/operations/IntensityGreyScaleOperation.java:18-20 | for a pixel with channels in [0, maxValue], every scalar (including the truncated mean) lies in [0, maxValue] |
| GreyScale.ScalarOfGrey | src/operations/RedGreyScaleOperation.java:17-19 | on a grey pixel (v, v, v) every scalar returns v |
| GreyScale.GreyPixel | src/operations/AbstractGrayScaleOperation.java:31-32 | the triple written is grey, at a level between the source pixel's smallest and largest channel, so `setPixel` accepts it under every ceiling the source pixel meets |
| GreyScale.GreyScaledAt | src/operations/AbstractGrayScaleOperation.java:26-36 | with the corrected scalars of Findings, the projection of a valid image is accepted by every `setPixel`, keeps width, height and ceiling, and holds (v, v, v) at each coordinate, v the scalar of the source pixel there |
| GreyScale.GreyScaleOfGrey | src/operations/AbstractGrayScaleOperation.java:28-34 | with the corrected scalars of Findings, projecting an already projected image, by any scalar, changes nothing; in particular each projection is idempotent |
| GreyScale.ApplyGreyScale | src/operations/AbstractGrayScaleOperation.java:21-37 | for an arbitrary scalar: a null source fails with NullImage; otherwise the result is Ok exactly when every scalar lies in [0, maxValue] (else ColorOutOfRange), and then keeps the shape and holds (v, v, v) at every coordinate |
| GreyScale.ApplyGreyScaleKind | src/operations/AbstractGrayScaleOperation.java:21-47 | for each concrete scalar, corrected as in Findings, the template method never fails on a valid source and returns the projection |
| GreyScale.ScalarExamples | test/model/IImageTest.java:440-523 | red, green, blue, value and intensity of (100,150,200), (255,0,128) and (200,100,50), including the truncated mean 127 |
| GreyScale.IntensityAgreesWithoutOverflow | src/operations/IntensityGreyScaleOperation.java:19 | whenever r + g + b fits in an `int`, the 32-bit intensity as written equals the truncated mean |
| JavaInt.Quot | src/operations/IntensityGreyScaleOperation.java:19 | Java's `/` by a positive divisor rounds toward zero: the remainder has the sign of the dividend and is smaller than the divisor |
| Histograms.ClampValue | src/model/ImageHistogramImpl.java:72-77 | a value is forced into [0, 255], unchanged when already inside |
| Histograms.Bucket | src/model/ImageHistogramImpl.java:50-55 | each table's bucket for a pixel (a clamped channel, or the clamped mean of the clamped channels) is an index into a 256-entry table |
| Histograms.ComputeHistograms | src/model/ImageHistogramImpl.java:21-64 | a null image fails with NullImage; otherwise four tables of 256 buckets whose counts each sum to width·height, bucket i of each table holding the number of pixels whose bucket for that table is i |
| Histograms.TalliesStep | src/model/ImageHistogramImpl.java:57-61 | counting one more pixel increments exactly its bucket and keeps the table's sum equal to the number of pixels counted |
| Histograms.AddStep | src/model/ImageHistogramImpl.java:45-63 | the four increments of the loop body keep all four tables the histograms of the pixels visited so far |
| Histograms.CountWithoutClamping | src/model/ImageHistogramImpl.java:50-60 | when every channel is in [0, 255], bucket i counts exactly the pixels whose raw channel (or truncated mean) is i |
| Histograms.MaxCount | src/model/ImageHistogramImpl.java:149-157 | the result is ≥ 0, at least every entry, and either 0 or one of the entries |
| Histograms.OverallMaxCount | src/model/ImageHistogramImpl.java:138-141 | the result is at least every bucket of all four tables and is either 0 or the count of some bucket |
| Text.NextToken | src/view/reader/PPMReader.java:38-47 | a failure is EndOfInput; a token returned leaves a strictly shorter rest of the input |
| Text.NextTokenIsWord | src/view/reader/PPMReader.java:38-45 | a token returned is non-empty, has no delimiter and does not start with `#` |
| Text.NextTokenSkipsComment | src/view/reader/PPMReader.java:40-41 | a `#` token is dropped with the rest of its line before the next token is taken |
| Text.ParseInt | src/view/reader/PPMReader.java:64-66 | a parsed value is a Java `int`; a failure is a NumberFormatException, which is an IllegalArgumentException |
| Text.ParseIntText | src/view/reader/PPMReader.java:73-75 | parsing the decimal text of any `int` gives that `int` back |
| Text.TokensOfInterleave | src/view/reader/PPMReader.java:38-47 | text made of words separated by whitespace runs, followed by any text that starts at a delimiter, reads as exactly those words followed by that text's tokens |
| Ppm.TokenAtScanned | src/view/reader/PPMReader.java:38-47 | the i-th entry of the eager token list is exactly what the i-th `readNextToken` call on one scanner returns, EndOfInput included |
| Ppm.IntAt | src/view/reader/PPMReader.java:64-66 | an `int` token, or EndOfInput or NotANumber |
| Ppm.ReadPixel | src/view/reader/PPMReader.java:73-77 | three channel tokens give a triple in [0, maxValue]; any failure is EndOfInput, NotANumber or ColorOutOfRange |
| Ppm.ReadPixels | src/view/reader/PPMReader.java:71-79 | n pixels read in order give n triples in [0, maxValue], or the first pixel failure |
| Ppm.ReadTokens | src/view/reader/PPMReader.java:56-82 | a successful read is a valid image; a failure is a pixel failure, BadMagic, InvalidDimensions or InvalidMaxValue |
| Ppm.ReadImage | src/view/reader/PPMReader.java:56-82 | the reader's loops return exactly the reference reader's outcome on the whole input |
| Ppm.ReadScanned | src/view/reader/PPMReader.java:59-79 | the header checks then the pixel loop return exactly the reference outcome on the token stream |
| Ppm.ReadBody | src/view/reader/PPMReader.java:71-79 | the nested pixel loops fill the blank image with the pixels still to come, or stop at the first failure among them |
| Ppm.ReadRow | src/view/reader/PPMReader.java:72-78 | one row of the loop keeps the image's shape and leaves the remaining outcome unchanged, or stops with the first failure |
| Ppm.ReadPixelsOf | src/view/reader/PPMReader.java:71-79 | reading the channel tokens of a pixel sequence gives that sequence back, or ColorOutOfRange when some channel is outside [0, maxValue] |
| Ppm.ReadSkipsComment | src/view/reader/PPMReader.java:38-45 | a comment line in front of the input does not change what is read |
| Ppm.ReadBlank | src/view/reader/PPMReader.java:46 | empty or all-whitespace input fails with EndOfInput |
| Ppm.ReadBadMagic | src/view/reader/PPMReader.java:59-62 | a first token other than `P3` fails with BadMagic |
| Ppm.ReadBadDimensions | src/view/reader/PPMReader.java:64-68 | a header with width or height ≤ 0 fails with InvalidDimensions, whatever follows |
| Ppm.ReadBadMaxValue | src/view/reader/PPMReader.java:64-68 | a header with positive dimensions and a ceiling ≤ 0 fails with InvalidMaxValue, whatever follows |
| Ppm.ReadMissingPixels | src/view/reader/PPMReader.java:71-79 | a valid header with no pixel values fails with EndOfInput |
| Ppm.WriteImage | submissions/src/view/writer/PPMWriter.java:34-62 | the writer's loops append exactly the reference text: the header, then one line per row |
| Ppm.WriteRows | submissions/src/view/writer/PPMWriter.java:45-62 | the outer loop appends one line per row, in row order |
| Ppm.WriteRow | submissions/src/view/writer/PPMWriter.java:46-61 | one row is a leading space, the channels in x order separated by single spaces with no trailing space, and a line end |
| Ppm.LineGrow | submissions/src/view/writer/PPMWriter.java:48-59 | each pixel of a row appends its three channels, and a separating space exactly when more pixels follow |
| Ppm.WrittenTokens | submissions/src/view/writer/PPMWriter.java:36-61 | the written text reads as the header tokens, then three channel tokens per pixel in row-major order, then whatever follows |
| Ppm.HeaderTokensOf | submissions/src/view/writer/PPMWriter.java:36-43 | the three header lines read as `P3`, width, height and ceiling |
| Ppm.WriteExample | submissions/src/view/writer/PPMWriter.java:36-60 | a 1×1 image of (128,64,32) with ceiling 255 is written as `P3\n1 1\n255\n 128 64 32\n` |
| Ppm.ReadOfWritten | submissions/src/view/writer/PPMWriter.java:34-62 | reading the written text of any well-shaped image gives the image back, or ColorOutOfRange when a channel exceeds the ceiling |
| Ppm.RoundTrip | submissions/src/view/writer/PPMWriter.java:34-62 | reading the written text of a valid image, followed by anything, gives the image back |
| Ppm.RewriteCanonical | submissions/src/view/writer/PPMWriter.java:36-61 | text the writer produced re-reads and re-writes to the identical text |
| Packing.OrDisjoint | src/view/writer/StandardImageWriter.java:70 | OR-ing a value into zero low bits is addition |
| Packing.PackValue | src/view/writer/StandardImageWriter.java:70 | for channels in [0, 255] the packed word is r·65536 + g·256 + b |
| Packing.PackInjective | src/view/writer/StandardImageWriter.java:70 | on channels in [0, 255] two pixels pack to the same word exactly when they are equal |
| Packing.PackWideChannel | src/view/writer/StandardImageWriter.java:70 | a channel above 255 spills into the neighbouring byte: green 256 + g reads back as red 1, green g |
| Packing.ConvertToRaster | src/view/writer/StandardImageWriter.java:60-75 | the raster has the image's width and height and holds, at each coordinate's row-major position, the packed pixel there |
| Packing.PackRow | src/view/writer/StandardImageWriter.java:69-72 | one row of the loop packs exactly that row's pixels after the previous rows |
| Packing.WriteStandard | src/view/writer/StandardImageWriter.java:37-51 | a null image fails with NullImage before anything is encoded; otherwise the packed raster is handed to the encoder, and its refusal is an I/O failure |
| Packing.Unpack | submissions/src/view/reader/StandardImageReader.java:52-54 | each unpacked channel lies in [0, 255] |
| Packing.UnpackValue | submissions/src/view/reader/StandardImageReader.java:52-54 | the word r·65536 + g·256 + b unpacks to (r, g, b) for channels in [0, 255] |
| Packing.UnpackIgnoresAlpha | submissions/src/view/reader/StandardImageReader.java:52-54 | bits from bit 24 up never change the unpacked triple, for negative words too |
| Packing.UnpackPack | submissions/src/view/reader/StandardImageReader.java:52-54 | unpacking a packed pixel with channels in [0, 255] gives the pixel back |
| Packing.Unpacked | submissions/src/view/reader/StandardImageReader.java:43-57 | the image built from a raster with positive dimensions is valid with ceiling 255, every channel a byte |
| Packing.UnpackRow | submissions/src/view/reader/StandardImageReader.java:48-56 | one row of the loop sets that row's pixels to the unpacked words, every `setPixel` accepted |
| Packing.ReadStandard | submissions/src/view/reader/StandardImageReader.java:37-66 | no decoded raster fails with DecodeFailed; a raster with a dimension ≤ 0 fails with InvalidDimensions; otherwise the image with ceiling 255 whose pixels are the unpacked words |
| Packing.UnpackedOfPacked | submissions/src/view/reader/StandardImageReader.java:43-55 | the standard reader gives back the image the standard writer packed, with ceiling 255, when every channel fits in a byte |
| Storage.Empty | submissions/src/model/ImageStorageImpl.java:16-18 | a new store is valid and holds no name |
| Storage.AddImage | submissions/src/model/ImageStorageImpl.java:29-43 | checks a null or empty name first, then a null image, then a duplicate name (an IllegalStateException that keeps the existing entry); succeeds exactly when the name is new, and then acts as `putImage` |
| Storage.GetImage | submissions/src/model/ImageStorageImpl.java:53-63 | a null or empty name fails with EmptyName, an absent one with NoSuchImage; otherwise the stored image, which is valid in a valid store |
| Storage.HasImage | submissions/src/model/ImageStorageImpl.java:72-76 | true exactly when an image is stored under the name; a null name finds nothing |
| Storage.HasIffGet | submissions/src/model/ImageStorageImpl.java:53-76 | on a valid store, `hasImage` and a successful `getImage` agree on every name, null and empty included |
| Storage.PutImage | submissions/src/model/ImageStorageImpl.java:86-94 | checks the name then the image; on success `getImage(name)` returns the image, every other name is unchanged, and validity is kept |
| Storage.RemoveImage | submissions/src/model/ImageStorageImpl.java:112-121 | a null or empty name fails with EmptyName, an absent one with NoSuchImage; on success the name is gone, every other entry is unchanged, and validity is kept |
| Storage.PutTwice | submissions/src/model/ImageStorageImpl.java:86-94 | a second `putImage` under the same name silently overwrites the first |
| Storage.PutThenRemove | submissions/src/model/ImageStorageImpl.java:112-121 | removing a freshly put name restores the store it was put into |
| Storage.PutStored | submissions/src/model/ImageStorageImpl.java:86-94 | putting back the image stored under a name leaves the store as it was |
| Commands.LastDot | submissions/src/controller/commands/LoadCommand.java:79 | the position of the last `.`, or −1 when there is none |
| Commands.Extension | submissions/src/controller/commands/LoadCommand.java:78-85 | "" exactly when the path has no `.` or ends with one; otherwise the non-empty, dot-free text after the last `.` |
| Commands.ExtensionOf | submissions/src/controller/commands/LoadCommand.java:78-85 | the extension of `stem.ext` is `ext` whenever `ext` is non-empty and dot-free, whatever dots the stem holds |
| Commands.ExtensionExamples | submissions/src/controller/commands/SaveCommand.java:77-84 | `scan.v2.Ppm` → `Ppm`; `image.` → ""; `ppm` → "" |
| Commands.FormatOf | submissions/src/controller/commands/LoadCommand.java:46-61 | an extension is a format exactly when, lower-cased, it is ppm, jpg, jpeg, png or bmp, with jpg and jpeg the same format |
| Commands.FormatExamples | submissions/src/controller/commands/SaveCommand.java:46-61 | the dispatch ignores case: `JPEG` is jpg, `Ppm` is ppm, and `gif` is not a format |
| Commands.Decoded | submissions/src/controller/commands/LoadCommand.java:46-64 | whichever reader is chosen, a result is a valid image (ceiling 255 from the standard reader), and no reader failure is an IllegalStateException |
| Commands.LoadError | submissions/src/controller/commands/LoadCommand.java:67-69 | an IOException becomes an IllegalStateException carrying it; other exceptions pass through; nothing leaves as an IOException |
| Commands.ReadFile | submissions/src/controller/commands/LoadCommand.java:46-69 | a file that cannot be opened is a load failure; otherwise the reader's image, or its failure with I/O failures re-raised |
| Commands.StoreRead | submissions/src/controller/commands/LoadCommand.java:64-65 | a failed read propagates unchanged; an image read is stored under the name exactly when the name is not blank (EmptyName otherwise), every other name is unchanged, and a valid store stays valid |
| Commands.Load | submissions/src/controller/commands/LoadCommand.java:41-70 | an unsupported extension fails before the file is touched; a reader failure is reported and never as an IOException; otherwise the image read is stored under the name, which must not be blank, and every other name is unchanged |
| Commands.WriteFile | submissions/src/controller/commands/SaveCommand.java:46-68 | a path that cannot be opened fails; P3 writes the writer's text; a standard format writes the encoder's output for the packed raster, or fails when the encoder refuses; all failures are IllegalStateExceptions |
| Commands.Save | submissions/src/controller/commands/SaveCommand.java:40-69 | the image is looked up before the extension is examined, so a missing image is reported first; then an unsupported extension fails; otherwise the file is written; nothing leaves as an IOException |
| Commands.RunBrighten | submissions/src/controller/commands/BrightenCommand.java:38-42 | with the corrected brighten of Findings, succeeds exactly when the source exists and dest is not blank; dest then holds the brightened source and every other name is unchanged; a missing source or blank dest fails with the store's error |
| Commands.RunGreyScale | src/controller/commands/AbstractGreyScaleCommand.java:36-42 | with the corrected scalars of Findings, the same for a grey-scale projection: dest holds the projected source, every other name is unchanged |
| Commands.BrightenZeroInPlace | submissions/src/controller/commands/BrightenCommand.java:39-41 | brightening an image by 0 in place leaves the store equal to what it was |
| Commands.GreyScaleTwice | src/controller/commands/AbstractGreyScaleCommand.java:37-41 | with the corrected scalars of Findings, a second grey-scale command, of any kind, on the result in place gives the same store as the first alone |
| Commands.SaveThenLoadPpm | submissions/src/controller/commands/SaveCommand.java:46-64 | for the intended save, whose P3 writer reaches the file in full, saving as P3 and loading the same path under a new name stores the very image saved (see Findings for the save as written) |
| Commands.FlushedPrefix | submissions/src/controller/commands/SaveCommand.java:47-49 | an unflushed writer leaves a proper prefix of the text in the file, losing at most one buffer, and nothing at all of a text that fits in one buffer |
| Commands.WriteFileAsWritten | submissions/src/controller/commands/SaveCommand.java:46-68 | as written, the P3 branch leaves only a proper prefix of the P3 text in the file (none of it when the text fits in the buffer), touching no other file; every other branch is `WriteFile`'s |
| Commands.SaveAsWritten | submissions/src/controller/commands/SaveCommand.java:40-69 | as written, the save succeeds and fails exactly when the intended one does, with the same errors, and differs only in a P3 file's contents |
| Commands.SaveThenLoadUnflushed | submissions/src/controller/commands/SaveCommand.java:47-64 | as written, saving an image whose P3 text fits in the writer's buffer and loading the file again fails with LoadFailed(EndOfInput) |
| Commands.UnflushedExample | submissions/src/controller/commands/SaveCommand.java:47-64 | a 1×1 image saved as `x.ppm` with an 8192-byte buffer saves successfully and then fails to load |
| Commands.SaveThenLoadLossless | submissions/src/controller/commands/SaveCommand.java:50-64 | with a codec that decodes what it encoded, saving and loading gives the saved image with ceiling 255, when every channel fits in a byte |

## Left out

- Luma projection: its floating-point weighted sum and truncating cast are not modelled.
- The Swing GUI, the script interpreter and the program entry point: these are event wiring and console I/O.
- ImageIO and the file streams: they are the `Codecs` and `Disk` parameters of the commands.
  - `Codecs.Valid` assumes that every raster the decoder returns has consistent dimensions.
  - Closing the streams is not modelled.
- Commands.Save: the stream is opened, and the file truncated, before the image is written. After a failed encode the original leaves an empty file; the model returns only the error.
- Commands.Save: this is the intended save, which writes the whole P3 text. The save as written (`Commands.SaveAsWritten`, under Findings) models the unflushed `FileWriter` with one fixed buffer size. The JDK's exact buffer sizes and growth policy are not modelled.
- Brighten.BrightenedAt: states the corrected channel arithmetic. As written, an amount whose sum with a channel overflows an `int` makes `setPixel` throw (first Findings row), and this member does not promise that failure.
- Brighten.ApplyBrighten: never fails on a valid source only with the corrected arithmetic. As written it fails with ColorOutOfRange on the first Findings row's input; `Brighten.BrightenChannelAsWritten` models that arithmetic.
- GreyScale.GreyScaledAt: states the corrected scalars. As written, the intensity scalar of a pixel whose channel sum overflows an `int` is negative and `setPixel` throws (second Findings row).
- GreyScale.GreyScaleOfGrey: states the corrected scalars. As written, the intensity projection of a grey image above level 2147483647 / 3 throws instead of changing nothing.
- GreyScale.ApplyGreyScaleKind: never fails on a valid source only with the corrected scalars. As written, the intensity projection fails with ColorOutOfRange on the second Findings row's input; `GreyScale.ApplyGreyScale` with `GreyScale.IntensityAsWritten` gives that failure.
- Commands.RunBrighten: uses the corrected brighten, so it succeeds whenever the source exists and dest is not blank. As written, the overflowing amount of the first Findings row makes the command throw.
- Commands.RunGreyScale: uses the corrected scalars, so it succeeds whenever the source exists and dest is not blank. As written, the intensity command throws on the second Findings row's input.
- Commands.GreyScaleTwice: uses the corrected scalars. As written, a second intensity command on a grey image above level 2147483647 / 3 throws.
- Commands.Load: `CannotOpen` covers a missing path only. Other open failures are not distinguished.
- Commands.RunBrighten and Commands.RunGreyScale: the call log of the store (one `getImage`, then one `putImage`) is not a value of the model. The functions touch the store through exactly those two calls.
- Commands.Save touches the store only through `getImage`, and returns a disk, not a store.
- Commands.FormatOf: `toLowerCase` is modelled on ASCII letters only. Locale rules and non-ASCII case mappings are left out.
- The constructors' null checks on collaborators are left out: `PPMReader` with a null `Readable`, `PPMWriter` with a null `Appendable`, and the streams of the standard reader and writer. The model has no null collaborators.
- `PPMWriter.write` catches `IllegalStateException` from the `Appendable` and re-raises it. The model's text sink cannot fail.
- `getAllImages`, which returns the live internal map (aliasing), is left out.
- `ImageHistogramImpl.toString` is left out.
- The histogram getters' copies are left out, since the tables are immutable values.
- Images.Create: the Java constructor allocates `width * height * 3` ints. For very large dimensions that product overflows or exhausts memory, and this is not modelled.
- Text.NextToken: only the ASCII characters that `Character.isWhitespace` accepts are delimiters. Only `\n` and `\r` end a comment line. Unicode spaces and line separators are left out.
- Text.ParseInt: only ASCII digits are accepted. `Integer.parseInt` also accepts other Unicode decimal digits.
- Packing.Pack: the packed word is the unsigned reading of Java's 32-bit `int`. `Unpack` gives the same triple for either reading, and Packing.UnpackIgnoresAlpha covers negative words.
- The concrete grey-scale command subclasses only choose a projection, which `GreyScale.ScalarKind` names. The blue projection is modelled by analogy with red and green.
- Interfaces without bodies (`IImage`, `IOperation`, `IWriter`, `IViewReader`, `ICommand`, `IImageStorage`, `IImageHistogram`) appear only through the members that implement them.

## Findings

| source | as written | input that shows it | evidently intended | confidence | as-written member | corrected member |
|---|---|---|---|---|---|---|
| submissions/src/operations/BrightenOperation.java:50-52 | `pixel[0] + value` is computed in 32-bit `int` before `Math.min` | channel 10, amount 2147483647, ceiling 255: the sum wraps to a negative number and `setPixel` throws | the channel clamps to the ceiling, 255 | not executed; high | Brighten.BrightenChannelAsWritten, shown by Brighten.BrightenOverflowCounterexample | Brighten.BrightenChannel |
| src/operations/IntensityGreyScaleOperation.java:19 | `(r + g + b) / 3` is computed in 32-bit `int` | pixel (2^30, 2^30, 2^30) with ceiling 2147483647: the sum wraps, the scalar is negative and `setPixel` throws | the mean 2^30, which lies in range | not executed; medium | GreyScale.IntensityAsWritten, shown by GreyScale.IntensityOverflowCounterexample | GreyScale.Scalar |
| submissions/src/controller/commands/SaveCommand.java:47-49 | the P3 branch writes through `new FileWriter(filePath)` and never flushes or closes it, while the standard branch closes its stream | a 1×1 image saved as `x.ppm`: its 22-character text stays in the writer's buffer, the file is left empty, and loading it fails with end of input | the whole P3 text reaches the file, so a saved image loads back unchanged | not executed; medium | Commands.SaveAsWritten, shown by Commands.SaveThenLoadUnflushed and Commands.UnflushedExample | Commands.Save, with Commands.SaveThenLoadPpm |
