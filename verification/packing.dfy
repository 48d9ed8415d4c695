/**
 * The boundary to the external codec library for JPEG, PNG and BMP: an image
 * goes out as a raster of 32-bit words, one per coordinate, each holding the
 * pixel as `(r << 16) | (g << 8) | b`, and comes back by masking the three
 * bytes out of each word. The codec itself (ImageIO) is not modelled: the
 * decoded raster and the encoder's verdict are parameters.
 */
module Packing {
  import opened Results
  import opened JavaInt
  import opened Images

  /** A `BufferedImage` of type `TYPE_INT_RGB`: its dimensions and one word
      per coordinate, row-major. A word is the `int` handed to `setRGB`
      (unsigned 32-bit reading, as `Pack` yields it) or returned by `getRGB`.
      The buffer keeps only the low 24 bits of what `setRGB` receives;
      `UnpackIgnoresAlpha` shows the bits above never reach the reader. */
  datatype Raster = Raster(width: int, height: int, words: seq<int>) {
    /** What a decoded raster satisfies: Java-int dimensions and one word
        per coordinate. */
    predicate Valid() {
      && 0 <= width <= INT_MAX && 0 <= height <= INT_MAX
      && |words| == width * height
    }
  }

  const WORD: int := 0x1_0000_0000

  function Pow2(n: nat): (p: nat)
    ensures p >= 1
  {
    if n == 0 then 1 else 2 * Pow2(n - 1)
  }

  lemma Pow2Values()
    ensures Pow2(8) == 0x100 && Pow2(16) == 0x1_0000 && Pow2(17) == 0x2_0000 && Pow2(32) == WORD
  {
    assert Pow2(8) == 0x100;
    assert Pow2(16) == 0x1_0000;
    assert Pow2(24) == 0x100_0000;
  }

  /** Quotient and remainder of q·m + s by m, for 0 <= s < m. */
  lemma DivMod(q: int, s: int, m: int)
    requires m > 0 && 0 <= s < m
    ensures (q * m + s) / m == q && (q * m + s) % m == s
  {
    var a := q * m + s;
    var d, r := a / m, a % m;
    assert a == d * m + r;
    assert (q - d) * m == r - s;
    if q - d >= 1 {
      MulMonotone(1, q - d, m);
    } else if q - d <= -1 {
      MulMonotone(q - d, -1, m);
    }
  }

  /** The bitwise OR of the low `n` bits of `a` and `b`. */
  function Or(a: nat, b: nat, n: nat): nat {
    if n == 0 then 0
    else 2 * Or(a / 2, b / 2, n - 1) + (if a % 2 == 1 || b % 2 == 1 then 1 else 0)
  }

  /** A channel fits in one byte. */
  predicate IsByte(c: int) {
    0 <= c <= 255
  }

  predicate ByteChannels(p: Rgb) {
    IsByte(p.r) && IsByte(p.g) && IsByte(p.b)
  }

  /** The packing of `convertToBufferedImage`, `(r << 16) | (g << 8) | b` on
      Java `int`s, read as an unsigned 32-bit word: a shift drops the bits
      pushed past bit 31, and a channel above 255 spills into the
      neighbouring byte. */
  function Pack(p: Rgb): nat
    requires 0 <= p.r <= INT_MAX && 0 <= p.g <= INT_MAX && 0 <= p.b <= INT_MAX
  {
    Or(Or(p.r * 0x1_0000 % WORD, p.g * 0x100 % WORD, 32), p.b, 32)
  }

  /** The unpacking of `StandardImageReader.read`: `(rgb >> 16) & 0xFF`,
      `(rgb >> 8) & 0xFF` and `rgb & 0xFF`. On a Java `int`, `>> k` is the
      floor of the division by 2^k and `& 0xFF` the non-negative remainder
      modulo 256, which is what Dafny's `/` and `%` compute for a positive
      divisor, negative words included. */
  function Unpack(w: int): (p: Rgb)
    ensures ByteChannels(p)
  {
    Rgb(w / 0x1_0000 % 0x100, w / 0x100 % 0x100, w % 0x100)
  }

  /** OR-ing nothing into the low `n` bits leaves them as they are. */
  lemma {:induction false} OrZero(a: nat, n: nat)
    requires a < Pow2(n)
    ensures Or(a, 0, n) == a
  {
    if n > 0 {
      OrZero(a / 2, n - 1);
    }
  }

  /** OR-ing a value below 2^k into a multiple of 2^k adds it. */
  lemma {:induction false} OrDisjoint(q: nat, b: nat, k: nat, n: nat)
    requires k <= n && b < Pow2(k) && q * Pow2(k) < Pow2(n)
    ensures Or(q * Pow2(k), b, n) == q * Pow2(k) + b
  {
    if k == 0 {
      OrZero(q, n);
    } else {
      var a := q * Pow2(k);
      assert a == 2 * (q * Pow2(k - 1));
      assert a / 2 == q * Pow2(k - 1) && a % 2 == 0;
      OrDisjoint(q, b / 2, k - 1, n - 1);
    }
  }

  /** For byte channels the packed word is the number r·65536 + g·256 + b. */
  lemma PackValue(p: Rgb)
    requires ByteChannels(p)
    ensures Pack(p) == p.r * 0x1_0000 + p.g * 0x100 + p.b
  {
    Pow2Values();
    var r, g := p.r * 0x1_0000, p.g * 0x100;
    assert r % WORD == r && g % WORD == g by {
      DivMod(0, r, WORD);
      DivMod(0, g, WORD);
    }
    assert Or(r, g, 32) == r + g by {
      OrDisjoint(p.r, g, 16, 32);
    }
    assert Or(r + g, p.b, 32) == r + g + p.b by {
      assert r + g == (p.r * 0x100 + p.g) * Pow2(8);
      OrDisjoint(p.r * 0x100 + p.g, p.b, 8, 32);
    }
  }

  /** The three bytes of r·65536 + g·256 + b unpack to r, g and b. */
  lemma UnpackValue(r: int, g: int, b: int)
    requires IsByte(r) && IsByte(g) && IsByte(b)
    ensures Unpack(r * 0x1_0000 + g * 0x100 + b) == Rgb(r, g, b)
  {
    var w := r * 0x1_0000 + g * 0x100 + b;
    DivMod(r, g * 0x100 + b, 0x1_0000);
    DivMod(0, r, 0x100);
    DivMod(r * 0x100 + g, b, 0x100);
    DivMod(r, g, 0x100);
  }

  /** Unpacking undoes packing whenever every channel fits in a byte. */
  lemma UnpackPack(p: Rgb)
    requires ByteChannels(p)
    ensures Unpack(Pack(p)) == p
  {
    PackValue(p);
    UnpackValue(p.r, p.g, p.b);
  }

  /** Hence packing loses nothing on byte channels. */
  lemma PackInjective(p: Rgb, q: Rgb)
    requires ByteChannels(p) && ByteChannels(q)
    ensures Pack(p) == Pack(q) <==> p == q
  {
    UnpackPack(p);
    UnpackPack(q);
  }

  /** Bits from bit 24 up (the alpha the codec reports for an opaque pixel,
      which makes the Java word negative) never reach a channel. */
  lemma UnpackIgnoresAlpha(w: int, alpha: int)
    ensures Unpack(w + alpha * 0x100_0000) == Unpack(w)
  {
    var v := w + alpha * 0x100_0000;
    var hi, mid := w / 0x1_0000, w / 0x100;
    assert v / 0x1_0000 == hi + alpha * 0x100 by {
      assert v == (hi + alpha * 0x100) * 0x1_0000 + w % 0x1_0000;
      DivMod(hi + alpha * 0x100, w % 0x1_0000, 0x1_0000);
    }
    assert (hi + alpha * 0x100) % 0x100 == hi % 0x100 by {
      DivMod(hi / 0x100 + alpha, hi % 0x100, 0x100);
    }
    assert v / 0x100 == mid + alpha * 0x1_0000 && v % 0x100 == w % 0x100 by {
      assert v == (mid + alpha * 0x1_0000) * 0x100 + w % 0x100;
      DivMod(mid + alpha * 0x1_0000, w % 0x100, 0x100);
    }
    assert (mid + alpha * 0x1_0000) % 0x100 == mid % 0x100 by {
      DivMod(mid / 0x100 + alpha * 0x100, mid % 0x100, 0x100);
    }
  }

  /** A green channel above 255 does not survive: green 256 + g comes back
      as green g, and the spilt bit turns up as red 1. */
  lemma PackWideChannel(g: int, b: int)
    requires IsByte(g) && IsByte(b)
    ensures Unpack(Pack(Rgb(0, 256 + g, b))) == Rgb(1, g, b)
  {
    PackWideValue(g, b);
    UnpackValue(1, g, b);
  }

  /** The word of a pixel whose green channel is 256 + g is that of red 1,
      green g. */
  lemma PackWideValue(g: int, b: int)
    requires IsByte(g) && IsByte(b)
    ensures Pack(Rgb(0, 256 + g, b)) == 1 * 0x1_0000 + g * 0x100 + b
  {
    Pow2Values();
    var p := Rgb(0, 256 + g, b);
    var x := (256 + g) * 0x100;
    assert p.r * 0x1_0000 % WORD == 0 && p.g * 0x100 % WORD == x by {
      DivMod(0, x, WORD);
    }
    assert Or(0, x, 32) == x by {
      OrDisjoint(0, x, 17, 32);
    }
    assert Or(x, b, 32) == x + b by {
      OrDisjoint(256 + g, b, 8, 32);
    }
  }

  /** The raster `convertToBufferedImage` produces for an image. */
  function Packed(img: Image): (out: Raster)
    requires img.Valid()
  {
    Raster(img.width, img.height, seq(|img.pixels|, i requires 0 <= i < |img.pixels| => Pack(img.pixels[i])))
  }

  /** The image `StandardImageReader.read` builds from a raster with usable
      dimensions: ceiling 255 and the unpacked word at each coordinate. */
  function Unpacked(raster: Raster): (img: Image)
    requires raster.Valid()
    ensures raster.width > 0 && raster.height > 0 ==> img.Valid()
    ensures forall i :: 0 <= i < |img.pixels| ==> ByteChannels(img.pixels[i])
  {
    Image(raster.width, raster.height, 255,
          seq(|raster.words|, i requires 0 <= i < |raster.words| => Unpack(raster.words[i])))
  }

  /** The first `k` words of `out` are the packed pixels of `img`. */
  ghost predicate PackedUpTo(img: Image, out: seq<int>, k: nat)
    requires img.Valid()
  {
    && k == |out| <= |img.pixels|
    && forall i :: 0 <= i < k ==> out[i] == Pack(img.pixels[i])
  }

  /** The inner loop of `convertToBufferedImage` for row `y`. */
  method PackRow(img: Image, y: int, words: seq<int>, ghost k: nat) returns (more: seq<int>)
    requires img.Valid() && 0 <= y < img.height
    requires k == y * img.width && k + img.width <= |img.pixels|
    requires PackedUpTo(img, words, k)
    ensures PackedUpTo(img, more, k + img.width)
  {
    var w := img.width;
    more := words;
    var x := 0;
    while x < w
      invariant 0 <= x <= w && PackedUpTo(img, more, k + x)
    {
      assert k + x == Index(w, x, y) by {
        IndexInRange(w, img.height, x, y);
      }
      var p := img.At(x, y);
      more := more + [Pack(p)];
      x := x + 1;
    }
  }

  /** `convertToBufferedImage`: a raster of the image's shape, each
      coordinate set once, row by row, to its packed pixel. */
  method ConvertToRaster(img: Image) returns (raster: Raster)
    requires img.Valid()
    ensures raster.width == img.width && raster.height == img.height
    ensures |raster.words| == |img.pixels|
    ensures forall x, y :: img.InBounds(x, y) ==> Pack(img.At(x, y)) == raster.words[Index(img.width, x, y)]
    ensures raster == Packed(img)
  {
    var w, h := img.width, img.height;
    var words: seq<int> := [];
    ghost var k := 0;  // the buffer position of the next coordinate packed
    var y := 0;
    while y < h
      invariant 0 <= y <= h && k == y * w && k <= |img.pixels|
      invariant PackedUpTo(img, words, k)
    {
      assert k + w == (y + 1) * w;
      MulMonotone(y + 1, h, w);
      words := PackRow(img, y, words, k);
      k := k + w;
      y := y + 1;
    }
    assert y == h && k == h * w;
    raster := Raster(w, h, words);
    assert words == Packed(img).words;
  }

  /** `StandardImageWriter.write`: a null image is rejected before anything
      is written; otherwise the packed raster goes to the encoder, whose
      refusal (`ImageIO.write` returning false, or throwing) is an I/O
      failure. `encode` stands for the external encoder of the chosen format. */
  method WriteStandard(image: Option<Image>, encode: Raster -> bool) returns (res: Result<Raster>)
    requires image.Some? ==> image.value.Valid()
    ensures image.None? ==> res == Err(NullImage)
    ensures image.Some? ==> res == if encode(Packed(image.value)) then Ok(Packed(image.value)) else Err(EncodeFailed)
  {
    if image.None? {
      return Err(NullImage);
    }
    var raster := ConvertToRaster(image.value);
    if !encode(raster) {
      return Err(EncodeFailed);
    }
    return Ok(raster);
  }

  /** The first `k` pixels of `out` are the unpacked words of `raster`, and
      `out` is a valid image of the raster's shape with ceiling 255. */
  ghost predicate UnpackedUpTo(raster: Raster, out: Image, k: nat) {
    && out.Valid()
    && out.width == raster.width && out.height == raster.height && out.maxValue == 255
    && |out.pixels| == |raster.words| && k <= |raster.words|
    && forall i :: 0 <= i < k ==> out.pixels[i] == Unpack(raster.words[i])
  }

  /** Writing the next coordinate extends the unpacked prefix by one. */
  lemma UnpackedStep(raster: Raster, out: Image, next: Image, k: nat)
    requires UnpackedUpTo(raster, out, k) && k < |raster.words|
    requires next.Valid() && next.width == out.width && next.height == out.height
    requires next.maxValue == out.maxValue && next.pixels == out.pixels[k := Unpack(raster.words[k])]
    ensures UnpackedUpTo(raster, next, k + 1)
  {
  }

  /** The inner loop of `StandardImageReader.read` for row `y`. */
  method UnpackRow(raster: Raster, image: Image, y: int, ghost k: nat) returns (out: Image)
    requires raster.Valid() && 0 <= y < raster.height
    requires k == y * raster.width && k + raster.width <= |raster.words|
    requires UnpackedUpTo(raster, image, k)
    ensures UnpackedUpTo(raster, out, k + raster.width)
  {
    var w := raster.width;
    out := image;
    ghost var j := k;  // the buffer position of the next coordinate unpacked
    var x := 0;
    while x < w
      invariant 0 <= x <= w && j == k + x
      invariant UnpackedUpTo(raster, out, j)
    {
      assert j == Index(w, x, y) && out.InBounds(x, y) by {
        IndexInRange(w, raster.height, x, y);
      }
      var p := Unpack(raster.words[Index(w, x, y)]);
      var written := SetPixel(out, x, y, p.r, p.g, p.b);
      UnpackedStep(raster, out, written.value, j);
      out := written.value;
      x := x + 1;
      j := j + 1;
    }
  }

  /** `StandardImageReader.read` after the decoder: no raster (the decoder
      returned null) is an I/O failure; otherwise a blank image of the
      raster's shape with ceiling 255 is filled row by row with the unpacked
      words. Since unpacked channels are bytes, `setPixel` never fails. */
  method ReadStandard(decoded: Option<Raster>) returns (res: Result<Image>)
    requires decoded.Some? ==> decoded.value.Valid()
    ensures decoded.None? ==> res == Err(DecodeFailed)
    ensures decoded.Some? && (decoded.value.width <= 0 || decoded.value.height <= 0) ==>
              res == Err(InvalidDimensions)
    ensures decoded.Some? && decoded.value.width > 0 && decoded.value.height > 0 ==>
              res == Ok(Unpacked(decoded.value))
  {
    if decoded.None? {
      return Err(DecodeFailed);
    }
    var raster := decoded.value;
    var w, h := raster.width, raster.height;
    var out :- Create(w, h, 255);
    ghost var k := 0;  // the buffer position of the next coordinate unpacked
    var y := 0;
    while y < h
      invariant 0 <= y <= h && k == y * w && k <= |raster.words|
      invariant UnpackedUpTo(raster, out, k)
    {
      assert k + w == (y + 1) * w;
      MulMonotone(y + 1, h, w);
      out := UnpackRow(raster, out, y, k);
      k := k + w;
      y := y + 1;
    }
    assert y == h && k == h * w;
    assert out.pixels == Unpacked(raster).pixels;
    return Ok(out);
  }

  /** What the standard reader makes of the raster the standard writer
      produced: the same image with ceiling 255, when every channel fits in
      a byte. */
  lemma UnpackedOfPacked(img: Image)
    requires img.Valid() && forall i :: 0 <= i < |img.pixels| ==> ByteChannels(img.pixels[i])
    ensures Packed(img).Valid()
    ensures Unpacked(Packed(img)) == img.(maxValue := 255)
  {
    var back := Unpacked(Packed(img));
    forall i | 0 <= i < |img.pixels|
      ensures back.pixels[i] == img.pixels[i]
    {
      UnpackPack(img.pixels[i]);
    }
  }
}
