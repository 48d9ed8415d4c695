/**
 * Grey-scale projections: every pixel (r, g, b) becomes (v, v, v) where v is
 * one scalar derived from the triple. The scalar is the only thing that
 * differs between the projections; the traversal is shared.
 */
module GreyScale {
  import opened Results
  import opened JavaInt
  import opened Images
  import opened Traversal

  /** The projections whose scalar is integer-valued (luma is not modelled). */
  datatype ScalarKind = Red | Green | Blue | Value | Intensity

  function Min3(p: Rgb): int {
    Min(Min(p.r, p.g), p.b)
  }

  function Max3(p: Rgb): int {
    Max(Max(p.r, p.g), p.b)
  }

  /** `getValueToUse(r, g, b)` of each projection. Whatever the kind, the
      scalar lies between the smallest and the largest channel. */
  function Scalar(kind: ScalarKind, p: Rgb): (v: int)
    ensures Min3(p) <= v <= Max3(p)
    ensures kind == Value ==> v >= p.r && v >= p.g && v >= p.b && (v == p.r || v == p.g || v == p.b)
  {
    match kind
    case Red => p.r
    case Green => p.g
    case Blue => p.b
    case Value => Max(Max(p.r, p.g), p.b)
    case Intensity => Quot(p.r + p.g + p.b, 3)
  }

  /** A valid pixel projects into [0, maxValue], so `setPixel` accepts it. */
  lemma ScalarInRange(kind: ScalarKind, p: Rgb, maxValue: int)
    requires InRange(p, maxValue)
    ensures 0 <= Scalar(kind, p) <= maxValue
  {
  }

  /** Every projection fixes a grey pixel. */
  lemma ScalarOfGrey(kind: ScalarKind, v: int)
    ensures Scalar(kind, Rgb(v, v, v)) == v
  {
  }

  /** The triple `apply` writes: grey, at a level between the source's
      smallest and largest channel, so any ceiling the source pixel meets
      the grey pixel meets too. */
  function GreyPixel(kind: ScalarKind, p: Rgb): (q: Rgb)
    ensures q.r == q.g == q.b
    ensures Min3(p) <= q.r <= Max3(p)
    ensures forall maxValue :: InRange(p, maxValue) ==> InRange(q, maxValue)
  {
    var v := Scalar(kind, p);
    Rgb(v, v, v)
  }

  /** The image the projection's `apply` returns for a non-null source. */
  function GreyScaled(src: Image, kind: ScalarKind): Image {
    MapPixels(src, p => GreyPixel(kind, p))
  }

  /** The projection of a valid image is valid, keeps the shape, and puts
      (v, v, v) at each coordinate, v the scalar of the source pixel there. */
  lemma GreyScaledAt(src: Image, kind: ScalarKind)
    requires src.Valid()
    ensures AllInRange(src, p => GreyPixel(kind, p))
    ensures GreyScaled(src, kind).Valid()
    ensures GreyScaled(src, kind).width == src.width
    ensures GreyScaled(src, kind).height == src.height
    ensures GreyScaled(src, kind).maxValue == src.maxValue
    ensures forall x, y :: src.InBounds(x, y) ==>
              var v := Scalar(kind, src.At(x, y));
              GreyScaled(src, kind).At(x, y) == Rgb(v, v, v)
  {
    var f := p => GreyPixel(kind, p);
    assert AllInRange(src, f) by {
      forall i | 0 <= i < |src.pixels|
        ensures InRange(f(src.pixels[i]), src.maxValue)
      {
        ScalarInRange(kind, src.pixels[i], src.maxValue);
      }
    }
  }

  /** Once an image is grey, any projection leaves it as it is; in
      particular every projection is idempotent. */
  lemma GreyScaleOfGrey(src: Image, first: ScalarKind, second: ScalarKind)
    ensures GreyScaled(GreyScaled(src, first), second) == GreyScaled(src, first)
  {
    var once := GreyScaled(src, first);
    var twice := GreyScaled(once, second);
    forall i | 0 <= i < |once.pixels|
      ensures twice.pixels[i] == once.pixels[i]
    {
      ScalarOfGrey(second, once.pixels[i].r);
    }
  }

  /** `AbstractGrayScaleOperation.apply` for an arbitrary `getValueToUse`:
      a null source is rejected; otherwise the traversal succeeds exactly
      when every scalar lies in [0, maxValue], and then holds (v, v, v) at
      every coordinate. */
  method ApplyGreyScale(src: Option<Image>, scalar: Rgb -> int) returns (res: Result<Image>)
    requires src.Some? ==> src.value.Valid()
    ensures src.None? ==> res == Err(NullImage)
    ensures src.Some? ==>
              (res.Ok? <==> forall i :: 0 <= i < |src.value.pixels| ==>
                              0 <= scalar(src.value.pixels[i]) <= src.value.maxValue)
    ensures src.Some? && res.Err? ==> res.error == ColorOutOfRange
    ensures res.Ok? ==> res.value.Valid()
    ensures res.Ok? ==> res.value.width == src.value.width && res.value.height == src.value.height
    ensures res.Ok? ==> res.value.maxValue == src.value.maxValue
    ensures res.Ok? ==> forall x, y :: src.value.InBounds(x, y) ==>
              var v := scalar(src.value.At(x, y));
              res.value.At(x, y) == Rgb(v, v, v)
  {
    if src.None? {
      return Err(NullImage);
    }
    var img := src.value;
    var f := p => Rgb(scalar(p), scalar(p), scalar(p));
    res := Traverse(img, f);
    if res.Ok? {
      forall x, y | img.InBounds(x, y)
        ensures res.value.At(x, y) == f(img.At(x, y))
      {
        MapPixelsAt(img, f, x, y);
      }
    }
  }

  /** The projection a grey-scale command selects: it never fails on a
      valid source and returns the reference projection. */
  method ApplyGreyScaleKind(src: Option<Image>, kind: ScalarKind) returns (res: Result<Image>)
    requires src.Some? ==> src.value.Valid()
    ensures src.None? ==> res == Err(NullImage)
    ensures src.Some? ==> res == Ok(GreyScaled(src.value, kind))
  {
    if src.None? {
      return Err(NullImage);
    }
    GreyScaledAt(src.value, kind);
    res := Traverse(src.value, p => GreyPixel(kind, p));
  }

  /** Intensity exactly as written in Java, where `r + g + b` wraps around
      at 32 bits before the division. */
  function IntensityAsWritten(p: Rgb): int {
    Quot(Wrap32(p.r + p.g + p.b), 3)
  }

  /** Three channels of 2^30 in an image whose ceiling is `Integer.MAX_VALUE`
      sum past the int range: Java's scalar is negative, so `setPixel`
      rejects it, while the mean is 2^30. */
  lemma IntensityOverflowCounterexample()
    ensures InRange(Rgb(0x4000_0000, 0x4000_0000, 0x4000_0000), INT_MAX)
    ensures IntensityAsWritten(Rgb(0x4000_0000, 0x4000_0000, 0x4000_0000)) < 0
    ensures Scalar(Intensity, Rgb(0x4000_0000, 0x4000_0000, 0x4000_0000)) == 0x4000_0000
  {
  }

  /** Without overflow the Java arithmetic agrees with the model. */
  lemma IntensityAgreesWithoutOverflow(p: Rgb)
    requires IsInt32(p.r + p.g + p.b)
    ensures IntensityAsWritten(p) == Scalar(Intensity, p)
  {
  }

  lemma ScalarExamples()
    ensures Scalar(Red, Rgb(100, 150, 200)) == 100 && Scalar(Red, Rgb(255, 0, 128)) == 255
    ensures Scalar(Green, Rgb(100, 150, 200)) == 150 && Scalar(Green, Rgb(255, 0, 128)) == 0
    ensures Scalar(Blue, Rgb(100, 150, 200)) == 200 && Scalar(Blue, Rgb(255, 0, 128)) == 128
    ensures Scalar(Value, Rgb(100, 150, 200)) == 200 && Scalar(Value, Rgb(255, 0, 128)) == 255
    ensures Scalar(Intensity, Rgb(100, 150, 200)) == 150 && Scalar(Intensity, Rgb(255, 0, 128)) == 127
    ensures Scalar(Red, Rgb(200, 100, 50)) == 200 && Scalar(Green, Rgb(200, 100, 50)) == 100
  {
  }
}
