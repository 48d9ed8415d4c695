/**
 * Brighten (positive amount) and darken (negative amount): every channel is
 * shifted by the amount and held inside [0, maxValue], channel by channel.
 */
module Brighten {
  import opened Results
  import opened JavaInt
  import opened Images
  import opened Traversal

  /** One channel, by the three branches of `apply`: saturate at maxValue
      when brightening, at 0 when darkening, unchanged for amount 0. */
  function BrightenChannel(c: int, amount: int, maxValue: int): (r: int)
    ensures 0 <= c <= maxValue ==> r == Clamp(c + amount, 0, maxValue)
  {
    if amount > 0 then Min(c + amount, maxValue)
    else if amount < 0 then Max(c + amount, 0)
    else c
  }

  function BrightenPixel(p: Rgb, amount: int, maxValue: int): Rgb {
    Rgb(BrightenChannel(p.r, amount, maxValue),
        BrightenChannel(p.g, amount, maxValue),
        BrightenChannel(p.b, amount, maxValue))
  }

  /** The image `apply` returns for a non-null source. */
  function Brightened(src: Image, amount: int): Image {
    MapPixels(src, p => BrightenPixel(p, amount, src.maxValue))
  }

  /** Every output channel is the clamped sum, so each `setPixel` of the
      traversal is accepted and the result is a valid image of the same shape. */
  lemma BrightenedAt(src: Image, amount: int)
    requires src.Valid()
    ensures AllInRange(src, p => BrightenPixel(p, amount, src.maxValue))
    ensures Brightened(src, amount).Valid()
    ensures Brightened(src, amount).width == src.width
    ensures Brightened(src, amount).height == src.height
    ensures Brightened(src, amount).maxValue == src.maxValue
    ensures forall x, y :: src.InBounds(x, y) ==>
              var p := src.At(x, y);
              Brightened(src, amount).At(x, y) ==
                Rgb(Clamp(p.r + amount, 0, src.maxValue),
                    Clamp(p.g + amount, 0, src.maxValue),
                    Clamp(p.b + amount, 0, src.maxValue))
  {
    var f := p => BrightenPixel(p, amount, src.maxValue);
    assert AllInRange(src, f) by {
      forall i | 0 <= i < |src.pixels|
        ensures InRange(f(src.pixels[i]), src.maxValue)
      {
        assert InRange(src.pixels[i], src.maxValue);
      }
    }
  }

  /** `apply` with amount 0 reproduces the source pixel for pixel. */
  lemma BrightenZeroIsIdentity(src: Image)
    requires src.Valid()
    ensures Brightened(src, 0) == src
  {
    assert Brightened(src, 0).pixels == src.pixels;
  }

  /** `new BrightenOperation(amount).apply(src)`: a null source is rejected;
      otherwise a fresh image whose every channel is clamp(c + amount). */
  method ApplyBrighten(src: Option<Image>, amount: int) returns (res: Result<Image>)
    requires src.Some? ==> src.value.Valid()
    ensures src.None? ==> res == Err(NullImage)
    ensures src.Some? ==> res == Ok(Brightened(src.value, amount))
    ensures res.Ok? ==> res.value.Valid()
    ensures res.Ok? ==> forall x, y :: src.value.InBounds(x, y) ==>
              var p := src.value.At(x, y);
              res.value.At(x, y) ==
                Rgb(Clamp(p.r + amount, 0, src.value.maxValue),
                    Clamp(p.g + amount, 0, src.value.maxValue),
                    Clamp(p.b + amount, 0, src.value.maxValue))
  {
    if src.None? {
      return Err(NullImage);
    }
    var img := src.value;
    BrightenedAt(img, amount);
    res := Traverse(img, p => BrightenPixel(p, amount, img.maxValue));
  }

  /** The channel exactly as written in Java, where `c + amount` wraps
      around at 32 bits before `Math.min` sees it. */
  function BrightenChannelAsWritten(c: int, amount: int, maxValue: int): int {
    if amount > 0 then Min(Wrap32(c + amount), maxValue)
    else if amount < 0 then Max(Wrap32(c + amount), 0)
    else c
  }

  /** Without overflow the Java arithmetic agrees with the model. */
  lemma AsWrittenAgreesWithoutOverflow(c: int, amount: int, maxValue: int)
    requires IsInt32(c + amount)
    ensures BrightenChannelAsWritten(c, amount, maxValue) == BrightenChannel(c, amount, maxValue)
  {
  }

  /** Brightening channel 10 of a 255-ceiling image by `Integer.MAX_VALUE`
      wraps to a negative sum, so Java's `setPixel` rejects the result,
      while the clamped channel is 255. */
  lemma BrightenOverflowCounterexample()
    ensures BrightenChannelAsWritten(10, INT_MAX, 255) < 0
    ensures BrightenChannel(10, INT_MAX, 255) == 255
  {
  }

  lemma BrightenExamples()
    ensures BrightenPixel(Rgb(255, 0, 128), 100, 255) == Rgb(255, 100, 228)
    ensures BrightenPixel(Rgb(200, 200, 200), 100, 255) == Rgb(255, 255, 255)
    ensures BrightenPixel(Rgb(0, 255, 128), -100, 255) == Rgb(0, 155, 28)
    ensures BrightenPixel(Rgb(200, 250, 255), -1000, 255) == Rgb(0, 0, 0)
  {
  }
}
