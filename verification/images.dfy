/**
 * The pixel buffer: a width x height grid of RGB triples stored row-major in
 * one flat sequence, each channel within [0, maxValue].
 */
module Images {
  import opened Results
  import opened JavaInt

  datatype Rgb = Rgb(r: int, g: int, b: int)

  /** Every channel of `p` lies in [0, maxValue]. */
  predicate InRange(p: Rgb, maxValue: int) {
    0 <= p.r <= maxValue && 0 <= p.g <= maxValue && 0 <= p.b <= maxValue
  }

  /** Position of pixel (x, y) in the row-major buffer. */
  function Index(width: int, x: int, y: int): int {
    y * width + x
  }

  datatype Image = Image(width: int, height: int, maxValue: int, pixels: seq<Rgb>) {

    /** What every constructed image satisfies: positive Java-int dimensions
        and ceiling, one triple per coordinate, every channel in range. */
    predicate Valid() {
      && 0 < width <= INT_MAX
      && 0 < height <= INT_MAX
      && 0 < maxValue <= INT_MAX
      && |pixels| == width * height
      && forall i :: 0 <= i < |pixels| ==> InRange(pixels[i], maxValue)
    }

    predicate InBounds(x: int, y: int) {
      0 <= x < width && 0 <= y < height
    }

    /** The triple stored for coordinate (x, y). */
    function At(x: int, y: int): (p: Rgb)
      requires Valid() && InBounds(x, y)
      ensures 0 <= Index(width, x, y) < |pixels| && p == pixels[Index(width, x, y)]
      ensures InRange(p, maxValue)
    {
      IndexInRange(width, height, x, y);
      pixels[Index(width, x, y)]
    }
  }

  lemma IndexInRange(width: int, height: int, x: int, y: int)
    requires 0 <= x < width && 0 <= y < height
    ensures 0 <= Index(width, x, y) < width * height
  {
    assert y * width <= (height - 1) * width by {
      MulMonotone(y, height - 1, width);
    }
  }

  lemma MulMonotone(a: int, b: int, c: int)
    requires a <= b && 0 <= c
    ensures a * c <= b * c
  {
    assert b * c - a * c == (b - a) * c;
  }

  /** Distinct in-bounds coordinates occupy distinct buffer positions. */
  lemma IndexInjective(width: int, x1: int, y1: int, x2: int, y2: int)
    requires 0 <= x1 < width && 0 <= x2 < width && 0 <= y1 && 0 <= y2
    requires Index(width, x1, y1) == Index(width, x2, y2)
    ensures x1 == x2 && y1 == y2
  {
    if y1 < y2 {
      MulMonotone(y1 + 1, y2, width);
      assert false;
    } else if y2 < y1 {
      MulMonotone(y2 + 1, y1, width);
      assert false;
    }
  }

  /** Every buffer position is the position of exactly the coordinate
      (i % width, i / width). */
  lemma IndexSurjective(width: int, height: int, i: int)
    requires 0 < width && 0 <= i < width * height
    ensures 0 <= i % width < width && 0 <= i / width < height
    ensures Index(width, i % width, i / width) == i
  {
    if i / width >= height {
      MulMonotone(height, i / width, width);
      assert false;
    }
  }

  /** The constructor `ImageImpl(width, height, maxValue)`. */
  function Create(width: int, height: int, maxValue: int): (r: Result<Image>)
    requires IsInt32(width) && IsInt32(height) && IsInt32(maxValue)
    ensures r.Ok? <==> width > 0 && height > 0 && maxValue > 0
    ensures width <= 0 || height <= 0 ==> r == Err(InvalidDimensions)
    ensures width > 0 && height > 0 && maxValue <= 0 ==> r == Err(InvalidMaxValue)
    ensures r.Ok? ==> r.value.Valid()
    ensures r.Ok? ==> r.value.width == width && r.value.height == height && r.value.maxValue == maxValue
    ensures r.Ok? ==> forall x, y :: r.value.InBounds(x, y) ==> r.value.At(x, y) == Rgb(0, 0, 0)
  {
    if width <= 0 || height <= 0 then Err(InvalidDimensions)
    else if maxValue <= 0 then Err(InvalidMaxValue)
    else
      var img := Image(width, height, maxValue, seq(width * height, _ => Rgb(0, 0, 0)));
      assert forall x, y :: img.InBounds(x, y) ==> img.At(x, y) == Rgb(0, 0, 0) by {
        forall x, y | img.InBounds(x, y) ensures img.At(x, y) == Rgb(0, 0, 0) {
          IndexInRange(width, height, x, y);
        }
      }
      Ok(img)
  }

  /** `getPixel(x, y)`: the stored triple, or a failure off the grid. */
  function GetPixel(img: Image, x: int, y: int): (r: Result<Rgb>)
    requires img.Valid()
    ensures r.Ok? <==> img.InBounds(x, y)
    ensures r.Err? ==> r.error == CoordinatesOutOfRange && r.error.Kind() == IllegalArgument
    ensures r.Ok? ==> r.value == img.At(x, y) && InRange(r.value, img.maxValue)
  {
    if !img.InBounds(x, y) then Err(CoordinatesOutOfRange)
    else Ok(img.At(x, y))
  }

  /** `setPixel(x, y, r, g, b)`: the image with (x, y) overwritten, or a
      failure (leaving the image as it was) off the grid or out of range. */
  function SetPixel(img: Image, x: int, y: int, r: int, g: int, b: int): (res: Result<Image>)
    requires img.Valid()
    ensures res.Ok? <==> img.InBounds(x, y) && InRange(Rgb(r, g, b), img.maxValue)
    ensures !img.InBounds(x, y) ==> res == Err(CoordinatesOutOfRange)
    ensures img.InBounds(x, y) && !InRange(Rgb(r, g, b), img.maxValue) ==> res == Err(ColorOutOfRange)
    ensures res.Ok? ==> res.value.Valid()
    ensures res.Ok? ==> res.value.width == img.width && res.value.height == img.height
    ensures res.Ok? ==> res.value.maxValue == img.maxValue
    ensures res.Ok? ==> res.value.At(x, y) == Rgb(r, g, b)
    ensures res.Ok? ==> res.value.pixels == img.pixels[Index(img.width, x, y) := Rgb(r, g, b)]
    ensures res.Ok? ==> forall x', y' :: img.InBounds(x', y') && (x' != x || y' != y) ==>
                          res.value.At(x', y') == img.At(x', y')
  {
    if !img.InBounds(x, y) then Err(CoordinatesOutOfRange)
    else if !InRange(Rgb(r, g, b), img.maxValue) then Err(ColorOutOfRange)
    else
      IndexInRange(img.width, img.height, x, y);
      var next := img.(pixels := img.pixels[Index(img.width, x, y) := Rgb(r, g, b)]);
      assert forall x', y' :: img.InBounds(x', y') && (x' != x || y' != y) ==>
               next.At(x', y') == img.At(x', y') by {
        forall x', y' | img.InBounds(x', y') && (x' != x || y' != y)
          ensures next.At(x', y') == img.At(x', y')
        {
          IndexInRange(img.width, img.height, x', y');
          if Index(img.width, x', y') == Index(img.width, x, y) {
            IndexInjective(img.width, x', y', x, y);
          }
        }
      }
      Ok(next)
  }
}
