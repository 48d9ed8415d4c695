/**
 * The per-pixel traversal shared by every transform: build a blank image of
 * the source's shape, then visit the coordinates row by row and `setPixel`
 * each one to a value computed from the source pixel at the same coordinate.
 */
module Traversal {
  import opened Results
  import opened Images

  /** The reference result of a traversal: pixel i becomes f(source pixel i). */
  function MapPixels(src: Image, f: Rgb -> Rgb): (out: Image)
    ensures out.width == src.width && out.height == src.height && out.maxValue == src.maxValue
    ensures |out.pixels| == |src.pixels|
    ensures forall i :: 0 <= i < |src.pixels| ==> out.pixels[i] == f(src.pixels[i])
  {
    src.(pixels := seq(|src.pixels|, i requires 0 <= i < |src.pixels| => f(src.pixels[i])))
  }

  /** `f` sends every source pixel to a triple `setPixel` accepts. */
  predicate AllInRange(src: Image, f: Rgb -> Rgb) {
    forall i :: 0 <= i < |src.pixels| ==> InRange(f(src.pixels[i]), src.maxValue)
  }

  /** Coordinate view of the reference result. */
  lemma MapPixelsAt(src: Image, f: Rgb -> Rgb, x: int, y: int)
    requires src.Valid() && AllInRange(src, f) && src.InBounds(x, y)
    ensures MapPixels(src, f).Valid()
    ensures MapPixels(src, f).At(x, y) == f(src.At(x, y))
  {
  }

  /** The traversal has visited the first `k` coordinates of `out`: the
      image keeps the source's shape, and each visited pixel holds the
      in-range value computed from the source pixel there. */
  ghost predicate Visited(src: Image, f: Rgb -> Rgb, out: Image, k: nat) {
    && out.Valid()
    && out.width == src.width && out.height == src.height && out.maxValue == src.maxValue
    && |out.pixels| == |src.pixels| && k <= |src.pixels|
    && forall i :: 0 <= i < k ==> out.pixels[i] == f(src.pixels[i]) && InRange(f(src.pixels[i]), src.maxValue)
  }

  /** Writing the next coordinate extends the visited prefix by one. */
  lemma VisitedStep(src: Image, f: Rgb -> Rgb, out: Image, next: Image, k: nat)
    requires src.Valid() && Visited(src, f, out, k) && k < |out.pixels|
    requires InRange(f(src.pixels[k]), src.maxValue)
    requires next.Valid() && next.width == out.width && next.height == out.height
    requires next.maxValue == out.maxValue && next.pixels == out.pixels[k := f(src.pixels[k])]
    ensures Visited(src, f, next, k + 1)
  {
  }

  /** The inner loop of `apply` for row `y`: each coordinate of the row, left
      to right; a failure means some computed triple is out of range. */
  method TraverseRow(src: Image, f: Rgb -> Rgb, image: Image, y: int, ghost k: nat) returns (res: Result<Image>)
    requires src.Valid() && 0 <= y < src.height
    requires k == y * src.width && k + src.width <= |src.pixels|
    requires Visited(src, f, image, k)
    ensures res.Ok? ==> Visited(src, f, res.value, k + src.width)
    ensures res.Err? ==> res.error == ColorOutOfRange && !AllInRange(src, f)
  {
    var w, h := src.width, src.height;
    var out := image;
    ghost var j := k;  // the buffer position of the next coordinate visited
    var x := 0;
    while x < w
      invariant 0 <= x <= w && j == k + x
      invariant Visited(src, f, out, j)
    {
      assert j == Index(w, x, y) && src.InBounds(x, y) by {
        IndexInRange(w, h, x, y);
      }
      var p := src.At(x, y);
      var q := f(p);
      var written := SetPixel(out, x, y, q.r, q.g, q.b);
      if written.Err? {
        assert !InRange(f(src.pixels[j]), src.maxValue);
        return Err(written.error);
      }
      VisitedStep(src, f, out, written.value, j);
      out := written.value;
      x := x + 1;
      j := j + 1;
    }
    return Ok(out);
  }

  /** The nested loop of the operations' `apply`. It fails, as `setPixel`
      does, exactly when some computed triple is out of range. */
  method Traverse(src: Image, f: Rgb -> Rgb) returns (res: Result<Image>)
    requires src.Valid()
    ensures res.Ok? <==> AllInRange(src, f)
    ensures res.Err? ==> res.error == ColorOutOfRange
    ensures res.Ok? ==> res.value.Valid() && res.value == MapPixels(src, f)
  {
    var w, h := src.width, src.height;
    var blank := Create(w, h, src.maxValue);
    var out := blank.value;
    ghost var k := 0;  // the buffer position of the next coordinate visited
    var y := 0;
    while y < h
      invariant 0 <= y <= h && k == y * w && k <= |src.pixels|
      invariant Visited(src, f, out, k)
    {
      assert k + w == (y + 1) * w;
      MulMonotone(y + 1, h, w);
      out :- TraverseRow(src, f, out, y, k);
      k := k + w;
      y := y + 1;
    }
    assert y == h && k == h * w;
    assert out.pixels == MapPixels(src, f).pixels;
    res := Ok(out);
  }
}
