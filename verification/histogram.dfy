/**
 * Four 256-bucket frequency tables (red, green, blue, intensity) of an image,
 * each channel clamped into [0, 255] before it selects a bucket, plus the
 * largest count over all four tables.
 */
module Histograms {
  import opened Results
  import opened JavaInt
  import opened Images
  import opened Seqs

  const BUCKETS: int := 256

  datatype Channel = RedChannel | GreenChannel | BlueChannel | IntensityChannel

  /** `clampValue`: v forced into the bucket range [0, 255]. */
  function ClampValue(v: int): (r: int)
    ensures r == Clamp(v, 0, BUCKETS - 1)
  {
    if v < 0 then 0 else Min(v, 255)
  }

  /** The bucket a pixel increments in the table of `ch`. */
  function Bucket(ch: Channel, p: Rgb): (b: int)
    ensures 0 <= b < BUCKETS
  {
    var red := ClampValue(p.r);
    var green := ClampValue(p.g);
    var blue := ClampValue(p.b);
    match ch
    case RedChannel => red
    case GreenChannel => green
    case BlueChannel => blue
    case IntensityChannel => ClampValue((red + green + blue) / 3)
  }

  /** The unclamped value a channel stands for: a colour channel, or the
      truncated mean of the three for intensity. */
  function Raw(ch: Channel, p: Rgb): int {
    match ch
    case RedChannel => p.r
    case GreenChannel => p.g
    case BlueChannel => p.b
    case IntensityChannel => Quot(p.r + p.g + p.b, 3)
  }

  /** How many pixels of `ps` fall into bucket `i` of the table of `ch`. */
  function Count(ps: seq<Rgb>, ch: Channel, i: int): nat {
    if |ps| == 0 then 0
    else Count(ps[..|ps| - 1], ch, i) + (if Bucket(ch, ps[|ps| - 1]) == i then 1 else 0)
  }

  /** How many pixels of `ps` have raw value `i` for `ch`. */
  function CountRaw(ps: seq<Rgb>, ch: Channel, i: int): nat {
    if |ps| == 0 then 0
    else CountRaw(ps[..|ps| - 1], ch, i) + (if Raw(ch, ps[|ps| - 1]) == i then 1 else 0)
  }

  function Sum(t: seq<int>): int {
    if |t| == 0 then 0 else Sum(t[..|t| - 1]) + t[|t| - 1]
  }

  /** `t` is the table of `ch` for the pixels `ps`: 256 buckets, each holding
      its count, the counts adding up to the number of pixels. */
  ghost predicate Tallies(t: seq<int>, ps: seq<Rgb>, ch: Channel) {
    && |t| == BUCKETS
    && Sum(t) == |ps|
    && forall i :: 0 <= i < BUCKETS ==> t[i] == Count(ps, ch, i)
  }

  datatype Histogram = Histogram(red: seq<int>, green: seq<int>, blue: seq<int>, intensity: seq<int>) {
    /** The getter for one table (the Java getters hand out copies; the
        model's tables are immutable values). */
    function Table(ch: Channel): seq<int> {
      match ch
      case RedChannel => red
      case GreenChannel => green
      case BlueChannel => blue
      case IntensityChannel => intensity
    }
  }

  lemma {:induction false} SumIncrement(t: seq<int>, b: int)
    requires 0 <= b < |t|
    ensures Sum(t[b := t[b] + 1]) == Sum(t) + 1
  {
    var u := t[b := t[b] + 1];
    if b == |t| - 1 {
      assert u[..|u| - 1] == t[..|t| - 1];
    } else {
      assert u[..|u| - 1] == t[..|t| - 1][b := t[b] + 1];
      SumIncrement(t[..|t| - 1], b);
    }
  }

  lemma {:induction false} SumZeros(n: nat)
    ensures Sum(seq(n, _ => 0)) == 0
  {
    if n > 0 {
      assert seq(n, _ => 0)[..n - 1] == seq(n - 1, _ => 0);
      SumZeros(n - 1);
    }
  }

  /** Counting one more pixel increments exactly its bucket. */
  lemma TalliesStep(t: seq<int>, ps: seq<Rgb>, p: Rgb, ch: Channel)
    requires Tallies(t, ps, ch)
    ensures Tallies(t[Bucket(ch, p) := t[Bucket(ch, p)] + 1], ps + [p], ch)
  {
    assert (ps + [p])[..|ps|] == ps;
    SumIncrement(t, Bucket(ch, p));
  }

  /** All four tables are those of the pixels `ps`. */
  ghost predicate HistogramOf(h: Histogram, ps: seq<Rgb>) {
    forall ch :: Tallies(h.Table(ch), ps, ch)
  }

  /** The four increments of the loop body for one pixel. */
  function Add(h: Histogram, p: Rgb): Histogram
    requires |h.red| == |h.green| == |h.blue| == |h.intensity| == BUCKETS
  {
    var r, g, b, i := Bucket(RedChannel, p), Bucket(GreenChannel, p),
                      Bucket(BlueChannel, p), Bucket(IntensityChannel, p);
    Histogram(h.red[r := h.red[r] + 1], h.green[g := h.green[g] + 1],
              h.blue[b := h.blue[b] + 1], h.intensity[i := h.intensity[i] + 1])
  }

  lemma AddStep(h: Histogram, ps: seq<Rgb>, p: Rgb)
    requires HistogramOf(h, ps)
    ensures |h.red| == |h.green| == |h.blue| == |h.intensity| == BUCKETS
    ensures HistogramOf(Add(h, p), ps + [p])
  {
    assert Tallies(h.Table(RedChannel), ps, RedChannel) && Tallies(h.Table(GreenChannel), ps, GreenChannel);
    assert Tallies(h.Table(BlueChannel), ps, BlueChannel) && Tallies(h.Table(IntensityChannel), ps, IntensityChannel);
    forall ch ensures Tallies(Add(h, p).Table(ch), ps + [p], ch) {
      TalliesStep(h.Table(ch), ps, p, ch);
    }
  }

  /** `new ImageHistogramImpl(image)`: a null image is rejected; otherwise
      one pass over the coordinates, row by row, fills the four tables. */
  method ComputeHistograms(image: Option<Image>) returns (res: Result<Histogram>)
    requires image.Some? ==> image.value.Valid()
    ensures image.None? <==> res.Err?
    ensures res.Err? ==> res.error == NullImage
    ensures res.Ok? ==> forall ch :: |res.value.Table(ch)| == BUCKETS
    ensures res.Ok? ==> forall ch :: Sum(res.value.Table(ch)) == image.value.width * image.value.height
    ensures res.Ok? ==> forall ch, i :: 0 <= i < BUCKETS ==>
              res.value.Table(ch)[i] == Count(image.value.pixels, ch, i)
  {
    if image.None? {
      return Err(NullImage);
    }
    var img := image.value;
    var w, h := img.width, img.height;
    var zeros := seq(BUCKETS, _ => 0);
    SumZeros(BUCKETS);
    var hist := Histogram(zeros, zeros, zeros, zeros);
    assert HistogramOf(hist, img.pixels[..0]);
    ghost var k := 0;  // the buffer position of the next coordinate visited
    var y := 0;
    while y < h
      invariant 0 <= y <= h && k == y * w && 0 <= k <= |img.pixels|
      invariant HistogramOf(hist, img.pixels[..k])
    {
      var x := 0;
      while x < w
        invariant 0 <= x <= w && k == Index(w, x, y) && 0 <= k <= |img.pixels|
        invariant HistogramOf(hist, img.pixels[..k])
      {
        IndexInRange(w, h, x, y);
        var p := img.At(x, y);
        AddStep(hist, img.pixels[..k], p);
        TakeSnoc(img.pixels, k);
        hist := Add(hist, p);
        x := x + 1;
        k := k + 1;
      }
      assert k == (y + 1) * w;
      y := y + 1;
    }
    assert img.pixels[..k] == img.pixels;
    res := Ok(hist);
  }

  /** When the ceiling is at most 255 no clamping happens: bucket i of each
      table counts exactly the pixels whose value for that channel is i. */
  lemma {:induction false} CountWithoutClamping(ps: seq<Rgb>, ch: Channel, i: int)
    requires forall j :: 0 <= j < |ps| ==> InRange(ps[j], 255)
    ensures Count(ps, ch, i) == CountRaw(ps, ch, i)
  {
    if |ps| > 0 {
      CountWithoutClamping(ps[..|ps| - 1], ch, i);
    }
  }

  /** `findMaxCount`: the largest count of a table, starting from 0. */
  function MaxCount(t: seq<int>): (m: int)
    ensures m >= 0
    ensures forall i :: 0 <= i < |t| ==> t[i] <= m
    ensures m == 0 || exists i :: 0 <= i < |t| && t[i] == m
  {
    if |t| == 0 then 0
    else
      var rest := MaxCount(t[..|t| - 1]);
      if t[|t| - 1] > rest then t[|t| - 1] else rest
  }

  /** `getOverallMaxCount`: the largest count over all four tables, or 0
      when every bucket is empty. */
  function OverallMaxCount(h: Histogram): (m: int)
    ensures m >= 0
    ensures forall ch, i :: 0 <= i < |h.Table(ch)| ==> h.Table(ch)[i] <= m
    ensures m == 0 || exists ch, i :: 0 <= i < |h.Table(ch)| && h.Table(ch)[i] == m
  {
    var m := Max(Max(MaxCount(h.red), MaxCount(h.green)),
                 Max(MaxCount(h.blue), MaxCount(h.intensity)));
    assert forall ch :: MaxCount(h.Table(ch)) <= m;
    assert exists ch :: MaxCount(h.Table(ch)) == m by {
      if m == MaxCount(h.red) {
        assert MaxCount(h.Table(RedChannel)) == m;
      } else if m == MaxCount(h.green) {
        assert MaxCount(h.Table(GreenChannel)) == m;
      } else if m == MaxCount(h.blue) {
        assert MaxCount(h.Table(BlueChannel)) == m;
      } else {
        assert MaxCount(h.Table(IntensityChannel)) == m;
      }
    }
    m
  }
}
