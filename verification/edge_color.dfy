/** `get_dominant_edge_color`: the colour used to tint the blurred
    background is the per-channel floored mean of pixels sampled along the
    four edges of the source image. */
module EdgeColor {
  import opened Raster

  /** Python's `range(start, stop, step)` for a positive step: the
      values `start, start + step, ...` below `stop`, and no more of them. */
  function Range(start: int, stop: int, step: int): (r: seq<int>)
    requires step > 0
    ensures forall i :: 0 <= i < |r| ==> r[i] == start + i * step && start <= r[i] < stop
    ensures start + |r| * step >= stop
    decreases stop - start
  {
    if start >= stop then []
    else
      var rest := Range(start + step, stop, step);
      RangeCons(start, step, rest);
      [start] + rest
  }

  /** Prepending `start` to the values from `start + step` on keeps the
      closed form of `Range`. */
  lemma RangeCons(start: int, step: int, rest: seq<int>)
    ensures forall i :: 0 < i <= |rest| ==> start + step + (i - 1) * step == start + i * step
    ensures |rest| * step + step == (|rest| + 1) * step
  {
    forall i | 0 < i <= |rest|
      ensures start + step + (i - 1) * step == start + i * step
    {
      Distribute(i - 1, step);
    }
    Distribute(|rest|, step);
  }

  lemma Distribute(a: int, b: int)
    ensures (a + 1) * b == a * b + b
  {
  }

  lemma MulMonotone(a: int, b: int, s: int)
    requires a <= b && s > 0
    ensures a * s <= b * s
  {
  }

  /** The sampling stride along an edge of `n` pixels, `max(1, n // 20)`. */
  function Stride(n: int): (s: int)
    ensures s >= 1 && (n >= 40 ==> s == n / 20) && (n < 40 ==> s == 1)
  {
    if n / 20 > 1 then n / 20 else 1
  }

  /** A pixel position on the border of a `w` x `h` image. */
  predicate OnEdge(p: (int, int), w: int, h: int) {
    && 0 <= p.0 < w && 0 <= p.1 < h
    && (p.0 == 0 || p.0 == w - 1 || p.1 == 0 || p.1 == h - 1)
  }

  predicate AllOnEdge(ps: seq<(int, int)>, w: int, h: int) {
    forall i :: 0 <= i < |ps| ==> OnEdge(ps[i], w, h)
  }

  lemma AllOnEdgeAppend(a: seq<(int, int)>, b: seq<(int, int)>, w: int, h: int)
    requires AllOnEdge(a, w, h) && AllOnEdge(b, w, h)
    ensures AllOnEdge(a + b, w, h)
  {
    forall i | 0 <= i < |a + b|
      ensures OnEdge((a + b)[i], w, h)
    {
      if i >= |a| {
        assert (a + b)[i] == b[i - |a|];
      }
    }
  }

  /** The sampled positions in the order the source visits them: the top
      row, the bottom row, the left column, the right column. */
  function EdgeSamples(w: int, h: int): (ps: seq<(int, int)>)
    requires w >= 1 && h >= 1
    ensures |ps| >= 4
    ensures AllOnEdge(ps, w, h)
  {
    var xs := Range(0, w, Stride(w));
    var ys := Range(0, h, Stride(h));
    var top, bottom, left, right := Row(xs, 0), Row(xs, h - 1), Column(0, ys), Column(w - 1, ys);
    assert AllOnEdge(top, w, h) && AllOnEdge(bottom, w, h);
    assert AllOnEdge(left, w, h) && AllOnEdge(right, w, h);
    AllOnEdgeAppend(top, bottom, w, h);
    AllOnEdgeAppend(top + bottom, left, w, h);
    AllOnEdgeAppend(top + bottom + left, right, w, h);
    top + bottom + left + right
  }

  /** The positions `(x, y)` for each `x` of `xs`. */
  function Row(xs: seq<int>, y: int): (ps: seq<(int, int)>)
    ensures |ps| == |xs| && forall i :: 0 <= i < |ps| ==> ps[i] == (xs[i], y)
  {
    if |xs| == 0 then [] else [(xs[0], y)] + Row(xs[1..], y)
  }

  /** The positions `(x, y)` for each `y` of `ys`. */
  function Column(x: int, ys: seq<int>): (ps: seq<(int, int)>)
    ensures |ps| == |ys| && forall i :: 0 <= i < |ps| ==> ps[i] == (x, ys[i])
  {
    if |ys| == 0 then [] else [(x, ys[0])] + Column(x, ys[1..])
  }

  /** Channel `k` (0 red, 1 green, 2 blue) of a colour. */
  function Chan(c: Rgb, k: int): Channel
  {
    if k == 0 then c.r else if k == 1 then c.g else c.b
  }

  /** The total of channel `k` over the samples: at most 255 per sample. */
  function Sum(cs: seq<Rgb>, k: int): (r: int)
    ensures 0 <= r <= 255 * |cs|
  {
    if |cs| == 0 then 0 else Sum(cs[..|cs| - 1], k) + Chan(cs[|cs| - 1], k)
  }

  /** Smallest and largest value of channel `k` among the samples. */
  function MinChan(cs: seq<Rgb>, k: int): (m: Channel)
    requires |cs| > 0
    ensures forall i :: 0 <= i < |cs| ==> m <= Chan(cs[i], k)
    ensures exists i :: 0 <= i < |cs| && m == Chan(cs[i], k)
  {
    if |cs| == 1 then Chan(cs[0], k)
    else
      var m := MinChan(cs[..|cs| - 1], k);
      assert forall i :: 0 <= i < |cs| - 1 ==> cs[..|cs| - 1][i] == cs[i];
      if Chan(cs[|cs| - 1], k) < m then Chan(cs[|cs| - 1], k) else m
  }

  function MaxChan(cs: seq<Rgb>, k: int): (m: Channel)
    requires |cs| > 0
    ensures forall i :: 0 <= i < |cs| ==> Chan(cs[i], k) <= m
    ensures exists i :: 0 <= i < |cs| && m == Chan(cs[i], k)
  {
    if |cs| == 1 then Chan(cs[0], k)
    else
      var m := MaxChan(cs[..|cs| - 1], k);
      assert forall i :: 0 <= i < |cs| - 1 ==> cs[..|cs| - 1][i] == cs[i];
      if Chan(cs[|cs| - 1], k) > m then Chan(cs[|cs| - 1], k) else m
  }

  /** A sum of values that all lie in `[lo, hi]` lies in `[n lo, n hi]`. */
  lemma {:induction false} SumBounds(cs: seq<Rgb>, k: int, lo: int, hi: int)
    requires forall i :: 0 <= i < |cs| ==> lo <= Chan(cs[i], k) <= hi
    ensures |cs| * lo <= Sum(cs, k) <= |cs| * hi
  {
    if |cs| > 0 {
      var init := cs[..|cs| - 1];
      assert forall i :: 0 <= i < |init| ==> init[i] == cs[i];
      SumBounds(init, k, lo, hi);
      Distribute(|init|, lo);
      Distribute(|init|, hi);
    }
  }

  /** The floored quotient of a sum that lies in `[n lo, n hi]` lies in
      `[lo, hi]`. */
  lemma DivBounds(s: int, n: int, lo: int, hi: int)
    requires n > 0 && n * lo <= s <= n * hi
    ensures lo <= s / n <= hi
  {
    var q, r := s / n, s % n;
    assert s == q * n + r && 0 <= r < n;
    if q < lo {
      MulMonotone(q + 1, lo, n);
      assert false;
    }
    if q > hi {
      MulMonotone(hi + 1, q, n);
      assert false;
    }
  }

  /** `m` is the floored mean of channel `k` of the samples, and so lies
      between their smallest and largest value. */
  predicate FlooredMean(m: int, cs: seq<Rgb>, k: int)
    requires |cs| > 0
  {
    && MinChan(cs, k) <= m <= MaxChan(cs, k)
    && m * |cs| <= Sum(cs, k) < (m + 1) * |cs|
  }

  /** The floored mean of channel `k` over non-empty samples. */
  function Mean(cs: seq<Rgb>, k: int): (m: Channel)
    requires |cs| > 0
    ensures FlooredMean(m, cs, k)
  {
    SumBounds(cs, k, MinChan(cs, k), MaxChan(cs, k));
    DivBounds(Sum(cs, k), |cs|, MinChan(cs, k), MaxChan(cs, k));
    DivFloor(Sum(cs, k), |cs|);
    Sum(cs, k) / |cs|
  }

  /** Euclidean division by a positive divisor is the floored quotient. */
  lemma DivFloor(s: int, n: int)
    requires n > 0
    ensures (s / n) * n <= s < (s / n + 1) * n
  {
    var q := s / n;
    assert q * n + s % n == s;
    Distribute(q, n);
  }

  /** The colours at the sampled positions, in sampling order. */
  function EdgeColors(img: Image): (cs: seq<Rgb>)
    requires img.width >= 1 && img.height >= 1
    ensures |cs| == |EdgeSamples(img.width, img.height)| && |cs| >= 4
    ensures forall i :: 0 <= i < |cs| ==>
      var p := EdgeSamples(img.width, img.height)[i];
      cs[i] == img.pixel(p.0, p.1)
  {
    var ps := EdgeSamples(img.width, img.height);
    seq(|ps|, i requires 0 <= i < |ps| => img.pixel(ps[i].0, ps[i].1))
  }

  /** `get_dominant_edge_color`. An image without pixels makes the source
      either find no samples or index outside the image; both end in
      white. */
  function DominantEdgeColor(img: Image): (c: Rgb)
    ensures img.width < 1 || img.height < 1 ==> c == White
    ensures img.width >= 1 && img.height >= 1 ==>
      var cs := EdgeColors(img);
      FlooredMean(c.r, cs, 0) && FlooredMean(c.g, cs, 1) && FlooredMean(c.b, cs, 2)
  {
    if img.width < 1 || img.height < 1 then White
    else
      var cs := EdgeColors(img);
      Rgb(Mean(cs, 0), Mean(cs, 1), Mean(cs, 2))
  }

  /** An image whose edge is one colour yields exactly that colour. */
  lemma UniformEdge(img: Image, c: Rgb)
    requires img.width >= 1 && img.height >= 1
    requires forall x, y ::
      (0 <= x < img.width && 0 <= y < img.height &&
       (x == 0 || x == img.width - 1 || y == 0 || y == img.height - 1)) ==> img.pixel(x, y) == c
    ensures DominantEdgeColor(img) == c
  {
    var cs := EdgeColors(img);
    var ps := EdgeSamples(img.width, img.height);
    forall i | 0 <= i < |cs|
      ensures cs[i] == c
    {
      assert cs[i] == img.pixel(ps[i].0, ps[i].1);
    }
    UniformMean(cs, c, 0);
    UniformMean(cs, c, 1);
    UniformMean(cs, c, 2);
  }

  /** The mean of equal samples is their common value. */
  lemma UniformMean(cs: seq<Rgb>, c: Rgb, k: int)
    requires |cs| > 0 && forall i :: 0 <= i < |cs| ==> cs[i] == c
    ensures Mean(cs, k) == Chan(c, k)
  {
    assert FlooredMean(Mean(cs, k), cs, k);
    var i :| 0 <= i < |cs| && MinChan(cs, k) == Chan(cs[i], k);
    var j :| 0 <= j < |cs| && MaxChan(cs, k) == Chan(cs[j], k);
  }

  /** The first samples are the top row at `x = 0, s, 2s, ...` below the
      width, with `s` the stride; the next are the same columns of the
      bottom row; then come the left and right columns at `y = 0, t, 2t,
      ...`. */
  lemma EdgeSamplesOrder(w: int, h: int, xs: seq<int>, ys: seq<int>)
    requires w >= 1 && h >= 1
    requires xs == Range(0, w, Stride(w)) && ys == Range(0, h, Stride(h))
    ensures |EdgeSamples(w, h)| == 2 * |xs| + 2 * |ys|
    ensures forall i :: 0 <= i < |xs| ==>
      && EdgeSamples(w, h)[i] == (i * Stride(w), 0)
      && EdgeSamples(w, h)[|xs| + i] == (i * Stride(w), h - 1)
    ensures forall j :: 0 <= j < |ys| ==>
      && EdgeSamples(w, h)[2 * |xs| + j] == (0, j * Stride(h))
      && EdgeSamples(w, h)[2 * |xs| + |ys| + j] == (w - 1, j * Stride(h))
  {
    EdgeSamplesParts(w, h, xs, ys);
    forall i | 0 <= i < |xs|
      ensures EdgeSamples(w, h)[i] == (i * Stride(w), 0)
      ensures EdgeSamples(w, h)[|xs| + i] == (i * Stride(w), h - 1)
    {
      RowSamplesAt(w, h, xs, ys, i);
    }
    forall j | 0 <= j < |ys|
      ensures EdgeSamples(w, h)[2 * |xs| + j] == (0, j * Stride(h))
      ensures EdgeSamples(w, h)[2 * |xs| + |ys| + j] == (w - 1, j * Stride(h))
    {
      ColumnSamplesAt(w, h, xs, ys, j);
    }
  }

  lemma RowSamplesAt(w: int, h: int, xs: seq<int>, ys: seq<int>, i: int)
    requires w >= 1 && h >= 1
    requires xs == Range(0, w, Stride(w)) && ys == Range(0, h, Stride(h))
    requires 0 <= i < |xs|
    ensures EdgeSamples(w, h)[i] == (i * Stride(w), 0)
    ensures EdgeSamples(w, h)[|xs| + i] == (i * Stride(w), h - 1)
  {
    EdgeSamplesParts(w, h, xs, ys);
    ConcatIndex(Row(xs, 0), Row(xs, h - 1), Column(0, ys), Column(w - 1, ys), i);
    ConcatIndex(Row(xs, 0), Row(xs, h - 1), Column(0, ys), Column(w - 1, ys), |xs| + i);
  }

  lemma ColumnSamplesAt(w: int, h: int, xs: seq<int>, ys: seq<int>, j: int)
    requires w >= 1 && h >= 1
    requires xs == Range(0, w, Stride(w)) && ys == Range(0, h, Stride(h))
    requires 0 <= j < |ys|
    ensures EdgeSamples(w, h)[2 * |xs| + j] == (0, j * Stride(h))
    ensures EdgeSamples(w, h)[2 * |xs| + |ys| + j] == (w - 1, j * Stride(h))
  {
    EdgeSamplesParts(w, h, xs, ys);
    ConcatIndex(Row(xs, 0), Row(xs, h - 1), Column(0, ys), Column(w - 1, ys), 2 * |xs| + j);
    ConcatIndex(Row(xs, 0), Row(xs, h - 1), Column(0, ys), Column(w - 1, ys), 2 * |xs| + |ys| + j);
  }

  lemma EdgeSamplesParts(w: int, h: int, xs: seq<int>, ys: seq<int>)
    requires w >= 1 && h >= 1
    requires xs == Range(0, w, Stride(w)) && ys == Range(0, h, Stride(h))
    ensures EdgeSamples(w, h) == Row(xs, 0) + Row(xs, h - 1) + Column(0, ys) + Column(w - 1, ys)
  {
  }

  /** Where position `i` of four concatenated sequences comes from. */
  lemma ConcatIndex<T>(a: seq<T>, b: seq<T>, c: seq<T>, d: seq<T>, i: int)
    requires 0 <= i < |a| + |b| + |c| + |d|
    ensures var s := a + b + c + d;
      && (i < |a| ==> s[i] == a[i])
      && (|a| <= i < |a| + |b| ==> s[i] == b[i - |a|])
      && (|a| + |b| <= i < |a| + |b| + |c| ==> s[i] == c[i - |a| - |b|])
      && (|a| + |b| + |c| <= i ==> s[i] == d[i - |a| - |b| - |c|])
  {
  }

  /** The top-left corner is always sampled, so there is always at least
      one sample. */
  lemma SamplesIncludeCorner(w: int, h: int)
    requires w >= 1 && h >= 1
    ensures (0, 0) in EdgeSamples(w, h)
  {
    var xs := Range(0, w, Stride(w));
    assert xs[0] == 0;
    assert EdgeSamples(w, h)[0] == (0, 0);
  }
}
