/** How an uploaded picture is brought to the exact pixel size of a cover
    panel (`load_and_resize_image`, `extend_image_intelligently`,
    `create_blurred_background`, `simple_resize_fallback`).

    The source compares aspect ratios and scales with floating-point
    quotients; the model states each decision over integers (a ratio test
    becomes a cross-multiplication, `int(a * (n / d))` becomes `a * n / d`)
    and proves, for each, that it agrees with the source's expression over
    exact real numbers. */
module PanelFit {
  import opened Results
  import opened Raster
  import Geometry
  import EdgeColor

  /** A width and height in pixels. */
  datatype Size = Size(w: int, h: int)

  /** `img_ratio > target_ratio`: the picture is relatively wider than the
      panel. */
  predicate Wider(w: int, h: int, tw: int, th: int) {
    w * th > tw * h
  }

  /** The size `extend_image_intelligently` resizes the picture to. A
      wider picture (`w/h > tw/th`) is fitted by width, a taller or
      equally shaped one by height; if that leaves the other side below 85%
      of the panel, that side is scaled to `int(0.85 * panel)` and the
      fitted side by the same factor. */
  function FillScale(w: int, h: int, tw: int, th: int): (s: Size)
    requires w > 0 && h > 0 && tw > 0 && th > 0
    // the picture covers at least 85% of the panel on both axes
    ensures s.w >= (85 * tw) / 100 && s.h >= (85 * th) / 100
    // a relatively wider picture is always shorter than the panel, and a
    // relatively taller one never wider
    ensures Wider(w, h, tw, th) ==> s.h < th
    ensures !Wider(w, h, tw, th) ==> s.w <= tw
  {
    if Wider(w, h, tw, th) then
      var nh := (h * tw) / w;
      DivBelow(h * tw, w, th);
      if 100 * nh < 85 * th then
        FillCoverage(w, h, tw, th);
        Size((85 * w * th) / (100 * h), (85 * th) / 100)
      else
        Size(tw, nh)
    else
      var nw := (w * th) / h;
      DivAtMost(w * th, h, tw);
      if 100 * nw < 85 * tw then
        FillCoverage(h, w, th, tw);
        Size((85 * tw) / 100, (85 * h * tw) / (100 * w))
      else
        Size(nw, th)
  }

  /** The 85% rule in the source's terms. A wider picture is first given
      the panel width and `new_height = int(h * tw / w)`; when
      `new_height / th < 0.85` its height becomes `int(th * 0.85)` whatever
      the picture, which is always short of the panel, and otherwise the
      fitted size stays. A taller or equally shaped picture is treated the
      same way with the axes swapped. */
  lemma FillRule(w: int, h: int, tw: int, th: int)
    requires w > 0 && h > 0 && tw > 0 && th > 0
    ensures Wider(w, h, tw, th) ==>
      var nh := Geometry.Trunc(h as real * (tw as real / w as real));
      if nh as real / th as real < 0.85 then
        FillScale(w, h, tw, th).h == Geometry.Trunc(th as real * 0.85) < th
      else
        FillScale(w, h, tw, th) == Size(tw, nh)
    ensures !Wider(w, h, tw, th) ==>
      var nw := Geometry.Trunc(w as real * (th as real / h as real));
      if nw as real / tw as real < 0.85 then
        FillScale(w, h, tw, th).w == Geometry.Trunc(tw as real * 0.85) < tw
      else
        FillScale(w, h, tw, th) == Size(nw, th)
  {
    FillScaleIsSource(w, h, tw, th);
    RatioGreater(w, h, tw, th);
    TruncPercent(th);
    TruncPercent(tw);
    if Wider(w, h, tw, th) {
      TruncBoostSelf(h, th);
    } else {
      TruncBoostSelf(w, tw);
    }
  }

  /** `int(t * 0.85)` is `85 t // 100`, below `t` for a positive `t`. */
  lemma TruncPercent(t: int)
    requires t > 0
    ensures Geometry.Trunc(t as real * 0.85) == (85 * t) / 100 < t
  {
    assert t as real * 0.85 == (85 * t) as real / 100.0;
    TruncQuotient(85 * t, 100);
  }

  /** After the fill rule fires on the short axis `b`, the long axis still
      covers 85% of its panel size. */
  lemma FillCoverage(a: int, b: int, ta: int, tb: int)
    requires a > 0 && b > 0 && ta > 0 && tb > 0
    requires a * tb >= ta * b
    ensures (85 * a * tb) / (100 * b) >= (85 * ta) / 100
  {
    var q := (85 * ta) / 100;
    assert q * 100 <= 85 * ta;
    MulMonotone(q * 100, 85 * ta, b);
    assert 85 * ta * b <= 85 * a * tb;
    assert q * (100 * b) == q * 100 * b;
    DivAtLeast(q, 85 * a * tb, 100 * b);
  }

  /** The picture reaches the crop branch, with both scaled sides at least
      the panel's, exactly when its aspect ratio equals the panel's; then
      it is scaled to exactly the panel size. */
  lemma CropIffSameAspect(w: int, h: int, tw: int, th: int)
    requires w > 0 && h > 0 && tw > 0 && th > 0
    ensures
      var s := FillScale(w, h, tw, th);
      (s.w >= tw && s.h >= th) <==> w * th == tw * h
    ensures w * th == tw * h ==> FillScale(w, h, tw, th) == Size(tw, th)
  {
    var s := FillScale(w, h, tw, th);
    if w * th == tw * h {
      assert (w * th) / h == tw by {
        assert w * th == tw * h;
        DivExact(tw, h);
      }
    } else if !Wider(w, h, tw, th) {
      assert w * th < tw * h;
      DivBelow(w * th, h, tw);
    }
  }

  /** The size `create_blurred_background` resizes the picture to before
      cropping. A wider picture is fitted by height, a taller or equally
      shaped one by width, so that both sides cover the panel. */
  function CoverScale(w: int, h: int, tw: int, th: int): (s: Size)
    requires w > 0 && h > 0 && tw > 0 && th > 0
    ensures s.w >= tw && s.h >= th
    ensures s.w == tw || s.h == th
  {
    if Wider(w, h, tw, th) then
      DivAtLeast(tw, w * th, h);
      Size((w * th) / h, th)
    else
      DivAtLeast(th, h * tw, w);
      Size(tw, (h * tw) / w)
  }

  /** The size `simple_resize_fallback` resizes the picture to. A wider
      picture is fitted by height, a taller or equally shaped one by width.
      Despite its "scale to fit" comment this makes the picture cover the
      panel on both axes. */
  function FallbackScale(w: int, h: int, tw: int, th: int): (s: Size)
    requires w > 0 && h > 0 && tw > 0 && th > 0
    ensures s.w >= tw && s.h >= th
  {
    if Wider(w, h, tw, th) then
      DivAtLeast(tw, th * w, h);
      Size((th * w) / h, th)
    else
      DivAtLeast(th, tw * h, w);
      Size(tw, (tw * h) / w)
  }

  /** Python's `(a - b) // 2`: the offset that centres a span of `b`
      inside a span of `a` (negative when `b` is larger). */
  function CenterOffset(a: int, b: int): (o: int)
    ensures 2 * o + b == a || 2 * o + b == a - 1
  {
    (a - b) / 2
  }

  /** The panel background behind a picture that does not cover it: the
      picture scaled to cover the panel, cropped to the panel from the
      centre, blurred with radius 15, then blended 30% towards a solid
      panel of the picture's edge colour. */
  function BlurredBackground(img: Image, tw: int, th: int): (p: Picture)
    requires img.width > 0 && img.height > 0 && tw > 0 && th > 0
    ensures p.Width() == tw && p.Height() == th
  {
    var s := CoverScale(img.width, img.height, tw, th);
    var left, top := (s.w - tw) / 2, (s.h - th) / 2;
    var blurred := Blurred(CropBox(Resized(Decoded(img), s.w, s.h), left, top, tw, th), 15);
    Tinted(blurred, tw, th, EdgeColor.DominantEdgeColor(img))
  }

  /** `Image.blend(blurred, solid, 0.3)` with a solid panel of colour `c`. */
  function Tinted(blurred: Picture, tw: int, th: int, c: Rgb): (p: Picture)
    requires blurred.Width() == tw && blurred.Height() == th
    ensures p == Blended(blurred, Solid(tw, th, c), 0.3)
    ensures p.Width() == tw && p.Height() == th
  {
    Blended(blurred, Solid(tw, th, c), 0.3)
  }

  /** The `w` by `h` box of `src` whose top-left corner is `(left, top)`. */
  function CropBox(src: Picture, left: int, top: int, w: int, h: int): (p: Picture)
    ensures p == Cropped(src, left, top, left + w, top + h)
    ensures p.Width() == w && p.Height() == h
  {
    Cropped(src, left, top, left + w, top + h)
  }

  /** The crop box of `BlurredBackground` lies inside the scaled picture
      and is centred in it. */
  lemma BackgroundCropInside(w: int, h: int, tw: int, th: int)
    requires w > 0 && h > 0 && tw > 0 && th > 0
    ensures
      var s := CoverScale(w, h, tw, th);
      var left, top := (s.w - tw) / 2, (s.h - th) / 2;
      && 0 <= left && left + tw <= s.w && 0 <= top && top + th <= s.h
      && (s.w - (left + tw)) - left <= 1 && (s.h - (top + th)) - top <= 1
  {
  }

  /** `simple_resize_fallback`: the picture scaled to cover the panel and
      pasted, centred, onto a white panel. */
  function Fallback(img: Image, tw: int, th: int): (p: Picture)
    requires img.width > 0 && img.height > 0 && tw > 0 && th > 0
    ensures p.Width() == tw && p.Height() == th
  {
    var s := FallbackScale(img.width, img.height, tw, th);
    Pasted(Solid(tw, th, White), Resized(Decoded(img), s.w, s.h),
           CenterOffset(tw, s.w), CenterOffset(th, s.h))
  }

  /** The white panel of the fallback never shows: the pasted picture
      starts at or before the panel's top-left corner and ends at or after
      its bottom-right corner. */
  lemma FallbackCoversPanel(img: Image, tw: int, th: int)
    requires img.width > 0 && img.height > 0 && tw > 0 && th > 0
    ensures
      var p := Fallback(img, tw, th);
      && p.Pasted?
      && p.x <= 0 && p.y <= 0
      && p.x + p.layer.Width() >= tw && p.y + p.layer.Height() >= th
  {
  }

  /** `extend_image_intelligently` followed by `load_and_resize_image`:
      the picture brought to exactly `tw` x `th` pixels. When the scaled
      picture covers the panel it is cropped from the centre; otherwise it
      is pasted, centred, onto the blurred background. A scaled size of
      zero makes the resize fail and the fallback take over. A picture
      without pixels makes every ratio divide by zero, in the fallback too,
      and the error reaches the caller. */
  function FitPanel(img: Image, tw: int, th: int): (r: Result<Picture>)
    requires tw > 0 && th > 0
    ensures r.Err? <==> img.width < 1 || img.height < 1
    ensures r.Err? ==> r.error == UnreadableImage
    ensures r.Ok? ==> r.value.Width() == tw && r.value.Height() == th
  {
    if img.width < 1 || img.height < 1 then Err(UnreadableImage)
    else
      var s := FillScale(img.width, img.height, tw, th);
      if s.w < 1 || s.h < 1 then Ok(Fallback(img, tw, th))
      else Ok(Place(img, s, tw, th, BlurredBackground(img, tw, th)))
  }

  /** The branch of `extend_image_intelligently` after the resize to `s`:
      crop from the centre when the scaled picture covers the panel, paste
      it centred onto the blurred background otherwise. */
  function Place(img: Image, s: Size, tw: int, th: int, background: Picture): (p: Picture)
    requires img.width > 0 && img.height > 0 && tw > 0 && th > 0
    requires background.Width() == tw && background.Height() == th
    ensures p.Width() == tw && p.Height() == th
  {
    var scaled := Resized(Decoded(img), s.w, s.h);
    if s.w >= tw && s.h >= th then
      var left, top := (s.w - tw) / 2, (s.h - th) / 2;
      Cropped(scaled, left, top, left + tw, top + th)
    else
      Pasted(background, scaled, CenterOffset(tw, s.w), CenterOffset(th, s.h))
  }

  /** A picture with the panel's aspect ratio is scaled straight to the
      panel size and "cropped" with a zero offset. */
  lemma SameAspectIsPlainResize(img: Image, tw: int, th: int)
    requires img.width > 0 && img.height > 0 && tw > 0 && th > 0
    requires img.width * th == tw * img.height
    ensures FitPanel(img, tw, th) == Ok(Cropped(Resized(Decoded(img), tw, th), 0, 0, tw, th))
  {
    CropIffSameAspect(img.width, img.height, tw, th);
    var s := FillScale(img.width, img.height, tw, th);
    assert s == Size(tw, th);
    var background := BlurredBackground(img, tw, th);
    assert FitPanel(img, tw, th) == Ok(Place(img, s, tw, th, background));
    assert Place(img, s, tw, th, background) == Cropped(Resized(Decoded(img), tw, th), 0, 0, tw, th);
  }

  /** Any other picture is pasted onto the blurred background, centred on
      each axis to within one pixel. */
  lemma OtherAspectIsCentredOnBackground(img: Image, tw: int, th: int)
    requires img.width > 0 && img.height > 0 && tw > 0 && th > 0
    requires img.width * th != tw * img.height
    requires var s := FillScale(img.width, img.height, tw, th); s.w > 0 && s.h > 0
    ensures
      var s := FillScale(img.width, img.height, tw, th);
      var r := FitPanel(img, tw, th);
      && r.Ok? && r.value.Pasted?
      && r.value.base == BlurredBackground(img, tw, th)
      && r.value.layer == Resized(Decoded(img), s.w, s.h)
      && 0 <= tw - (2 * r.value.x + s.w) <= 1
      && 0 <= th - (2 * r.value.y + s.h) <= 1
  {
    CropIffSameAspect(img.width, img.height, tw, th);
  }

  // ---------------------------------------------------------------------
  // The same decisions as the source writes them, over exact reals.

  /** The source's size computation in `extend_image_intelligently`,
      statement by statement: quotients of reals, `int(...)` as
      truncation, and the fill test `new / target < 0.85`. */
  function SourceFillScale(w: int, h: int, tw: int, th: int): Size
    requires w > 0 && h > 0 && tw > 0 && th > 0
  {
    var imgRatio := w as real / h as real;
    var targetRatio := tw as real / th as real;
    if imgRatio > targetRatio then
      var scale := tw as real / w as real;
      var nh := Geometry.Trunc(h as real * scale);
      if nh as real / th as real < 0.85 then
        var boost := (th as real * 0.85) / h as real;
        Size(Geometry.Trunc(w as real * boost), Geometry.Trunc(h as real * boost))
      else
        Size(tw, nh)
    else
      var scale := th as real / h as real;
      var nw := Geometry.Trunc(w as real * scale);
      if nw as real / tw as real < 0.85 then
        var boost := (tw as real * 0.85) / w as real;
        Size(Geometry.Trunc(w as real * boost), Geometry.Trunc(h as real * boost))
      else
        Size(nw, th)
  }

  /** The integer form of the fill decision is the source's, read over
      exact reals. */
  lemma FillScaleIsSource(w: int, h: int, tw: int, th: int)
    requires w > 0 && h > 0 && tw > 0 && th > 0
    ensures FillScale(w, h, tw, th) == SourceFillScale(w, h, tw, th)
  {
    RatioGreater(w, h, tw, th);
    if Wider(w, h, tw, th) {
      TruncScaled(h, tw, w);
      FillTest((h * tw) / w, th);
      TruncBoost(w, th, h);
      TruncBoostSelf(h, th);
    } else {
      TruncScaled(w, th, h);
      FillTest((w * th) / h, tw);
      TruncBoost(h, tw, w);
      TruncBoostSelf(w, tw);
    }
  }

  /** The source's size computation in `create_blurred_background`. */
  function SourceCoverScale(w: int, h: int, tw: int, th: int): Size
    requires w > 0 && h > 0 && tw > 0 && th > 0
  {
    if w as real / h as real > tw as real / th as real then
      Size(Geometry.Trunc(w as real * (th as real / h as real)), th)
    else
      Size(tw, Geometry.Trunc(h as real * (tw as real / w as real)))
  }

  lemma CoverScaleIsSource(w: int, h: int, tw: int, th: int)
    requires w > 0 && h > 0 && tw > 0 && th > 0
    ensures CoverScale(w, h, tw, th) == SourceCoverScale(w, h, tw, th)
  {
    RatioGreater(w, h, tw, th);
    TruncScaled(w, th, h);
    TruncScaled(h, tw, w);
  }

  /** The source's size computation in `simple_resize_fallback`, which
      multiplies and divides by the picture's ratio. */
  function SourceFallbackScale(w: int, h: int, tw: int, th: int): Size
    requires w > 0 && h > 0 && tw > 0 && th > 0
  {
    var imgRatio := w as real / h as real;
    if imgRatio > tw as real / th as real then
      Size(Geometry.Trunc(th as real * imgRatio), th)
    else
      Size(tw, Geometry.Trunc(tw as real / imgRatio))
  }

  lemma FallbackScaleIsSource(w: int, h: int, tw: int, th: int)
    requires w > 0 && h > 0 && tw > 0 && th > 0
    ensures FallbackScale(w, h, tw, th) == SourceFallbackScale(w, h, tw, th)
  {
    RatioGreater(w, h, tw, th);
    TruncScaled(th, w, h);
    assert tw as real / (w as real / h as real) == (tw * h) as real / w as real;
    TruncQuotient(tw * h, w);
  }

  /** `w / h > tw / th` over reals is the cross-multiplied test. */
  lemma RatioGreater(w: int, h: int, tw: int, th: int)
    requires w > 0 && h > 0 && tw > 0 && th > 0
    ensures (w as real / h as real > tw as real / th as real) <==> Wider(w, h, tw, th)
  {
    var x, y := w as real / h as real, tw as real / th as real;
    assert x * h as real == w as real && y * th as real == tw as real;
    assert (x - y) * (h as real * th as real) == (w * th - tw * h) as real;
  }

  /** `int(a * (n / d))` is `a * n // d` for non-negative operands. */
  lemma TruncScaled(a: int, n: int, d: int)
    requires a >= 0 && n >= 0 && d > 0
    ensures Geometry.Trunc(a as real * (n as real / d as real)) == (a * n) / d
  {
    assert a as real * (n as real / d as real) == (a * n) as real / d as real;
    TruncQuotient(a * n, d);
  }

  /** `n / t < 0.85` over reals is `100 n < 85 t`. */
  lemma FillTest(n: int, t: int)
    requires t > 0
    ensures (n as real / t as real < 0.85) <==> 100 * n < 85 * t
  {
    var x := n as real / t as real;
    assert x * t as real == n as real;
    var d, m := 0.85 - x, (100 * t) as real;
    assert d * m == (85 * t - 100 * n) as real;
    SignOfProduct(d, m);
  }

  /** `int(a * (t * 0.85 / d))` is `85 a t // (100 d)`. */
  lemma TruncBoost(a: int, t: int, d: int)
    requires a >= 0 && t >= 0 && d > 0
    ensures Geometry.Trunc(a as real * ((t as real * 0.85) / d as real)) == (85 * a * t) / (100 * d)
  {
    assert a as real * ((t as real * 0.85) / d as real) == (85 * a * t) as real / (100 * d) as real;
    TruncQuotient(85 * a * t, 100 * d);
  }

  /** On the axis it was computed from, the boost gives `int(0.85 t)`. */
  lemma TruncBoostSelf(d: int, t: int)
    requires t >= 0 && d > 0
    ensures Geometry.Trunc(d as real * ((t as real * 0.85) / d as real)) == (85 * t) / 100
  {
    assert d as real * ((t as real * 0.85) / d as real) == (85 * t) as real / 100.0;
    TruncQuotient(85 * t, 100);
  }

  /** Truncating an exact quotient of naturals is integer division. */
  lemma TruncQuotient(p: int, q: int)
    requires p >= 0 && q > 0
    ensures Geometry.Trunc(p as real / q as real) == p / q
  {
    var k := p / q;
    var x := p as real / q as real;
    assert k as real <= x < k as real + 1.0 by {
      var r := p % q;
      assert p == k * q + r && 0 <= r < q && k >= 0;
      QuotientBetween(p as real, q as real, k as real, r as real);
    }
  }

  /** `p / q` lies between `k` and `k + 1` when `p = k q + r`, `0 <= r < q`. */
  lemma QuotientBetween(p: real, q: real, k: real, r: real)
    requires q > 0.0 && 0.0 <= r < q && p == k * q + r
    ensures k <= p / q < k + 1.0
  {
    var x := p / q;
    assert (x - k) * q == r by {
      assert x * q == p;
    }
    assert (x - k - 1.0) * q == r - q;
    SignOfProduct(x - k, q);
    SignOfProduct(x - k - 1.0, q);
  }

  /** A product with a positive factor has the sign of the other one. */
  lemma SignOfProduct(a: real, b: real)
    requires b > 0.0
    ensures a > 0.0 <==> a * b > 0.0
    ensures a < 0.0 <==> a * b < 0.0
  {
  }

  // ---------------------------------------------------------------------
  // Integer division facts.

  lemma MulMonotone(a: int, b: int, s: int)
    requires a <= b && s > 0
    ensures a * s <= b * s
  {
  }

  /** `a < t d` forces `a / d < t`. */
  lemma DivBelow(a: int, d: int, t: int)
    requires d > 0 && a < t * d
    ensures a / d < t
  {
    var q := a / d;
    assert q * d + a % d == a;
    if q >= t {
      MulMonotone(t, q, d);
      assert false;
    }
  }

  /** `a <= t d` forces `a / d <= t`. */
  lemma DivAtMost(a: int, d: int, t: int)
    requires d > 0 && a <= t * d
    ensures a / d <= t
  {
    DivBelow(a, d, t + 1);
  }

  /** `q d <= a` forces `q <= a / d`. */
  lemma DivAtLeast(q: int, a: int, d: int)
    requires d > 0 && q * d <= a
    ensures q <= a / d
  {
    var k := a / d;
    assert k * d + a % d == a;
    if k < q {
      MulMonotone(k + 1, q, d);
      assert false;
    }
  }

  lemma DivExact(t: int, d: int)
    requires d > 0
    ensures (t * d) / d == t
  {
    DivAtMost(t * d, d, t);
    DivAtLeast(t, t * d, d);
  }
}
