/** Print geometry of a wraparound cover: the trim catalogue, the spine
    width formula, the spread's size in inches, and the pixel rectangles of
    back panel, spine and front panel on the 300 DPI canvas. */
module Geometry {
  import opened Results

  /** Bleed added on every outer edge, in inches. */
  const BleedMargin: real := 0.125
  /** Extra inset, inside the panel, that text keeps clear of, in inches. */
  const SafeMargin: real := 0.25
  /** Output resolution. */
  const Dpi: int := 300
  /** Thickness of one sheet (two pages), in inches. */
  const SheetThickness: real := 0.0025
  /** The spine is never narrower than this, in inches. */
  const MinSpineWidth: real := 0.06

  /** The supported trim sizes, name to (width, height) in inches. */
  const TrimSizes: map<string, (real, real)> := map[
    "5x8" := (5.0, 8.0),
    "5.25x8" := (5.25, 8.0),
    "5.5x8.5" := (5.5, 8.5),
    "6x9" := (6.0, 9.0),
    "6.14x9.21" := (6.14, 9.21),
    "6.69x9.61" := (6.69, 9.61),
    "7x10" := (7.0, 10.0),
    "7.44x9.69" := (7.44, 9.69),
    "7.5x9.25" := (7.5, 9.25),
    "8x10" := (8.0, 10.0),
    "8.25x6" := (8.25, 6.0),
    "8.25x8.25" := (8.25, 8.25),
    "8.5x8.5" := (8.5, 8.5),
    "8.5x11" := (8.5, 11.0)
  ]

  /** Python's `int(x)` on a float: truncation toward zero. */
  function Trunc(x: real): (n: int)
    ensures 0.0 <= x ==> n as real <= x < n as real + 1.0
    ensures x < 0.0 ==> n as real - 1.0 < x <= n as real
  {
    if x >= 0.0 then x.Floor else -((-x).Floor)
  }

  /** Inches to whole pixels, `int(inches * DPI)`: for a non-negative
      length, the whole pixels that fit in it. */
  function Px(inches: real): (n: int)
    ensures 0.0 <= inches ==> 0 <= n && n as real <= inches * Dpi as real < n as real + 1.0
  {
    Trunc(inches * Dpi as real)
  }

  /** `calculate_spine_width`: half the page count in sheets, times the
      sheet thickness, but never below the minimum. */
  function SpineWidth(pageCount: int): (s: real)
    ensures s >= MinSpineWidth
    ensures s >= (pageCount as real / 2.0) * SheetThickness
    ensures s == MinSpineWidth || s == (pageCount as real / 2.0) * SheetThickness
  {
    var raw := (pageCount as real / 2.0) * SheetThickness;
    if raw >= MinSpineWidth then raw else MinSpineWidth
  }

  /** More pages never make a thinner spine. */
  lemma SpineWidthMonotone(p: int, q: int)
    requires p <= q
    ensures SpineWidth(p) <= SpineWidth(q)
  {
  }

  /** The floor only takes effect below 24 pages: page_count 1 gives the
      minimum, 200 gives a quarter inch, 800 gives one inch. */
  lemma SpineWidthExamples()
    ensures SpineWidth(1) == 0.06
    ensures SpineWidth(24) == 0.06
    ensures SpineWidth(200) == 0.25
    ensures SpineWidth(800) == 1.0
  {
  }

  /** What `get_cover_dimensions` returns. */
  datatype Dimensions = Dimensions(totalWidth: real, totalHeight: real, spineWidth: real)

  /** `get_cover_dimensions`: the full spread in inches, back panel plus
      spine plus front panel plus bleed on both sides; an unknown trim
      name is an error. */
  function CoverDimensions(trim: string, pageCount: int): (r: Result<Dimensions>)
    ensures r.Err? <==> trim !in TrimSizes
    ensures r.Err? ==> r.error == UnsupportedTrimSize(trim)
    ensures r.Ok? ==> r.value.spineWidth == SpineWidth(pageCount)
    ensures r.Ok? ==>
      var (w, h) := TrimSizes[trim];
      && r.value.totalWidth == 2.0 * w + r.value.spineWidth + 2.0 * BleedMargin
      && r.value.totalHeight == h + 2.0 * BleedMargin
  {
    if trim !in TrimSizes then Err(UnsupportedTrimSize(trim))
    else
      var (width, height) := TrimSizes[trim];
      var spine := SpineWidth(pageCount);
      Ok(Dimensions(width * 2.0 + spine + BleedMargin * 2.0, height + BleedMargin * 2.0, spine))
  }

  /** Every catalogued panel is at least five inches on each side. */
  lemma TrimSizesAtLeastFiveInches(trim: string)
    requires trim in TrimSizes
    ensures TrimSizes[trim].0 >= 5.0 && TrimSizes[trim].1 >= 6.0
  {
  }

  /** The spread is strictly wider than both panels and the spine, and
      strictly taller than a panel: the bleed is always there. */
  lemma SpreadExceedsPanels(trim: string, pageCount: int)
    requires trim in TrimSizes
    ensures
      var d := CoverDimensions(trim, pageCount).value;
      && d.totalWidth > 2.0 * TrimSizes[trim].0 + d.spineWidth
      && d.totalHeight > TrimSizes[trim].1
  {
  }

  /** Trim 6x9 at 200 pages is a 12.5 x 9.25 inch spread with a quarter-inch
      spine. */
  lemma CoverDimensionsExample()
    ensures CoverDimensions("6x9", 200) == Ok(Dimensions(12.5, 9.25, 0.25))
  {
  }

  // ---------------------------------------------------------------------
  // Pixel layout of the spread (the arithmetic at the top of generate_cover).

  /** An axis-aligned pixel rectangle: top-left corner and size. */
  datatype Rect = Rect(x: int, y: int, w: int, h: int) {
    function Right(): int { x + w }
    function Bottom(): int { y + h }
  }

  /** `r` shrunk by `m` pixels on every side. */
  function Inset(r: Rect, m: int): (t: Rect)
    ensures t.x - r.x == m && r.Right() - t.Right() == m
    ensures t.y - r.y == m && r.Bottom() - t.Bottom() == m
  {
    Rect(r.x + m, r.y + m, r.w - 2 * m, r.h - 2 * m)
  }

  /** Every pixel quantity `generate_cover` derives, and where it puts the
      two panels, the spine strip and the two text boxes. */
  datatype Layout = Layout(
    dims: Dimensions,
    widthPx: int, heightPx: int,
    spinePx: int, panelWidthPx: int, panelHeightPx: int,
    bleedPx: int, safeMarginPx: int,
    back: Rect, front: Rect, spine: Rect,
    backText: Rect, frontText: Rect)

  /** The canvas layout for a trim name and a page count. Every quantity is
      truncated on its own, so the bleed strip is 37 px on the top and on
      the left but the canvas carries the full 75 px of bleed: the spare
      pixel ends up as one unpainted column between the back panel and the
      spine, and one extra row under the panels. */
  function SpreadLayout(trim: string, pageCount: int): (r: Result<Layout>)
    ensures r.Err? <==> trim !in TrimSizes
    ensures r.Err? ==> r.error == UnsupportedTrimSize(trim)
    // the spread, panels and spine are those of the named trim and page count
    ensures r.Ok? ==>
      && r.value.dims == CoverDimensions(trim, pageCount).value
      && r.value.panelWidthPx == Px(TrimSizes[trim].0)
      && r.value.panelHeightPx == Px(TrimSizes[trim].1)
      && r.value.spinePx == Px(SpineWidth(pageCount))
    ensures r.Ok? ==>
      var l := r.value;
      && l.bleedPx == 37 && l.safeMarginPx == 75
      && l.widthPx == Px(l.dims.totalWidth) && l.heightPx == Px(l.dims.totalHeight)
      // the back panel sits in the top-left corner, inside the bleed
      && l.back == Rect(l.bleedPx, l.bleedPx, l.panelWidthPx, l.panelHeightPx)
      // both panels have the same size, and the same top edge
      && l.front.w == l.back.w && l.front.h == l.back.h && l.front.y == l.back.y
      // the front panel ends exactly one bleed strip before the canvas edge
      && l.widthPx - l.front.Right() == l.bleedPx
      // the spine strip ends exactly where the front panel starts
      && l.spine.Right() == l.front.x && l.spine.w == l.spinePx
      && l.spine.y == l.front.y && l.spine.h == l.front.h
      // a single unpainted column is left between back panel and spine
      && l.spine.x - l.back.Right() == 1
      // one more row of bleed below the panels than above them
      && l.heightPx - l.front.Bottom() == l.bleedPx + 1
      // every catalogued panel is at least 1500 x 1800 px
      && l.panelWidthPx >= 1500 && l.panelHeightPx >= 1800
      // the text boxes are the panels inset by the safe margin
      && l.backText == Inset(l.back, l.safeMarginPx)
      && l.frontText == Inset(l.front, l.safeMarginPx)
  {
    match CoverDimensions(trim, pageCount)
    case Err(e) => Err(e)
    case Ok(d) =>
      var (trimWidth, trimHeight) := TrimSizes[trim];
      var widthPx := Px(d.totalWidth);
      var heightPx := Px(d.totalHeight);
      var spinePx := Px(d.spineWidth);
      var panelW := Px(trimWidth);
      var panelH := Px(trimHeight);
      var bleedPx := Px(BleedMargin);
      var safePx := Px(SafeMargin);
      var back := Rect(bleedPx, bleedPx, panelW, panelH);
      var frontX := widthPx - bleedPx - panelW;
      var front := Rect(frontX, bleedPx, panelW, panelH);
      var spine := Rect(frontX - spinePx, bleedPx, spinePx, panelH);
      TrimSizesWholePixels(trim);
      TrimSizesAtLeastFiveInches(trim);
      SeamGapWholePanel(trimWidth, d.spineWidth);
      FloorShift(trimHeight * 300.0, 75);
      Ok(Layout(d, widthPx, heightPx, spinePx, panelW, panelH, bleedPx, safePx,
                back, front, spine, Inset(back, safePx), Inset(front, safePx)))
  }

  /** `Floor` commutes with adding a whole number. */
  lemma FloorShift(x: real, n: int)
    ensures (x + n as real).Floor == x.Floor + n
  {
  }

  /** The width arithmetic behind the seam gap: with `a` the panel and `b`
      the spine in pixels before truncation, the canvas is
      floor(2a + b + 75) wide while the painted strips take
      2 floor(a) + floor(b) + 74 of it. */
  lemma SeamGap(w: real, s: real)
    requires w >= 0.0 && s >= 0.0
    ensures
      var total := Px(2.0 * w + s + 2.0 * BleedMargin);
      1 <= total - 2 * Px(w) - Px(s) - 2 * Px(BleedMargin) <= 3
  {
    var a, b := w * 300.0, s * 300.0;
    assert (w * 2.0 + s + 0.25) * 300.0 == 2.0 * a + b + 75.0;
    FloorShift(2.0 * a + b, 75);
  }

  /** Every catalogued size is a whole number of pixels at 300 DPI. */
  lemma TrimSizesWholePixels(trim: string)
    requires trim in TrimSizes
    ensures (Px(TrimSizes[trim].0) as real) == TrimSizes[trim].0 * 300.0
    ensures (Px(TrimSizes[trim].1) as real) == TrimSizes[trim].1 * 300.0
  {
    var (w, h) := TrimSizes[trim];
    if trim == "5x8" {
      WholePixels(w, h, 1500, 2400);
    } else if trim == "5.25x8" {
      WholePixels(w, h, 1575, 2400);
    } else if trim == "5.5x8.5" {
      WholePixels(w, h, 1650, 2550);
    } else if trim == "6x9" {
      WholePixels(w, h, 1800, 2700);
    } else if trim == "6.14x9.21" {
      WholePixels(w, h, 1842, 2763);
    } else if trim == "6.69x9.61" {
      WholePixels(w, h, 2007, 2883);
    } else if trim == "7x10" {
      WholePixels(w, h, 2100, 3000);
    } else if trim == "7.44x9.69" {
      WholePixels(w, h, 2232, 2907);
    } else if trim == "7.5x9.25" {
      WholePixels(w, h, 2250, 2775);
    } else if trim == "8x10" {
      WholePixels(w, h, 2400, 3000);
    } else if trim == "8.25x6" {
      WholePixels(w, h, 2475, 1800);
    } else if trim == "8.25x8.25" {
      WholePixels(w, h, 2475, 2475);
    } else if trim == "8.5x8.5" {
      WholePixels(w, h, 2550, 2550);
    } else {
      assert trim == "8.5x11";
      WholePixels(w, h, 2550, 3300);
    }
  }

  lemma WholePixels(w: real, h: real, pw: int, ph: int)
    requires w * 300.0 == pw as real && h * 300.0 == ph as real
    ensures (Px(w) as real) == w * 300.0 && (Px(h) as real) == h * 300.0
  {
    WholePixel(w, pw);
    WholePixel(h, ph);
  }

  lemma WholePixel(x: real, p: int)
    requires x * 300.0 == p as real
    ensures (Px(x) as real) == x * 300.0
  {
    assert x * Dpi as real == p as real;
    assert (p as real).Floor == p;
  }

  /** When the panel is a whole number of pixels the gap of `SeamGap` is
      exactly one column. */
  lemma SeamGapWholePanel(w: real, s: real)
    requires w >= 0.0 && s >= 0.0
    requires (Px(w) as real) == w * 300.0
    ensures
      var total := Px(2.0 * w + s + 2.0 * BleedMargin);
      total - 2 * Px(w) - Px(s) - 2 * Px(BleedMargin) == 1
  {
    var a, b := w * 300.0, s * 300.0;
    assert (w * 2.0 + s + 0.25) * 300.0 == b + (2 * Px(w) + 75) as real;
    FloorShift(b, 2 * Px(w) + 75);
  }

  /** Trim 6x9 at 200 pages: a 3750 x 2775 px canvas, 1800 x 2700 px panels,
      a 75 px spine starting at x = 1838 while the back panel ends at
      x = 1837, so exactly one column is left unpainted. */
  lemma SpreadLayoutExample()
    ensures
      var r := SpreadLayout("6x9", 200);
      && r.Ok?
      && r.value.widthPx == 3750 && r.value.heightPx == 2775
      && r.value.back == Rect(37, 37, 1800, 2700)
      && r.value.spine == Rect(1838, 37, 75, 2700)
      && r.value.front == Rect(1913, 37, 1800, 2700)
      && r.value.spine.x - r.value.back.Right() == 1
  {
    CoverDimensionsExample();
    assert (12.5 * 300.0).Floor == 3750;
    assert (9.25 * 300.0).Floor == 2775;
    assert (0.25 * 300.0).Floor == 75;
  }
}
