/** `generate_cover` and its three text steps: the panels are fitted and
    pasted onto a white canvas laid out by `SpreadLayout`, then the title
    block goes on the front panel, the description on the back panel and
    the rotated spine text into the spine strip. Text is recorded as the
    placements the drawing calls receive, not as pixels. */
module Spread {
  import opened Results
  import opened Raster
  import opened PyText
  import opened Colour
  import opened Geometry
  import opened PanelFit
  import opened TextLayout

  /** What the fonts report: the width and the height of the bounding box
      of a text at a font size (`textbbox` / `getbbox`). Which font file is
      found, and how it renders, is outside the model. */
  datatype Metrics = Metrics(textWidth: (int, string) -> int, textHeight: (int, string) -> int)

  function Measure(m: Metrics, size: int): string -> int {
    s => m.textWidth(size, s)
  }

  /** The line pitch of the centred text: the height of `"Ay"`. */
  function LineHeight(m: Metrics, size: int): int {
    m.textHeight(size, "Ay")
  }

  /** The fields of `book_data` the generator reads. */
  datatype BookData = BookData(
    trimSize: string, pageCount: int,
    title: string, subtitle: string, author: string,
    spineText: string, backCoverText: string,
    textColor: string, titleFontSize: int, authorFontSize: int)

  // ---------------------------------------------------------------------
  // add_front_cover_text.

  /** The column every front-cover line is centred on: the middle of the
      text box. */
  function CentreColumn(box: Rect): (ax: int)
    ensures 0 <= box.w - 2 * (ax - box.x) <= 1
  {
    box.x + box.w / 2
  }

  /** The title block is centred on the line a quarter of the way down. */
  function TitleLine(box: Rect): (ty: int)
    ensures 0 <= box.h - 4 * (ty - box.y) <= 3
  {
    box.y + box.h / 4
  }

  /** The author block is centred as far above the bottom of the box as the
      title block is below its top. */
  function AuthorLine(box: Rect): (ay: int)
    ensures box.Bottom() - ay == TitleLine(box) - box.y
  {
    box.y + box.h - box.h / 4
  }

  /** The subtitle is centred one and a half title font sizes (truncated)
      below the title line. */
  function SubtitleLine(box: Rect, titleFontSize: int): (sy: int)
    ensures titleFontSize >= 0 ==>
      0 <= 3 * titleFontSize - 2 * (sy - TitleLine(box)) <= 1
  {
    TruncThreeHalves(titleFontSize);
    TitleLine(box) + Trunc(titleFontSize as real * 1.5)
  }

  /** `int(size * 1.5)` over the reals is `3 * size // 2`. */
  lemma TruncThreeHalves(size: int)
    ensures size >= 0 ==> 0 <= 3 * size - 2 * Trunc(size as real * 1.5) <= 1
  {
    if size >= 0 {
      var n := Trunc(size as real * 1.5);
      assert size as real * 1.5 == (3 * size) as real / 2.0;
      assert (2 * n) as real <= (3 * size) as real < (2 * n + 2) as real;
    }
  }

  /** A block of lines drawn by `draw_text_centered` around `(ax, ay)`:
      nothing for blank text; otherwise every line centred on column `ax`,
      the stack centred on row `ay`, one line height apart. When a width
      is given the lines are the greedy wrap of the text's words, so they
      hold those words in order and each line is within the width unless
      it is a single word; without one, the text is a single line. */
  predicate CentredOn(ps: seq<Placed>, text: string, ax: int, ay: int,
                      measure: string -> int, lineHeight: int, maxWidth: int)
  {
    && (ps == [] <==> IsBlank(text))
    && (forall i :: 0 <= i < |ps| ==> 0 <= measure(ps[i].text) - 2 * (ax - ps[i].x) <= 1)
    && (|ps| > 0 ==> ps[0].y == ay - (|ps| * lineHeight) / 2)
    && (forall i :: 0 < i < |ps| ==> ps[i].y - ps[i - 1].y == lineHeight)
    && (maxWidth != 0 ==>
          && Texts(ps) == WrapText(text, measure, maxWidth)
          && Flatten(WordsEach(Texts(ps))) == Words(text)
          && AllFit(WordsEach(Texts(ps)), measure, maxWidth))
    && (maxWidth == 0 && !IsBlank(text) ==> Texts(ps) == [text])
  }

  lemma DrawnCentred(text: string, ax: int, ay: int, measure: string -> int, lineHeight: int, maxWidth: int)
    ensures CentredOn(DrawTextCentered(text, ax, ay, measure, lineHeight, maxWidth),
                      text, ax, ay, measure, lineHeight, maxWidth)
  {
    if maxWidth != 0 {
      DrawTextCenteredWraps(text, ax, ay, measure, lineHeight, maxWidth);
    } else if !IsBlank(text) {
      assert Texts(DrawTextCentered(text, ax, ay, measure, lineHeight, maxWidth)) == [text];
    }
  }

  /** Lines drawn at one font size. */
  datatype Block = Block(fontSize: int, lines: seq<Placed>)

  datatype FrontText = FrontText(color: Color, title: Block, subtitle: Block, author: Block)

  function DrawBlock(text: string, ax: int, ay: int, m: Metrics, size: int, maxWidth: int): (b: Block)
    ensures b.fontSize == size
    ensures CentredOn(b.lines, text, ax, ay, Measure(m, size), LineHeight(m, size), maxWidth)
  {
    DrawnCentred(text, ax, ay, Measure(m, size), LineHeight(m, size), maxWidth);
    Block(size, DrawTextCentered(text, ax, ay, Measure(m, size), LineHeight(m, size), maxWidth))
  }

  /** Blank text draws nothing, which is centred on anything. */
  function BlankBlock(text: string, ax: int, ay: int, m: Metrics, size: int, maxWidth: int): (b: Block)
    requires IsBlank(text)
    ensures b.lines == [] && b.fontSize == size
    ensures CentredOn(b.lines, text, ax, ay, Measure(m, size), LineHeight(m, size), maxWidth)
  {
    assert Texts([]) == [] && WordsEach([]) == [] && Flatten([]) == [];
    assert WrapText(text, Measure(m, size), maxWidth) == [];
    Block(size, [])
  }

  /** `add_front_cover_text` in the box `box`: with an unreadable colour
      the conversion raises before anything is drawn; otherwise the title
      and the author at their sizes, and the subtitle at half the title
      size when it is not blank, each wrapped to the box width. */
  function FrontCoverText(data: BookData, box: Rect, m: Metrics): (r: Option<FrontText>)
    ensures r.None? <==> ParseColor(data.textColor).None?
    ensures r.Some? ==> r.value.color == ParseColor(data.textColor).value
    ensures r.Some? ==>
      var t := r.value.title;
      && t.fontSize == data.titleFontSize
      && CentredOn(t.lines, data.title, CentreColumn(box), TitleLine(box),
                   Measure(m, t.fontSize), LineHeight(m, t.fontSize), box.w)
    ensures r.Some? ==>
      var s := r.value.subtitle;
      && 0 <= data.titleFontSize - 2 * s.fontSize <= 1
      && CentredOn(s.lines, data.subtitle, CentreColumn(box), SubtitleLine(box, data.titleFontSize),
                   Measure(m, s.fontSize), LineHeight(m, s.fontSize), box.w)
    ensures r.Some? ==>
      var a := r.value.author;
      && a.fontSize == data.authorFontSize
      && CentredOn(a.lines, data.author, CentreColumn(box), AuthorLine(box),
                   Measure(m, a.fontSize), LineHeight(m, a.fontSize), box.w)
  {
    match ParseColor(data.textColor)
    case None => None
    case Some(color) =>
      var ax := CentreColumn(box);
      var subtitleSize := data.titleFontSize / 2;
      var subtitle :=
        if IsBlank(data.subtitle) then BlankBlock(data.subtitle, ax, SubtitleLine(box, data.titleFontSize), m, subtitleSize, box.w)
        else DrawBlock(data.subtitle, ax, SubtitleLine(box, data.titleFontSize), m, subtitleSize, box.w);
      Some(FrontText(color,
        DrawBlock(data.title, ax, TitleLine(box), m, data.titleFontSize, box.w),
        subtitle,
        DrawBlock(data.author, ax, AuthorLine(box), m, data.authorFontSize, box.w)))
  }

  /** The subtitle never moves the title or the author. */
  lemma SubtitleIndependent(data: BookData, subtitle: string, box: Rect, m: Metrics)
    ensures
      var a := FrontCoverText(data, box, m);
      var b := FrontCoverText(data.(subtitle := subtitle), box, m);
      a.Some? ==> b.Some? && a.value.title == b.value.title && a.value.author == b.value.author
  {
  }

  // ---------------------------------------------------------------------
  // add_spine_text.

  /** The spine font size: 60% of the strip width, truncated, clamped to
      8..20 points. */
  function SpineFontSize(width: int): (size: int)
    ensures 8 <= size <= 20
    ensures width >= 0 ==>
      size == if (3 * width) / 5 < 8 then 8 else if (3 * width) / 5 > 20 then 20 else (3 * width) / 5
  {
    var s := Trunc(width as real * 0.6);
    TruncSixTenths(width);
    if s < 8 then 8 else if s > 20 then 20 else s
  }

  /** `int(width * 0.6)` over the reals is `3 * width // 5`. */
  lemma TruncSixTenths(width: int)
    ensures width >= 0 ==> Trunc(width as real * 0.6) == (3 * width) / 5
  {
    if width >= 0 {
      var n := Trunc(width as real * 0.6);
      var q := (3 * width) / 5;
      assert width as real * 0.6 == (3 * width) as real / 5.0;
      assert 5 * q <= 3 * width < 5 * q + 5;
      assert (5 * n) as real <= (3 * width) as real < (5 * n + 5) as real;
    }
  }

  /** Text drawn into a transparent buffer `h` wide and `w` high, turned a
      quarter: `w` wide and `h` high. */
  function TurnedText(w: int, h: int, x: int, y: int, text: string, size: int): (p: Picture)
    ensures p.Width() == w && p.Height() == h
    ensures p.Rotated90? && p.src.Lettered? && p.src.src == Clear(h, w)
    ensures p.src.x == x && p.src.y == y && p.src.text == text && p.src.fontSize == size
  {
    var buffer := Clear(h, w);
    var lettered := Lettered(buffer, x, y, text, size);
    assert lettered.Width() == h && lettered.Height() == w;
    Rotated90(lettered)
  }

  datatype SpineText = SpineText(color: Color, fontSize: int, layer: Picture, x: int, y: int)

  /** The spine text of `add_spine_text` for the strip `strip`: drawn into
      a transparent buffer as long as the strip is high and as high as the
      strip is wide, turned a quarter, and pasted so that the turned layer
      is centred on the strip. Nothing for blank text or an unreadable
      colour. */
  function SpineLettering(data: BookData, strip: Rect, m: Metrics): (r: Option<SpineText>)
    ensures r.Some? <==> !IsBlank(data.spineText) && ParseColor(data.textColor).Some?
    ensures r.Some? ==> r.value.color == ParseColor(data.textColor).value
    ensures r.Some? ==> r.value.fontSize == SpineFontSize(strip.w)
    // the turned layer exactly covers the strip
    ensures r.Some? ==>
      r.value.layer.Width() == strip.w && r.value.layer.Height() == strip.h &&
      r.value.x == strip.x && r.value.y == strip.y
    // before the turn, the text is centred in the buffer by its own box
    ensures r.Some? ==>
      var l := r.value.layer;
      && l.Rotated90? && l.src.Lettered? && l.src.src == Clear(strip.h, strip.w)
      && l.src.text == data.spineText && l.src.fontSize == r.value.fontSize
      && 0 <= strip.h - m.textWidth(r.value.fontSize, data.spineText) - 2 * l.src.x <= 1
      && 0 <= strip.w - m.textHeight(r.value.fontSize, data.spineText) - 2 * l.src.y <= 1
  {
    if IsBlank(data.spineText) then None
    else match ParseColor(data.textColor)
    case None => None
    case Some(color) =>
      var size := SpineFontSize(strip.w);
      var textX := (strip.h - m.textWidth(size, data.spineText)) / 2;
      var textY := (strip.w - m.textHeight(size, data.spineText)) / 2;
      var turned := TurnedText(strip.w, strip.h, textX, textY, data.spineText, size);
      var pasteX := (strip.x + strip.w / 2) - turned.Width() / 2;
      var pasteY := (strip.y + strip.h / 2) - turned.Height() / 2;
      Some(SpineText(color, size, turned, pasteX, pasteY))
  }

  // ---------------------------------------------------------------------
  // add_back_cover_text.

  /** The description as drawn: its colour, font size, line pitch
      (`line_height`) and slots. */
  datatype BackText = BackText(color: Color, fontSize: int, pitch: int, slots: seq<Slot>)

  /** `add_back_cover_text` in the box `box`: nothing for a blank
      description or an unreadable colour; otherwise the description lines
      of `BackCoverLines` at `DescriptionFontSize`, each centred in the box,
      one `"Ay"` height plus four pixels apart, the block centred in the
      half of the box that starts an eighth of the way down. */
  function BackCoverText(data: BookData, box: Rect, m: Metrics): (r: Option<BackText>)
    ensures r.Some? <==> !IsBlank(data.backCoverText) && ParseColor(data.textColor).Some?
    ensures r.Some? ==> r.value.color == ParseColor(data.textColor).value
    ensures r.Some? ==> r.value.fontSize == DescriptionFontSize(data.authorFontSize)
    ensures r.Some? ==>
      && Flatten(WordsEach(SlotTexts(r.value.slots))) == Words(data.backCoverText)
      && Separated(SlotTexts(r.value.slots))
    ensures r.Some? ==> forall i :: 0 <= i < |r.value.slots| ==>
      (r.value.slots[i].drawn <==> !IsBlank(r.value.slots[i].at.text)) &&
      0 <= box.w - Measure(m, r.value.fontSize)(r.value.slots[i].at.text) - 2 * (r.value.slots[i].at.x - box.x) <= 1
    ensures r.Some? ==>
      SlotTexts(r.value.slots) == BackCoverLines(data.backCoverText, Measure(m, r.value.fontSize), box.w)
    ensures r.Some? ==> r.value.pitch == LineHeight(m, r.value.fontSize) + 4
    ensures r.Some? ==> StackedDown(r.value.slots, box.y + box.h / 8, box.h / 2, r.value.pitch)
  {
    if IsBlank(data.backCoverText) then None
    else match ParseColor(data.textColor)
    case None => None
    case Some(color) =>
      var size := DescriptionFontSize(data.authorFontSize);
      BackCoverSlotsWords(data.backCoverText, box.x, box.y, box.w, box.h, Measure(m, size), LineHeight(m, size));
      SlotsStackedDown(data.backCoverText, box.x, box.y, box.w, box.h, Measure(m, size), LineHeight(m, size));
      var ss := BackCoverSlots(data.backCoverText, box.x, box.y, box.w, box.h, Measure(m, size), LineHeight(m, size));
      Some(BackText(color, size, LineHeight(m, size) + 4, ss))
  }

  /** The description slots are the lines of `BackCoverLines`, stacked
      down from the start row with a pitch of the glyph height plus 4. */
  lemma SlotsStackedDown(text: string, x: int, y: int, width: int, height: int,
                         measure: string -> int, glyphHeight: int)
    ensures SlotTexts(BackCoverSlots(text, x, y, width, height, measure, glyphHeight))
            == BackCoverLines(text, measure, width)
    ensures StackedDown(BackCoverSlots(text, x, y, width, height, measure, glyphHeight),
                        y + height / 8, height / 2, glyphHeight + 4)
  {
    var ss := BackCoverSlots(text, x, y, width, height, measure, glyphHeight);
    assert SlotTexts(ss) == BackCoverLines(text, measure, width);
  }

  /** Slots `pitch` apart whose block is centred in the `area` rows from
      row `top` down, as `start_y` of `add_back_cover_text` computes. */
  predicate StackedDown(ss: seq<Slot>, top: int, area: int, pitch: int) {
    && (|ss| > 0 ==> ss[0].at.y == top + (area - |ss| * pitch) / 2)
    && (forall i :: 0 < i < |ss| ==> ss[i].at.y - ss[i - 1].at.y == pitch)
  }

  // ---------------------------------------------------------------------
  // generate_cover.

  /** A finished cover: the layout, the canvas with the panels pasted, and
      the text drawn on it. */
  datatype Cover = Cover(layout: Layout, canvas: Picture,
                         front: Option<FrontText>, back: Option<BackText>, spine: Option<SpineText>)

  predicate Unreadable(img: Image) {
    img.width < 1 || img.height < 1
  }

  /** `generate_cover` for a front image, an optional back image and the
      book data. It fails (returns `False` in the source) for an unknown
      trim size or an image that cannot be fitted; the text steps catch
      their own errors, so a bad colour only leaves the text out. */
  function GenerateCover(frontImage: Image, backImage: Option<Image>, data: BookData, m: Metrics): (r: Result<Cover>)
    ensures r.Err? <==>
      data.trimSize !in TrimSizes || Unreadable(frontImage) || (backImage.Some? && Unreadable(backImage.value))
    ensures r.Err? ==>
      r.error == if data.trimSize !in TrimSizes then UnsupportedTrimSize(data.trimSize) else UnreadableImage
    ensures r.Ok? ==>
      r.value.canvas.Width() == r.value.layout.widthPx && r.value.canvas.Height() == r.value.layout.heightPx
    // the layout of the book's trim and page count, with the pictures and
    // the text of `Assembled` on it
    ensures r.Ok? ==>
      && SpreadLayout(data.trimSize, data.pageCount).Ok?
      && Assembled(r.value, SpreadLayout(data.trimSize, data.pageCount).value, frontImage, backImage, data, m)
    ensures r.Ok? ==> (r.value.front.Some? <==> ParseColor(data.textColor).Some?)
    ensures r.Ok? ==>
      (r.value.back.Some? <==>
         backImage.Some? && !IsBlank(data.backCoverText) && ParseColor(data.textColor).Some?)
    ensures r.Ok? ==>
      (r.value.spine.Some? <==> !IsBlank(data.spineText) && ParseColor(data.textColor).Some?)
  {
    match SpreadLayout(data.trimSize, data.pageCount)
    case Err(e) => Err(e)
    case Ok(l) => Assemble(l, frontImage, backImage, data, m)
  }

  /** The part of `generate_cover` after the layout is known. */
  function Assemble(l: Layout, frontImage: Image, backImage: Option<Image>, data: BookData, m: Metrics): (r: Result<Cover>)
    requires l.panelWidthPx > 0 && l.panelHeightPx > 0
    ensures r.Err? <==> Unreadable(frontImage) || (backImage.Some? && Unreadable(backImage.value))
    ensures r.Err? ==> r.error == UnreadableImage
    ensures r.Ok? ==> r.value.canvas.Width() == l.widthPx && r.value.canvas.Height() == l.heightPx
    ensures r.Ok? ==> Assembled(r.value, l, frontImage, backImage, data, m)
    ensures r.Ok? ==> (r.value.front.Some? <==> ParseColor(data.textColor).Some?)
    ensures r.Ok? ==>
      (r.value.back.Some? <==>
         backImage.Some? && !IsBlank(data.backCoverText) && ParseColor(data.textColor).Some?)
  {
    var backPanel :=
      if backImage.Some? then Some(FitPanel(backImage.value, l.panelWidthPx, l.panelHeightPx)) else None;
    if backPanel.Some? && backPanel.value.Err? then Err(backPanel.value.error)
    else match FitPanel(frontImage, l.panelWidthPx, l.panelHeightPx)
    case Err(e) => Err(e)
    case Ok(frontPanel) =>
      var back := if backPanel.Some? then Some(backPanel.value.value) else None;
      Ok(Cover(l, Compose(l, back, frontPanel),
               FrontCoverText(data, l.frontText, m),
               if backImage.Some? && !IsBlank(data.backCoverText) then BackCoverText(data, l.backText, m) else None,
               SpineLettering(data, l.spine, m)))
  }

  /** What `generate_cover` puts where on the layout `l`: the front
      picture, fitted to the panel size, pasted at the front panel's
      corner; the back picture, if there is one, fitted the same way and
      pasted at the back panel's corner underneath, or else the bare white
      canvas; the front text laid out in the front text box, the
      description in the back text box (only with a back picture and a
      non-blank description), and the spine text on the spine strip. */
  ghost predicate Assembled(c: Cover, l: Layout, frontImage: Image, backImage: Option<Image>, data: BookData, m: Metrics)
    requires l.panelWidthPx > 0 && l.panelHeightPx > 0
  {
    var pw, ph := l.panelWidthPx, l.panelHeightPx;
    && c.layout == l
    && FitPanel(frontImage, pw, ph).Ok?
    && FillsRect(c.canvas, Rect(l.front.x, l.front.y, pw, ph))
    && c.canvas.layer == FitPanel(frontImage, pw, ph).value
    && (backImage.Some? ==>
          && FitPanel(backImage.value, pw, ph).Ok?
          && FillsRect(c.canvas.base, Rect(l.back.x, l.back.y, pw, ph))
          && c.canvas.base.layer == FitPanel(backImage.value, pw, ph).value
          && c.canvas.base.base == Solid(l.widthPx, l.heightPx, White))
    && (backImage.None? ==> c.canvas.base == Solid(l.widthPx, l.heightPx, White))
    && c.front == FrontCoverText(data, l.frontText, m)
    && c.back == (if backImage.Some? && !IsBlank(data.backCoverText) then BackCoverText(data, l.backText, m) else None)
    && c.spine == SpineLettering(data, l.spine, m)
  }

  /** The white canvas with the back panel, if any, and then the front
      panel pasted at their corners. */
  function Compose(l: Layout, back: Option<Picture>, front: Picture): (c: Picture)
    requires front.Width() == l.panelWidthPx && front.Height() == l.panelHeightPx
    requires back.Some? ==> back.value.Width() == l.panelWidthPx && back.value.Height() == l.panelHeightPx
    ensures c.Width() == l.widthPx && c.Height() == l.heightPx
    ensures FillsRect(c, Rect(l.front.x, l.front.y, l.panelWidthPx, l.panelHeightPx)) && c.layer == front
    ensures back.Some? ==>
      FillsRect(c.base, Rect(l.back.x, l.back.y, l.panelWidthPx, l.panelHeightPx)) && c.base.layer == back.value
    ensures back.None? ==> c.base == Solid(l.widthPx, l.heightPx, White)
    ensures back.Some? ==> c.base.base == Solid(l.widthPx, l.heightPx, White)
  {
    var blank := Solid(l.widthPx, l.heightPx, White);
    assert blank.Width() == l.widthPx && blank.Height() == l.heightPx;
    var base := if back.Some? then Pasted(blank, back.value, l.back.x, l.back.y) else blank;
    assert base.Width() == l.widthPx && base.Height() == l.heightPx;
    Pasted(base, front, l.front.x, l.front.y)
  }

  /** A picture pasted at the top-left corner of `r` with exactly the size
      of `r`. */
  predicate FillsRect(p: Picture, r: Rect) {
    p.Pasted? && p.x == r.x && p.y == r.y && p.layer.Width() == r.w && p.layer.Height() == r.h
  }

  /** Where everything lands: the fitted front picture fills the front
      panel, on top of the fitted back picture filling the back panel (or
      of the white canvas); the two panels and the spine strip lie side by
      side inside the canvas with one unpainted column before the spine;
      the turned spine text covers the spine strip; the front text is laid
      out in a box inside the front panel and the description in a box
      inside the back panel. This holds for every book `generate_cover`
      succeeds on: a catalogued trim and readable pictures. */
  lemma CoverPlacement(frontImage: Image, backImage: Option<Image>, data: BookData, m: Metrics)
    requires data.trimSize in TrimSizes
    requires !Unreadable(frontImage) && (backImage.Some? ==> !Unreadable(backImage.value))
    ensures
      var c := GenerateCover(frontImage, backImage, data, m).value;
      var l := c.layout;
      && l == SpreadLayout(data.trimSize, data.pageCount).value
      && FillsRect(c.canvas, l.front) && c.canvas.layer == FitPanel(frontImage, l.front.w, l.front.h).value
      && (backImage.Some? ==>
            && FillsRect(c.canvas.base, l.back) && c.canvas.base.layer == FitPanel(backImage.value, l.back.w, l.back.h).value
            && c.canvas.base.base == Solid(l.widthPx, l.heightPx, White))
      && (backImage.None? ==> c.canvas.base == Solid(l.widthPx, l.heightPx, White))
      && 0 < l.back.x && l.back.Right() < l.spine.x && l.spine.Right() == l.front.x
      && l.front.Right() < l.widthPx && 0 < l.front.y && l.front.Bottom() < l.heightPx
      && (c.spine.Some? ==>
            c.spine.value.x == l.spine.x && c.spine.value.y == l.spine.y &&
            c.spine.value.layer.Width() == l.spine.w && c.spine.value.layer.Height() == l.spine.h)
      && c.front == FrontCoverText(data, l.frontText, m)
      && l.front.x < l.frontText.x && l.frontText.Right() < l.front.Right()
      && l.front.y < l.frontText.y && l.frontText.Bottom() < l.front.Bottom()
      && (c.back.Some? ==> c.back == BackCoverText(data, l.backText, m))
      && l.back.x < l.backText.x && l.backText.Right() < l.back.Right()
      && l.back.y < l.backText.y && l.backText.Bottom() < l.back.Bottom()
  {
    var l := SpreadLayout(data.trimSize, data.pageCount).value;
    assert l.panelWidthPx > 0 && l.panelHeightPx > 0;
  }
}
