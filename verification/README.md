# CoverWizard cover generator in Dafny

CoverWizard turns a front picture, an optional back picture and some book
data into a print-ready wraparound cover for a given trim size and page
count. The back panel, the spine and the front panel sit side by side on one
spread, with bleed around it. This project models the core of that
generator: the `CoverGenerator` class in `cover_generator.py`, and the upload
filter `allowed_file` in `main.py`. It states and proves what that code
guarantees.

The model has these parts:

- **Print geometry** (`Geometry`): the trim-size catalogue, the spine width,
  the cover dimensions, and the pixel layout of the spread. Inches are exact
  reals, and Python's `int()` is truncation toward zero.
- **Panel fitting** (`PanelFit`, over the symbolic pictures of `Raster`).
  This covers the sizes, branches and offsets of `extend_image_intelligently`,
  `create_blurred_background` and `simple_resize_fallback`. Resampling,
  blurring, blending and pasting are kept as terms whose pixel size is known
  but whose pixels are not computed.
- **Edge colour** (`EdgeColor`): the sample positions and the floored
  channel means of `get_dominant_edge_color`.
- **Python text semantics** (`PyText`): `isspace`, `split()`, `strip()`,
  `' '.join` and `split('\n')`.
- **Text layout** (`TextLayout`):
  - the greedy word wrap and placement of `draw_text_centered`;
  - the paragraph handling of `add_back_cover_text`.

  Text width is an uninterpreted `measure` function.
- **Text colour** (`Colour`): the `#RRGGBB` setting, read with Python's
  `int(piece, 16)`.
- **Spread assembly** (`Spread`): `generate_cover`,
  `add_front_cover_text`, `add_spine_text` and `add_back_cover_text`, with
  font metrics as parameters.
- **Upload filter** (`Upload`): `allowed_file`.

The model follows what the code computes. Some consequences:

- A 6x9 book of 200 pages gives a 12.5-inch-wide spread (3750 x 2775 px):
  two 6-inch panels, a 0.25-inch spine and 0.25 inch of bleed.
- The spine text is drawn once at its font size. There is no supersampling,
  shadow or outline pass.
- The fallback path scales the picture to cover the panel on both axes, so
  its white canvas never shows. It does not fit the picture inside the panel.
- The seam between the back panel and the spine is not closed. The bleed is
  truncated to 37 px on each side, but the canvas carries the full 75 px, so
  one unpainted column remains between the back panel and the spine. There
  is also one extra row of bleed under the panels.
- `extend_image_intelligently` crops only when the picture has exactly the
  panel's aspect ratio. Every other picture is pasted onto the blurred
  background.

## Model

| member | source | states |
|---|---|---|
| Geometry.Trunc | cover_generator.py:306-315 | Python `int()` on a float: the nearest integer toward zero |
| Geometry.Px | cover_generator.py:306-315 | `int(inches * DPI)`: for a non-negative length, the whole number of pixels that fit in it, at 300 DPI |
| Geometry.SpineWidth | cover_generator.py:42-47 | The spine is half the page count times 0.0025 in, and never less than 0.06 in |
| Geometry.SpineWidthMonotone | cover_generator.py:42-47 | More pages never give a thinner spine |
| Geometry.SpineWidthExamples | cover_generator.py:42-47 | 1 and 24 pages give 0.06 in, 200 pages 0.25 in, 800 pages 1 in |
| Geometry.CoverDimensions | cover_generator.py:49-61 | An unknown trim name is an error naming it. Otherwise the width is two panels plus spine plus 0.25 in of bleed, the height is the panel height plus 0.25 in, and the spine is `calculate_spine_width` |
| Geometry.TrimSizesAtLeastFiveInches | cover_generator.py:13-28 | Every catalogued trim is at least 5 in wide and 6 in high |
| Geometry.SpreadExceedsPanels | cover_generator.py:49-61 | The spread is strictly wider than two panels plus the spine, and strictly taller than a panel |
| Geometry.CoverDimensionsExample | cover_generator.py:49-61 | 6x9 at 200 pages is 12.5 x 9.25 in with a 0.25 in spine |
| Geometry.Inset | cover_generator.py:347-362 | A text box sits the safe margin inside its panel on all four sides |
| Geometry.SpreadLayout | cover_generator.py:296-375 | Fails exactly for an unknown trim. The canvas, panels and spine are the pixel sizes of `get_cover_dimensions` and the trim catalogue. The back panel sits at (37, 37). The panels are equal. The front panel ends one bleed strip from the edge and the spine ends at the front panel. One column is left unpainted. The text boxes are inset by 75 px. Full list below |
| Geometry.SeamGap | cover_generator.py:306-339 | For any panel and spine width, the column gap between back panel and spine is between 1 and 3 px |
| Geometry.TrimSizesWholePixels | cover_generator.py:13-37 | Every catalogued trim side is a whole number of pixels at 300 DPI |
| Geometry.SeamGapWholePanel | cover_generator.py:306-339 | For a whole-pixel panel the gap is exactly one column |
| Geometry.SpreadLayoutExample | cover_generator.py:296-343 | 6x9 at 200 pages: 3750 x 2775 canvas; back at (37,37) and 1800 x 2700; spine at x 1838, 75 wide; front at x 1913 |
| EdgeColor.Range | cover_generator.py:71 | Python `range(start, stop, step)`: the values `start + i*step` below `stop`, and no more |
| EdgeColor.Stride | cover_generator.py:71 | The sampling step `max(1, n // 20)`: 1 below 40 px, `n // 20` from 40 px up |
| EdgeColor.EdgeSamples | cover_generator.py:66-77 | At least four samples, all on the border of the image |
| EdgeColor.EdgeSamplesOrder | cover_generator.py:69-77 | Top row, bottom row, left column, right column, in that order, at multiples of the step |
| EdgeColor.SamplesIncludeCorner | cover_generator.py:69-72 | The top-left pixel is always sampled |
| EdgeColor.MinChan | cover_generator.py:79-84 | The smallest sampled channel value, attained by a sample |
| EdgeColor.MaxChan | cover_generator.py:79-84 | The largest sampled channel value, attained by a sample |
| EdgeColor.Sum | cover_generator.py:81-83 | A channel total over the samples lies between 0 and 255 per sample |
| EdgeColor.SumBounds | cover_generator.py:81-83 | The channel sum lies between count·min and count·max |
| EdgeColor.Mean | cover_generator.py:81-83 | Each channel is the floored mean of the samples, between the sample minimum and maximum |
| EdgeColor.EdgeColors | cover_generator.py:66-77 | The sampled colours are the image's pixels at the sample positions |
| EdgeColor.DominantEdgeColor | cover_generator.py:63-89 | White for an empty image; otherwise the floored mean of each channel over the edge samples |
| EdgeColor.UniformEdge | cover_generator.py:63-89 | A border of one colour gives that colour |
| EdgeColor.UniformMean | cover_generator.py:81-83 | The mean of equal samples is their common value |
| PanelFit.FillScale | cover_generator.py:144-173 | The picture is scaled to fit the panel, then the short axis is raised to 85% if needed. Both axes reach 85% of the panel. The other axis stays within the panel: a wider picture ends shorter than the panel, any other one no wider than it |
| PanelFit.FillRule | cover_generator.py:150-173 | When `new_height / target_height < 0.85` for a wider picture, the height becomes `int(target_height * 0.85)` whatever the picture, short of the panel; otherwise the size is `(target_width, new_height)`. The same holds with the axes swapped for any other picture |
| PanelFit.FillCoverage | cover_generator.py:156-161 | After the rule fires on the short axis, the long axis still covers 85% of its target |
| PanelFit.CropIffSameAspect | cover_generator.py:179-185 | The crop branch is taken iff the picture has the panel's aspect ratio, and then the scaled size is the panel size |
| PanelFit.CoverScale | cover_generator.py:96-109 | The background scale covers the panel on both axes and matches it on one |
| PanelFit.FallbackScale | cover_generator.py:204-213 | The fallback scale also covers the panel on both axes |
| PanelFit.CenterOffset | cover_generator.py:115-116 | `(a - b) // 2` centres `b` in `a`, with the odd pixel after it |
| PanelFit.BlurredBackground | cover_generator.py:91-132 | The background is exactly panel-sized |
| PanelFit.BackgroundCropInside | cover_generator.py:111-120 | The background's crop box lies inside the scaled picture and is centred in it |
| PanelFit.Fallback | cover_generator.py:202-223 | The fallback panel is exactly panel-sized |
| PanelFit.FallbackCoversPanel | cover_generator.py:202-223 | The pasted picture covers the whole white panel (offsets are not positive, and the picture reaches the far edges) |
| PanelFit.FitPanel | cover_generator.py:140-240 | An image with no pixels is an error. Any other image becomes a panel of exactly the target size |
| PanelFit.Place | cover_generator.py:175-195 | The crop or the paste onto the background, exactly panel-sized |
| PanelFit.SameAspectIsPlainResize | cover_generator.py:150-185 | A picture with the panel's aspect ratio is resized to the panel and cropped at (0, 0) |
| PanelFit.OtherAspectIsCentredOnBackground | cover_generator.py:186-195 | Any other picture is pasted, centred, onto the blurred background |
| PanelFit.FillScaleIsSource | cover_generator.py:144-173 | The integer fill computation equals the source's real-valued one, branch for branch, including the boosted size `int(side * 0.85 * target / other side)` of both axes |
| PanelFit.CoverScaleIsSource | cover_generator.py:96-109 | The integer cover computation equals the source's real-valued one |
| PanelFit.FallbackScaleIsSource | cover_generator.py:204-213 | The integer fallback computation equals the source's real-valued one |
| PanelFit.RatioGreater | cover_generator.py:144-150 | `img_ratio > target_ratio` is the cross-multiplied comparison |
| PanelFit.FillTest | cover_generator.py:157-158 | `new / target < 0.85` is `100·new < 85·target` |
| PyText.Strip | cover_generator.py:496 | `strip()` is a slice of the text with only whitespace before and after it. It is empty iff the text is blank, and otherwise starts and ends with non-space |
| PyText.SplitLines | cover_generator.py:515 | `split('\n')` gives at least one piece, no piece holds a newline, and joining them gives the text back |
| PyText.Words | cover_generator.py:256-262 | `split()` gives only non-empty pieces without whitespace, and none iff the text is blank |
| PyText.JoinWords | cover_generator.py:267 | `' '.join(words)` ends with the last word, after a space when there are several |
| PyText.WordsOfJoin | cover_generator.py:264-278 | Splitting `' '.join(words)` gives the words back |
| PyText.WordsOfStrip | cover_generator.py:496 | Stripping keeps the words |
| PyText.WordsOfLines | cover_generator.py:515-522 | The words of the lines are the words of the text |
| TextLayout.WrapGroups | cover_generator.py:261-278 | The greedy wrap keeps every word in order, and every line is non-empty |
| TextLayout.WrapFits | cover_generator.py:264-278 | Every line of two or more words fits the width |
| TextLayout.WrapBreaksForced | cover_generator.py:264-278 | A line is only broken when adding the next word would exceed the width |
| TextLayout.WrapKeepsWords | cover_generator.py:261-278 | Every line is a run of words |
| TextLayout.OverWideWordAlone | cover_generator.py:270-275 | A word wider than the width gets a line of its own |
| TextLayout.WrapTextWords | cover_generator.py:261-278 | Splitting the wrapped lines gives `text.split()` |
| TextLayout.WrapText | cover_generator.py:256-280 | Wrapped lines exist iff the text is not blank, and none is blank |
| TextLayout.StackCentered | cover_generator.py:286-294 | Each line is centred on the anchor by its own width, and the lines are one line height apart |
| TextLayout.DrawTextCentered | cover_generator.py:254-294 | Blank text draws nothing. Otherwise every line is centred on the anchor column, the stack is centred on the anchor row, and the pitch is the line height |
| TextLayout.DrawTextCenteredWraps | cover_generator.py:260-294 | With a width, the drawn line texts are exactly the wrapped lines, and their words are the greedy wrap of `text.split()`, each multi-word line fitting and every break forced |
| TextLayout.DescriptionFontSize | cover_generator.py:507 | The description font is 4 pt below the author's, but never below 12 |
| TextLayout.Blocks | cover_generator.py:518-541 | Blank paragraphs give no block, and each block has non-blank lines |
| TextLayout.ParagraphLines | cover_generator.py:518-541 | The paragraph loop gives lines iff some paragraph is not blank; they then start with a non-blank line and end with a non-blank line and one empty line |
| TextLayout.BackCoverLines | cover_generator.py:496-545 | After the trailing empty line is popped, the description starts and ends with a non-blank line |
| TextLayout.ParagraphLinesBlocks | cover_generator.py:515-541 | The paragraph loop emits every block followed by one empty line |
| TextLayout.BackCoverLinesAreJoinedBlocks | cover_generator.py:496-545 | The description lines are the blocks joined by single empty lines |
| TextLayout.JoinBlocksSeparated | cover_generator.py:518-545 | Joined blocks never start or end with a blank line, and never have two in a row |
| TextLayout.BackCoverLinesSeparated | cover_generator.py:515-545 | The description never starts or ends with an empty line, and never has two in a row |
| TextLayout.ParagraphLinesWords | cover_generator.py:518-541 | The paragraph loop keeps every word in order |
| TextLayout.BackCoverLinesWords | cover_generator.py:496-545 | The description lines hold exactly `text.split()` |
| TextLayout.StackInBox | cover_generator.py:554-564 | Each description line is centred in the box, with the given pitch, and only non-blank lines are drawn |
| TextLayout.BackCoverSlots | cover_generator.py:493-564 | Blank text gives no lines. Otherwise the block of `len(lines)·(h+4)` is centred in the half of the box that starts an eighth of the way down, and lines are `h+4` apart |
| TextLayout.BackCoverSlotsWords | cover_generator.py:493-564 | The slots hold the words of the description, and are separated |
| Colour.ParseFormatColor | cover_generator.py:397-400 | Formatting a colour as `#rrggbb` and parsing it gives the colour back |
| Colour.ParseColorWithoutHash | cover_generator.py:398-400 | The `#` is optional |
| Colour.ParseHex | cover_generator.py:400 | `int(piece, 16)` raises on a blank piece |
| Colour.ParseHexShort | cover_generator.py:400 | A piece of at most two characters converts to a value in -15..255 |
| Colour.ParseColor | cover_generator.py:397-400 | A parsed colour has every component in -15..255 (for example `-f` gives -15) |
| Colour.ParseColorIgnoresTail | cover_generator.py:400 | Anything after the sixth digit is ignored |
| Colour.ShortSettingFails | cover_generator.py:400 | Fewer than five characters after the `#` never parse |
| Colour.FiveDigits | cover_generator.py:400 | Five digits still parse, and the fifth digit alone is the blue component |
| Colour.DoubleHash | cover_generator.py:398-400 | Only one `#` is dropped, so `##...` never parses |
| Spread.CentreColumn | cover_generator.py:411 | Front text is centred on the middle column of the box |
| Spread.TitleLine | cover_generator.py:403 | The title is centred on the line a quarter of the way down the box |
| Spread.AuthorLine | cover_generator.py:405 | The author is as far above the bottom as the title is below the top |
| Spread.SubtitleLine | cover_generator.py:404 | The subtitle is 1.5 title font sizes, truncated, below the title |
| Spread.FrontCoverText | cover_generator.py:393-433 | A bad colour draws nothing. Otherwise title, subtitle (at half size) and author are each drawn as the greedy wrap of their text to the box width, centred on their lines |
| Spread.SubtitleIndependent | cover_generator.py:403-430 | Changing the subtitle never moves the title or the author |
| Spread.SpineFontSize | cover_generator.py:442 | The spine font is `3·w // 5` clamped to 8..20, and always within 8..20 |
| Spread.TurnedText | cover_generator.py:452-468 | The buffer is as wide as the strip is high, and the quarter turn restores the strip's shape |
| Spread.SpineLettering | cover_generator.py:435-491 | Blank text or a bad colour draws nothing. Otherwise the text is centred in the buffer, and the turned buffer is pasted exactly over the spine strip |
| Spread.BackCoverText | cover_generator.py:493-567 | Blank text or a bad colour draws nothing. Otherwise the slots are the description's lines, holding its words in order, each centred in the box, with empty lines only between paragraphs. The pitch is the `"Ay"` height plus 4, and the block of lines starts at `y + h//8 + (h//2 - n*pitch)//2` |
| Spread.GenerateCover | cover_generator.py:296-391 | Fails iff the trim is unknown or an image is unreadable, with the matching error. Otherwise the cover is built on the layout of the book's trim and page count. Each picture is fitted to the panel size and pasted at its panel's corner, all on a white canvas. The front, description and spine texts are those of the three text steps in the layout's boxes. The front text depends only on the colour, the back text needs a back image, and the spine text needs spine text |
| Spread.Assemble | cover_generator.py:316-375 | Fails iff a picture is unreadable. Otherwise the canvas has the layout's size. The fitted front picture fills the front panel and the fitted back picture, only when given, fills the back panel underneath. The texts are those of `add_front_cover_text`, `add_back_cover_text` and `add_spine_text` for the layout's boxes |
| Spread.Compose | cover_generator.py:316-343 | The canvas is a white picture of the layout's size, with the back panel (when given) pasted on it first and the front panel on top |
| Spread.CoverPlacement | cover_generator.py:316-375 | On the book's layout, the fitted front picture fills the front panel and the fitted back picture, if any, the back panel, on a white canvas. Back panel, gap, spine and front panel lie side by side inside the canvas. The spine lettering covers the spine strip. The front text and the description are drawn for text boxes strictly inside their panels |
| Upload.AfterLastDot | main.py:40-41 | `rsplit('.', 1)[1]`, asked for only once `'.' in filename` holds: the dot-free suffix after the last dot |
| Upload.AllowedFile | main.py:38-41 | An accepted name ends in a dot and an extension of three or four characters |
| Upload.AllowedFileIff | main.py:38-41 | A name is accepted iff it is `name.ext` with a dot-free `ext` whose lower case is an allowed extension |
| Upload.AfterLastDotAppend | main.py:41 | The extension of `name.ext` is `ext` |
| Upload.LastExtensionCounts | main.py:40-41 | `x.png.exe` is refused and `x.exe.png` is accepted |
| Upload.CaseInsensitive | main.py:24-41 | Upper-casing the name does not change the answer |
| Upload.NeedsExtension | main.py:40-41 | A name without a dot, or ending in one, is refused |

`Geometry.SpreadLayout` states the following:

- The bleed is 37 px and the safe margin 75 px.
- The back panel sits at (bleed, bleed).
- Both panels have the same size.
- The front panel ends one bleed strip before the canvas edge.
- The spine ends where the front panel starts.
- There is one unpainted column between the back panel and the spine.
- There is one extra bleed row below the panels.
- Panels are at least 1500 x 1800 px.
- The text boxes are the panels inset by the safe margin.

## Left out

- Pixel work is not modelled: LANCZOS resampling, Gaussian blur, blending,
  rotation and pasting are opaque terms that carry only their size.
- Decoding and mode conversion in `load_and_resize_image` are not modelled:
  a decoded image is given. An image that cannot be opened is one without
  pixels.
- Fonts are not modelled: `get_font`'s search for a font file and all glyph
  metrics are the `Metrics` and `measure` parameters.
- The PNG save, the PDF export (`create_pdf`), the temporary file and
  logging are I/O.
- IEEE floating point is not modelled: all inch and ratio arithmetic is
  exact. With floats the back-panel/spine gap is 0 instead of 1 for a few
  page counts. For example, 8x10 at 64 pages gives a total width of
  4898 px rather than 4899.
- Python `int(piece, 16)` also accepts non-ASCII Unicode decimal digits.
  The model reads ASCII hex digits only.
- PIL's treatment of colour components outside 0..255 (`ParseColor`
  shows they can reach the drawing calls) is not modelled.
- `str.lower()` is modelled on ASCII capitals only. No other character
  lowers to a string that could be an allowed extension, so `allowed_file`'s
  answer is unchanged.
- The rest of `main.py` (Flask routes, uploads, `secure_filename`, cleanup,
  error handlers) and `wsgi.py` are web plumbing.
- Exceptions other than the ones modelled (an unknown trim, an unreadable
  image, a bad colour) are not modelled. That includes a missing `book_data`
  key.
- PanelFit.FitPanel: requires a positive panel size. The only caller passes
  catalogued panel sizes, which `SpreadLayout` shows are at least
  1500 x 1800 px.
- The solid-colour except-branch of `create_blurred_background` is not
  modelled: it is reached only when PIL raises, which is not modelled.
  Likewise the
  `(255, 255, 255)` except-branch of `get_dominant_edge_color` is modelled
  only for an image with no pixels.
