/** Images as the cover generator sees them. A decoded picture is a grid of
    RGB pixels; everything the imaging library does to it (resampling,
    cropping, blurring, blending, pasting, rotating) is kept as a symbolic
    term whose pixel size is known but whose pixels are not computed. */
module Raster {

  /** One 8-bit colour channel. */
  type Channel = c: int | 0 <= c <= 255

  datatype Rgb = Rgb(r: Channel, g: Channel, b: Channel)

  const White: Rgb := Rgb(255, 255, 255)

  /** A decoded RGB image: its size and its pixel at column `x`, row `y`
      (meaningful for `0 <= x < width` and `0 <= y < height`). */
  datatype Image = Image(width: int, height: int, pixel: (int, int) -> Rgb)

  /** An image operation as a term. Sizes follow the imaging library:
      a resize has the requested size, a crop box `(left, top, right,
      bottom)` has size `(right - left, bottom - top)`, blur keeps the size,
      a blend and a paste keep the size of their first operand, text drawn
      onto a picture keeps its size, and a quarter turn with expansion swaps
      width and height. `Clear` is a fully transparent RGBA canvas. */
  datatype Picture =
    | Decoded(img: Image)
    | Solid(w: int, h: int, color: Rgb)
    | Resized(src: Picture, w: int, h: int)
    | Cropped(src: Picture, left: int, top: int, right: int, bottom: int)
    | Blurred(src: Picture, radius: int)
    | Blended(base: Picture, over: Picture, alpha: real)
    | Pasted(base: Picture, layer: Picture, x: int, y: int)
    | Rotated90(src: Picture)
    | Clear(w: int, h: int)
    | Lettered(src: Picture, x: int, y: int, text: string, fontSize: int)
  {
    function Width(): int
    {
      match this
      case Decoded(img) => img.width
      case Solid(w, _, _) => w
      case Resized(_, w, _) => w
      case Cropped(_, left, _, right, _) => right - left
      case Blurred(src, _) => src.Width()
      case Blended(base, _, _) => base.Width()
      case Pasted(base, _, _, _) => base.Width()
      case Rotated90(src) => src.Height()
      case Clear(w, _) => w
      case Lettered(src, _, _, _, _) => src.Width()
    }

    function Height(): int
    {
      match this
      case Decoded(img) => img.height
      case Solid(_, h, _) => h
      case Resized(_, _, h) => h
      case Cropped(_, _, top, _, bottom) => bottom - top
      case Blurred(src, _) => src.Height()
      case Blended(base, _, _) => base.Height()
      case Pasted(base, _, _, _) => base.Height()
      case Rotated90(src) => src.Width()
      case Clear(_, h) => h
      case Lettered(src, _, _, _, _) => src.Height()
    }
  }
}
