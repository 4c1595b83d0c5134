/** The RGBA pixel buffers of the `image` crate, and the one `imageproc` call the
    icon renderer makes on them (`draw_text_mut`).  A buffer is an `array2<Rgba>`
    indexed `[x, y]`: `Length0` is the width and `Length1` the height. */
module Image {

  /** An 8-bit channel (`u8`). */
  type Byte = b: int | 0 <= b < 256

  /** One `Rgba<u8>` pixel. */
  datatype Rgba = Rgba(r: Byte, g: Byte, b: Byte, a: Byte)
  {
    predicate IsOpaque() { a == 255 }
  }

  const TRANSPARENT := Rgba(0, 0, 0, 0)
  const OPAQUE_BLACK := Rgba(0, 0, 0, 255)
  const WHITE := Rgba(255, 255, 255, 255)

  /** `ImageBuffer::from_pixel(width, height, pixel)`: a fresh buffer of the given
      size with every pixel set to `pixel`. */
  method FromPixel(width: nat, height: nat, pixel: Rgba) returns (img: array2<Rgba>)
    ensures fresh(img)
    ensures img.Length0 == width && img.Length1 == height
    ensures forall x, y :: 0 <= x < width && 0 <= y < height ==> img[x, y] == pixel
  {
    img := new Rgba[width, height]((x, y) => pixel);
  }

  /** The arguments of one `draw_text_mut` call (the font is the renderer's one
      embedded font, so it is not a parameter here). */
  datatype TextDraw = TextDraw(colour: Rgba, x: int, y: int, size: real, text: string)

  /** The glyph rasteriser, which is foreign code: the pixel found at `(x, y)`
      after drawing `draw` over a pixel that held `under`.  Coverage and blending
      are whatever the rasteriser does; the model knows only that the result at a
      pixel depends on the draw, on that pixel's previous value and on its place. */
  type Rasteriser = (TextDraw, Rgba, int, int) -> Rgba

  /** `draw_text_mut(&mut img, colour, x, y, scale, &font, text)`: every pixel of
      `img` becomes what the rasteriser makes of it, all at once. */
  method DrawText(img: array2<Rgba>, draw: TextDraw, raster: Rasteriser)
    modifies img
    ensures forall x, y :: 0 <= x < img.Length0 && 0 <= y < img.Length1 ==>
      img[x, y] == raster(draw, old(img[x, y]), x, y)
  {
    forall x, y | 0 <= x < img.Length0 && 0 <= y < img.Length1 {
      img[x, y] := raster(draw, img[x, y], x, y);
    }
  }
}
