/** Decoded raster images as the image pipeline sees them: a width, a height
    and rows of RGB pixels. Decoding and the image library itself are not
    modelled; a crop over the full width keeps a range of rows. */
module Raster {

  /** One colour channel value. */
  newtype byte = x: int | 0 <= x < 256

  datatype Pixel = Pixel(r: byte, g: byte, b: byte)

  datatype Image = Image(width: nat, height: nat, rows: seq<seq<Pixel>>)

  /** The rows agree with the declared size. */
  ghost predicate WellSized(img: Image)
  {
    && |img.rows| == img.height
    && forall y :: 0 <= y < |img.rows| ==> |img.rows[y]| == img.width
  }

  /** `img.crop((0, top, img.width, bottom))`: the full-width rows [top, bottom). */
  function Crop(img: Image, top: int, bottom: int): (c: Image)
    requires 0 <= top <= bottom <= |img.rows|
    ensures WellSized(img) ==> WellSized(c)
    ensures c.width == img.width && c.height == bottom - top && |c.rows| == c.height
    ensures forall y :: 0 <= y < c.height ==> c.rows[y] == img.rows[top + y]
  {
    Image(img.width, bottom - top, img.rows[top..bottom])
  }
}
