/**
 The pixel of a `ppm_image`: three eight-bit colour channels. The channel
 fields are stored as unsigned bytes, so every channel value is in [0, 255].
 */
module Pixels {

  /** One colour channel, an unsigned byte. */
  type Channel = c: int | 0 <= c <= 255

  /** The largest channel value; also the maximum value written by `save`. */
  const MaxChannel: Channel := 255

  datatype Pixel = Pixel(r: Channel, g: Channel, b: Channel)

  /** The colour `create_data` fills a fresh image with. */
  const White: Pixel := Pixel(MaxChannel, MaxChannel, MaxChannel)

  /** A pixel whose three channels agree. */
  predicate IsGray(p: Pixel) {
    p.r == p.g == p.b
  }

  /** The per-pixel step of `invert`: every channel becomes its complement. */
  function InvertPixel(p: Pixel): (q: Pixel)
    ensures q.r + p.r == MaxChannel && q.g + p.g == MaxChannel && q.b + p.b == MaxChannel
  {
    Pixel(MaxChannel - p.r, MaxChannel - p.g, MaxChannel - p.b)
  }

  /** The per-pixel step of `grayscale`: all three channels take the luminance
      `luma` computes from the original pixel. */
  function GrayPixel(luma: Pixel -> Channel, p: Pixel): (q: Pixel)
    ensures IsGray(q) && q.r == luma(p)
  {
    var y := luma(p);
    Pixel(y, y, y)
  }
}
