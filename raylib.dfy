/**
 * The parts of raylib's pixel type that the fractal program uses: an 8-bit
 * channel and the four-channel `Color` record, plus the predefined `BLACK`.
 */
module Raylib {

  /** An `unsigned char`. */
  type byte = x: int | 0 <= x < 256

  /** raylib's `Color`: red, green, blue and alpha channels. */
  datatype Color = Color(r: byte, g: byte, b: byte, a: byte)

  /** raylib's predefined opaque black. */
  const BLACK: Color := Color(0, 0, 0, 255)

  /** Two colours agree on their red, green and blue channels. */
  predicate SameRgb(c: Color, d: Color)
  {
    c.r == d.r && c.g == d.g && c.b == d.b
  }
}
