/** The pixel packing at the image boundary. A Java int pixel is 32 bits laid
    out as alpha, red, green, blue from the most significant byte down; here
    it is a bv32. On the masked values the channel extraction shifts, Java's
    arithmetic >> and the bit-vector's logical >> agree, as the masks clear
    the sign bit first. */
module Pixel {

  /** A grayscale level written into the red, green and blue bytes:
      (v << 16) | (v << 8) | v, wrapping at 32 bits as Java's int does. */
  function GrayPixel(v: bv32): (p: bv32)
    ensures v < 256 ==> p < 0x100_0000
  {
    (v << 16) | (v << 8) | v
  }

  /** pixel & 0xff. */
  function Blue(p: bv32): (b: bv32)
    ensures b < 256
  {
    p & 0xff
  }

  /** (pixel & 0xff00) >> 8. */
  function Green(p: bv32): (g: bv32)
    ensures g < 256
  {
    (p & 0xff00) >> 8
  }

  /** (pixel & 0xff0000) >> 16. */
  function Red(p: bv32): (r: bv32)
    ensures r < 256
  {
    (p & 0xff0000) >> 16
  }

  /** A gray level of 0 .. 255, packed and unpacked, comes back as itself in
      all three channels. */
  lemma GrayRoundTrip(v: bv32)
    requires v < 256
    ensures Red(GrayPixel(v)) == v && Green(GrayPixel(v)) == v && Blue(GrayPixel(v)) == v
  {
  }

  /** The three channels determine the low 24 bits of a pixel: extraction
      loses only the alpha byte. */
  lemma ChannelsDetermineColour(p: bv32)
    ensures (Red(p) << 16) | (Green(p) << 8) | Blue(p) == p & 0xff_ffff
  {
  }
}
