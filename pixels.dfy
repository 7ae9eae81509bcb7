/**
 RGB888 to RGB565 packing (rgb8_to_rgb565_pixel) and the optional byte swap of a
 16-bit pixel applied before it is stored in the framebuffer.
 */
module Pixels {
  import opened Markers

  type Pixel = bv16

  /** Red in bits 15..11, green in bits 10..5, blue in bits 4..0, each channel keeping
      its most significant bits. */
  function Rgb565(r: Byte, g: Byte, b: Byte): (p: Pixel)
    ensures p >> 11 == (r >> 3) as Pixel
    ensures (p >> 5) & 0x3F == (g >> 2) as Pixel
    ensures p & 0x1F == (b >> 3) as Pixel
  {
    ((r >> 3) as Pixel << 11) | ((g >> 2) as Pixel << 5) | (b >> 3) as Pixel
  }

  /** The three fields of a 565 pixel, widened back to 8-bit channels (low bits zero). */
  function Red(p: Pixel): (r: Byte)
    ensures r & 0x07 == 0
  {
    ((p >> 11) << 3) as Byte
  }

  function Green(p: Pixel): (g: Byte)
    ensures g & 0x03 == 0
  {
    (((p >> 5) & 0x3F) << 2) as Byte
  }

  function Blue(p: Pixel): (b: Byte)
    ensures b & 0x07 == 0
  {
    ((p & 0x1F) << 3) as Byte
  }

  /** Packing keeps the top 5, 6 and 5 bits of the channels and nothing else. */
  lemma Rgb565Fields(r: Byte, g: Byte, b: Byte)
    ensures Red(Rgb565(r, g, b)) == r & 0xF8
    ensures Green(Rgb565(r, g, b)) == g & 0xFC
    ensures Blue(Rgb565(r, g, b)) == b & 0xF8
  {
  }

  /** Every 16-bit value is the packing of its own fields. */
  lemma Rgb565OfFields(p: Pixel)
    ensures Rgb565(Red(p), Green(p), Blue(p)) == p
  {
  }

  /** `(u16)((pix >> 8) | (pix << 8))`: the two bytes exchanged. */
  function Swap16(p: Pixel): (q: Pixel)
    ensures q >> 8 == p & 0xFF
    ensures q & 0xFF == p >> 8
  {
    (p >> 8) | (p << 8)
  }

  lemma Swap16Involution(p: Pixel)
    ensures Swap16(Swap16(p)) == p
  {
  }

  /** The pixel stored for an RGB triple, swapped when swap_bytes is set. */
  function StoredPixel(r: Byte, g: Byte, b: Byte, swap: bool): (p: Pixel)
    ensures swap ==> Swap16(p) == Rgb565(r, g, b)
    ensures !swap ==> p == Rgb565(r, g, b)
  {
    var pix := Rgb565(r, g, b);
    Swap16Involution(pix);
    if swap then Swap16(pix) else pix
  }
}
