/** The channel helpers of ImageUtility: pixels and channels are Java ints (bv32), pixels packed as 0xAARRGGBB. */
module ImageUtility {
  import opened BitUtility

  /** getRed: bits 16..23 of the pixel. */
  function GetRed(pixel: bv32): (r: bv32)
    ensures r < 256
    ensures forall i :: 0 <= i < 8 ==> Bit32(r, i) == Bit32(pixel, 16 + i)
  {
    ((pixel >> 16) & 0xFF)
  }

  /** getGreen: bits 8..15 of the pixel. */
  function GetGreen(pixel: bv32): (r: bv32)
    ensures r < 256
    ensures forall i :: 0 <= i < 8 ==> Bit32(r, i) == Bit32(pixel, 8 + i)
  {
    ((pixel >> 8) & 0xFF)
  }

  /** getBlue: bits 0..7 of the pixel. */
  function GetBlue(pixel: bv32): (r: bv32)
    ensures r < 256
    ensures forall i :: 0 <= i < 8 ==> Bit32(r, i) == Bit32(pixel, i)
  {
    (pixel & 0xFF)
  }

  /** clamp: the nearest value in 0..255. */
  function Clamp(value: int): (r: int)
    ensures 0 <= r <= 255
    ensures 0 <= value <= 255 ==> r == value
    ensures value > 255 ==> r == 255
    ensures value < 0 ==> r == 0
  {
    if value > 255 then 255 else if value < 0 then 0 else value
  }

  /** clamp is idempotent. */
  lemma ClampIdempotent(value: int)
    ensures Clamp(Clamp(value)) == Clamp(value)
  {
  }
}
