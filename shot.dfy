/** Shot.java: one addressing decision of the sequencer. */
module Shots {

  /**
   * A shot on a cover image: pixel column `x`, pixel row `y`, the bit position
   * within the layer's byte and the layer. The fields are final in the source,
   * so a shot is a value; the field order is that of the four-argument constructor.
   */
  datatype Shot = Shot(x: int, y: int, bitPos: int, layer: int)

  /** The two-argument constructor: a shot at pixel (x, y) on bit position 0 of layer 0. */
  function PixelShot(x: int, y: int): (s: Shot)
    ensures s.x == x && s.y == y
    ensures s.bitPos == 0 && s.layer == 0
  {
    Shot(x, y, 0, 0)
  }
}
