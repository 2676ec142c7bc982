/**
 * Where encode puts each bit of its frame and what a pixel holds afterwards.
 * The counter getNextShot hands out is inverted here: every readable bit of
 * the image that the bit range and the layers cover has exactly one counter,
 * and a cell agrees with a plan when each of its bits either carries the
 * frame bit of its counter or, if that counter has not been reached, is
 * still the cover image's bit.
 */
module Embedding {
  import opened BitUtility
  import opened Shots
  import opened Sequencer
  import opened Images

  /** A layout whose bit range lies inside a byte, over an image with one or three layers. */
  predicate Bounded(l: Layout)
  {
    l.Sound() && l.startBits + l.bitsPerLayer <= 8 && l.layers <= 3
  }

  /** Bit position `p` of `layer` is one the layout writes. */
  predicate InRange(l: Layout, layer: int, p: int)
  {
    0 <= layer < l.layers && l.startBits <= p < l.startBits + l.bitsPerLayer
  }

  /** The counter whose shot is bit `p` of `layer` of pixel (x, y): the inverse of Layout.Shot. */
  function CounterOf(l: Layout, x: int, y: int, layer: int, p: int): int
  {
    (y * l.width + x) * l.CellBits() + (layer * l.bitsPerLayer + (p - l.startBits))
  }

  /** Every shot below maxBits is hit by exactly its own counter. */
  lemma CounterOfShot(l: Layout, c: int)
    requires l.Sound() && 0 <= c < l.MaxBits()
    ensures var s := l.Shot(c);
      InRange(l, s.layer, s.bitPos) && CounterOf(l, s.x, s.y, s.layer, s.bitPos) == c
  {
    ShotInImage(l, c);
    CellOffset(l, c);
  }

  /** Every bit the layout writes in the image has a counter below maxBits, whose shot it is. */
  lemma ShotOfCounter(l: Layout, x: int, y: int, layer: int, p: int)
    requires l.Sound() && 0 <= x < l.width && 0 <= y < l.height && InRange(l, layer, p)
    ensures var c := CounterOf(l, x, y, layer, p);
      0 <= c < l.MaxBits() && l.Shot(c) == Shot(x, y, p, layer)
  {
    CounterBound(l, x, y, layer, p);
    var k, w := l.CellBits(), l.width;
    var cell, off := y * w + x, layer * l.bitsPerLayer + (p - l.startBits);
    var c := CounterOf(l, x, y, layer, p);
    ShotFields(l, c);
    DivModUnique(c, k, cell, off);
    DivModUnique(cell, w, y, x);
    DivModUnique(off, l.bitsPerLayer, layer, p - l.startBits);
  }

  /** The counter of a written bit lies below maxBits, its cell below height * width and its offset below the cell size. */
  lemma CounterBound(l: Layout, x: int, y: int, layer: int, p: int)
    requires l.Sound() && 0 <= x < l.width && 0 <= y < l.height && InRange(l, layer, p)
    ensures 0 <= layer * l.bitsPerLayer + (p - l.startBits) < l.CellBits()
    ensures 0 <= y * l.width + x
    ensures 0 <= CounterOf(l, x, y, layer, p) < l.MaxBits()
  {
    var k := l.CellBits();
    var cell, off := y * l.width + x, layer * l.bitsPerLayer + (p - l.startBits);
    OffsetBound(l, layer, p);
    CellBound(l, x, y);
    MulMonotone(0, cell, k);
    MulMonotone(cell, l.height * l.width - 1, k);
    MaxBitsCells(l);
  }

  lemma OffsetBound(l: Layout, layer: int, p: int)
    requires l.Sound() && InRange(l, layer, p)
    ensures 0 <= layer * l.bitsPerLayer + (p - l.startBits) < l.CellBits()
  {
    MulMonotone(layer, l.layers - 1, l.bitsPerLayer);
    MulMonotone(0, layer, l.bitsPerLayer);
  }

  lemma CellBound(l: Layout, x: int, y: int)
    requires l.Sound() && 0 <= x < l.width && 0 <= y < l.height
    ensures 0 <= y * l.width + x < l.height * l.width
  {
    MulMonotone(y, l.height - 1, l.width);
    MulMonotone(0, y, l.width);
  }

  /**
   * What readable bit (layer, p) of pixel (x, y) holds once the counters
   * below `n` have been written with `bits`: the frame bit of its counter,
   * or the bit of the cover value `o`.
   */
  function Expected(l: Layout, bits: seq<bool>, o: bv32, x: int, y: int, layer: int, p: int, n: int): (r: int)
    requires n <= |bits|
    ensures r == 0 || r == 1
  {
    var c := CounterOf(l, x, y, layer, p);
    if InRange(l, layer, p) && 0 <= c < n then (if bits[c] then 1 else 0)
    else PixelBit(o, l.layers, layer, p)
  }

  /** Cell value `v` of pixel (x, y), whose cover value was `o`, agrees with the plan up to counter `n`. */
  predicate CellAgrees(l: Layout, bits: seq<bool>, v: bv32, o: bv32, x: int, y: int, n: int)
    requires n <= |bits|
  {
    forall layer, p :: 0 <= layer < l.layers && 0 <= p < 8 ==>
      PixelBit(v, l.layers, layer, p) == Expected(l, bits, o, x, y, layer, p, n)
  }

  /** Before anything is written every cell agrees with the plan. */
  lemma CoverAgrees(l: Layout, bits: seq<bool>, o: bv32, x: int, y: int)
    requires 0 <= x && 0 <= y
    ensures CellAgrees(l, bits, o, o, x, y, 0)
  {
  }

  /**
   * Writing frame bit `c` at its shot with setPixelBit keeps the shot's cell
   * in agreement with the plan, now up to counter c + 1.
   */
  lemma CellStep(l: Layout, t: ImageType, bits: seq<bool>, v: bv32, o: bv32, c: int)
    requires Bounded(l) && l.layers == LayerCount(t) && 0 <= c < |bits| && c < l.MaxBits()
    requires var s := l.Shot(c); !RejectsBitArgs(t, s.layer, s.bitPos) && CellAgrees(l, bits, v, o, s.x, s.y, c)
    ensures var s := l.Shot(c);
      CellAgrees(l, bits, WithPixelBit(v, t, s.layer, s.bitPos, bits[c]), o, s.x, s.y, c + 1)
  {
    var s := l.Shot(c);
    var v' := WithPixelBit(v, t, s.layer, s.bitPos, bits[c]);
    forall layer, p | 0 <= layer < l.layers && 0 <= p < 8
      ensures PixelBit(v', l.layers, layer, p) == Expected(l, bits, o, s.x, s.y, layer, p, c + 1)
    {
      assert PixelBit(v, l.layers, layer, p) == Expected(l, bits, o, s.x, s.y, layer, p, c);
      if layer == s.layer && p == s.bitPos {
        CounterOfShot(l, c);
        SetThenGet(v, t, layer, p, bits[c]);
      } else {
        OtherBitStep(l, t, bits, v, o, c, layer, p);
      }
    }
  }

  /** Writing frame bit `c` changes no other bit of its cell, and the plan for those bits does not move. */
  lemma OtherBitStep(l: Layout, t: ImageType, bits: seq<bool>, v: bv32, o: bv32, c: int, layer: int, p: int)
    requires Bounded(l) && l.layers == LayerCount(t) && 0 <= c < |bits| && c < l.MaxBits()
    requires !RejectsBitArgs(t, l.Shot(c).layer, l.Shot(c).bitPos)
    requires 0 <= layer < l.layers && 0 <= p < 8 && (layer != l.Shot(c).layer || p != l.Shot(c).bitPos)
    ensures var s := l.Shot(c);
      PixelBit(WithPixelBit(v, t, s.layer, s.bitPos, bits[c]), l.layers, layer, p) == PixelBit(v, l.layers, layer, p) &&
      Expected(l, bits, o, s.x, s.y, layer, p, c + 1) == Expected(l, bits, o, s.x, s.y, layer, p, c)
  {
    var s := l.Shot(c);
    ShotInImage(l, c);
    SetKeepsOtherPixelBits(v, t, s.layer, s.bitPos, bits[c], layer, p);
    if InRange(l, layer, p) {
      ShotOfCounter(l, s.x, s.y, layer, p);
    }
  }

  /** Writing frame bit `c` leaves every other cell in agreement with the plan. */
  lemma OtherCellStep(l: Layout, bits: seq<bool>, v: bv32, o: bv32, x: int, y: int, c: int)
    requires Bounded(l) && 0 <= x < l.width && 0 <= y < l.height && 0 <= c < |bits| && c < l.MaxBits()
    requires (x, y) != (l.Shot(c).x, l.Shot(c).y) && CellAgrees(l, bits, v, o, x, y, c)
    ensures CellAgrees(l, bits, v, o, x, y, c + 1)
  {
    forall layer, p | 0 <= layer < l.layers && 0 <= p < 8
      ensures Expected(l, bits, o, x, y, layer, p, c + 1) == Expected(l, bits, o, x, y, layer, p, c)
    {
      if InRange(l, layer, p) {
        ShotOfCounter(l, x, y, layer, p);
      }
    }
  }

  /** In a cell that agrees with the plan up to `n`, the shot of a counter below `n` reads back its frame bit. */
  lemma ReadBack(l: Layout, bits: seq<bool>, v: bv32, o: bv32, c: int, n: int)
    requires Bounded(l) && 0 <= c < n <= |bits| && c < l.MaxBits()
    requires CellAgrees(l, bits, v, o, l.Shot(c).x, l.Shot(c).y, n)
    ensures var s := l.Shot(c); PixelBit(v, l.layers, s.layer, s.bitPos) == if bits[c] then 1 else 0
  {
    CounterOfShot(l, c);
    var s := l.Shot(c);
    assert PixelBit(v, l.layers, s.layer, s.bitPos) == Expected(l, bits, o, s.x, s.y, s.layer, s.bitPos, n);
  }
}
