/**
 * LsbImpl: the LSB codec. encode writes a 32-bit size prefix and then the
 * message bits, one bit per shot, into bit positions startbits..endbits of
 * every layer of every pixel, cell by cell and row by row; decode reads the
 * prefix back, checks it and collects the message bits with setNext.
 * LsbEncoder and LsbDecoder carry the same encode, decode and getNextShot.
 */
module Lsb {
  import opened BitUtility
  import opened Outcomes
  import opened Shots
  import opened Sequencer
  import opened Images
  import opened Messages
  import opened Frame
  import opened Embedding

  /** The layout encode and decode derive from an image and a bit range. */
  function LayoutFor(img: StegoImage, startbits: int, endbits: int): Layout
  {
    Layout(startbits, endbits - startbits + 1, img.layers, img.pixels.Length0, img.pixels.Length1)
  }

  /** A bit range both encode and decode accept. */
  predicate RangeOk(startbits: int, endbits: int)
  {
    0 <= startbits <= endbits <= 7
  }

  /** The bits encode writes, counter by counter: the size prefix, then the message from reading position `b0` on. */
  function FrameBits(bytes: seq<bv8>, b0: nat): (r: seq<bool>)
    requires b0 <= 8 * |bytes|
    ensures |r| == 32 + 8 * |bytes| - b0
  {
    SizePrefix(|bytes|) + seq(8 * |bytes| - b0, t requires 0 <= t < 8 * |bytes| - b0 => MessageBit(bytes, b0 + t))
  }

  /** The grid of cell values of an image. */
  ghost function Cells(a: array2<bv32>): (g: seq<seq<bv32>>)
    reads a
    ensures Shape(g, a.Length0, a.Length1)
    ensures forall x, y :: 0 <= x < a.Length0 && 0 <= y < a.Length1 ==> g[x][y] == a[x, y]
  {
    seq(a.Length0, x requires 0 <= x < a.Length0 reads a =>
      seq(a.Length1, y requires 0 <= y < a.Length1 reads a => a[x, y]))
  }

  ghost predicate Shape(g: seq<seq<bv32>>, width: int, height: int)
  {
    |g| == width && forall x :: 0 <= x < width ==> |g[x]| == height
  }

  /** Every cell of `pixels` agrees with the plan up to counter `n`, against the cover grid `orig`. */
  ghost predicate Agrees(pixels: array2<bv32>, l: Layout, bits: seq<bool>, orig: seq<seq<bv32>>, n: int)
    reads pixels
    requires n <= |bits| && Shape(orig, pixels.Length0, pixels.Length1)
  {
    forall x, y :: 0 <= x < pixels.Length0 && 0 <= y < pixels.Length1 ==>
      CellAgrees(l, bits, pixels[x, y], orig[x][y], x, y, n)
  }

  /** Every cell keeps the part getPixelBit never reads as CellKept describes it, against the cover grid `orig`. */
  ghost predicate Kept(pixels: array2<bv32>, t: ImageType, orig: seq<seq<bv32>>)
    reads pixels
    requires Shape(orig, pixels.Length0, pixels.Length1)
  {
    forall x, y :: 0 <= x < pixels.Length0 && 0 <= y < pixels.Length1 ==> CellKept(t, pixels[x, y], orig[x][y])
  }

  /** The bit getPixelBit returns at the shot of counter `c`. */
  ghost function ShotBit(pixels: array2<bv32>, l: Layout, c: int): bool
    reads pixels
    requires Bounded(l) && l.width == pixels.Length0 && l.height == pixels.Length1 && 0 <= c < l.MaxBits()
  {
    ShotInImage(l, c);
    var s := l.Shot(c);
    PixelBit(pixels[s.x, s.y], l.layers, s.layer, s.bitPos) == 1
  }

  /** The bits at the shots of counters from .. from + n - 1. */
  ghost function ReadBits(pixels: array2<bv32>, l: Layout, from: nat, n: nat): (r: seq<bool>)
    reads pixels
    requires Bounded(l) && l.width == pixels.Length0 && l.height == pixels.Length1 && from + n <= l.MaxBits()
    ensures |r| == n
  {
    seq(n, t requires 0 <= t < n reads pixels => ShotBit(pixels, l, from + t))
  }

  /** The size decode recovers: the first 32 shot bits shifted in, then reversed, as a Java int. */
  ghost function RecoveredSize(pixels: array2<bv32>, l: Layout): int
    reads pixels
    requires Bounded(l) && l.width == pixels.Length0 && l.height == pixels.Length1 && 32 <= l.MaxBits()
  {
    JavaInt(ShiftIn(LowFirst(ShiftIn(ReadBits(pixels, l, 0, 32)))))
  }

  /** In an image that agrees with the plan up to `n`, the shots of counters below `n` read back the planned bits. */
  lemma ReadBitsAgree(pixels: array2<bv32>, l: Layout, bits: seq<bool>, orig: seq<seq<bv32>>, from: nat, m: nat, n: int)
    requires Bounded(l) && l.width == pixels.Length0 && l.height == pixels.Length1
    requires Shape(orig, pixels.Length0, pixels.Length1) && from + m <= n <= |bits| && n <= l.MaxBits()
    requires Agrees(pixels, l, bits, orig, n)
    ensures ReadBits(pixels, l, from, m) == bits[from..from + m]
  {
    forall t | 0 <= t < m
      ensures ReadBits(pixels, l, from, m)[t] == bits[from + t]
    {
      ShotBitAgrees(pixels, l, bits, orig, from + t, n);
    }
  }

  /** The shot of a counter below `n` reads back its planned bit. */
  lemma ShotBitAgrees(pixels: array2<bv32>, l: Layout, bits: seq<bool>, orig: seq<seq<bv32>>, c: int, n: int)
    requires Bounded(l) && l.width == pixels.Length0 && l.height == pixels.Length1
    requires Shape(orig, pixels.Length0, pixels.Length1) && 0 <= c < n <= |bits| && n <= l.MaxBits()
    requires Agrees(pixels, l, bits, orig, n)
    ensures ShotBit(pixels, l, c) == bits[c]
  {
    ShotInImage(l, c);
    var s := l.Shot(c);
    assert CellAgrees(l, bits, pixels[s.x, s.y], orig[s.x][s.y], s.x, s.y, n);
    ReadBack(l, bits, pixels[s.x, s.y], orig[s.x][s.y], c, n);
  }

  /**
   * An image holding the whole frame of `bytes` gives decode back the size
   * and, byte by byte, the bytes themselves.
   */
  lemma FrameReadBack(pixels: array2<bv32>, l: Layout, bytes: seq<bv8>, orig: seq<seq<bv32>>)
    requires Bounded(l) && l.width == pixels.Length0 && l.height == pixels.Length1
    requires Shape(orig, pixels.Length0, pixels.Length1)
    requires 8 * |bytes| + 32 <= l.MaxBits() && 8 * |bytes| + 32 < 0x8000_0000
    requires Agrees(pixels, l, FrameBits(bytes, 0), orig, 32 + 8 * |bytes|)
    ensures RecoveredSize(pixels, l) == |bytes| && !SizeRejected(|bytes|, l.MaxBits())
    ensures forall i :: 0 <= i < |bytes| ==> PackByte(ReadBits(pixels, l, 32, 8 * |bytes|), i) == bytes[i]
  {
    var bits := FrameBits(bytes, 0);
    var n := 32 + 8 * |bytes|;
    ReadBitsAgree(pixels, l, bits, orig, 0, 32, n);
    assert bits[0..32] == SizePrefix(|bytes|);
    SizeRoundTrip(|bytes|);
    var rest := ReadBits(pixels, l, 32, 8 * |bytes|);
    ReadBitsAgree(pixels, l, bits, orig, 32, 8 * |bytes|, n);
    forall i | 0 <= i < |bytes|
      ensures PackByte(rest, i) == bytes[i]
    {
      forall j | 8 * i <= j < 8 * i + 8
        ensures rest[j] == MessageBit(bytes, j)
      {
        assert rest[j] == bits[32 + j];
      }
      PackMessageBits(bytes, rest, i);
    }
  }

  /** A layout with a positive capacity is bounded and has nonempty cells. */
  lemma Capacity(l: Layout)
    requires 0 <= l.startBits && 1 <= l.bitsPerLayer && l.startBits + l.bitsPerLayer <= 8
    requires 0 <= l.layers <= 3 && 0 <= l.width && 0 <= l.height
    ensures l.MaxBits() > 0 ==> Bounded(l) && l.CellBits() > 0
    ensures l.MaxBits() >= 0
  {
    var hw := l.height * l.width;
    MulMonotone(0, l.height, l.width);
    MulMonotone(0, hw, l.bitsPerLayer);
    MulMonotone(0, hw * l.bitsPerLayer, l.layers);
    MulMonotone(1, l.bitsPerLayer, l.layers);
    if l.width == 0 || l.height == 0 || l.layers == 0 {
      assert hw * l.bitsPerLayer * l.layers == 0;
    }
  }

  /** With fewer than 2^26 pixels maxBits stays below 2^31 - 32, so decode's int sums and products over it do not wrap. */
  lemma MaxBitsBelow(l: Layout)
    requires 1 <= l.bitsPerLayer <= 8 && 0 <= l.layers <= 3 && 0 <= l.width && 0 <= l.height
    requires l.width * l.height < 0x400_0000
    ensures l.MaxBits() < 0x7FFF_FFE0
  {
    var hw := l.height * l.width;
    assert hw == l.width * l.height && 0 <= hw;
    MulMonotone(l.bitsPerLayer, 8, hw);
    assert 0 <= hw * l.bitsPerLayer <= hw * 8;
    MulMonotone(l.layers, 3, hw * l.bitsPerLayer);
  }

  /** One more shot read extends the bits read by its bit. */
  lemma ReadBitsStep(pixels: array2<bv32>, l: Layout, from: nat, n: nat)
    requires Bounded(l) && l.width == pixels.Length0 && l.height == pixels.Length1 && from + n < l.MaxBits()
    ensures ReadBits(pixels, l, from, n + 1) == ReadBits(pixels, l, from, n) + [ShotBit(pixels, l, from + n)]
  {
  }

  /** decode's second capacity product takes its factors in another order. */
  lemma ProductOrder(w: int, h: int, a: int, b: int)
    ensures w * h * a * b == h * w * b * a
  {
    assert w * h == h * w;
    assert (h * w) * a * b == (h * w) * (a * b);
    assert a * b == b * a;
    assert (h * w) * (b * a) == h * w * b * a;
  }

  /** A 15/16-bit packed image with a bit range reaching past bit 4, which setPixelBit cannot serve in full. */
  predicate PackedOverflow(t: ImageType, l: Layout)
  {
    IsPacked16(t) && l.startBits + l.bitsPerLayer > 5
  }

  /** The first counter whose shot lands above bit 4: bit 5 of layer 0, or bit startBits if that is already above 4. */
  function FirstRejected(l: Layout): (c: int)
    requires 0 <= l.startBits
    ensures 0 <= c <= 5
  {
    if l.startBits >= 5 then 0 else 5 - l.startBits
  }

  /** The counters of the first cell below bitsPerLayer address layer 0, bit startBits + c. */
  lemma FirstLayerShot(l: Layout, c: int)
    requires l.Sound() && 0 <= c < l.bitsPerLayer && c < l.MaxBits()
    ensures l.Shot(c).layer == 0 && l.Shot(c).bitPos == l.startBits + c
  {
    ShotFields(l, c);
    MulMonotone(1, l.layers, l.bitsPerLayer);
    DivModUnique(c, l.CellBits(), 0, c);
    DivModUnique(c, l.bitsPerLayer, 0, c);
  }

  /**
   * Where setPixelBit rejects the shot of counter `c`: at FirstRejected on an
   * overflowing packed image, and nowhere before it or without overflow.
   */
  lemma Rejection(l: Layout, t: ImageType, c: int)
    requires Bounded(l) && l.layers == LayerCount(t) && 0 <= c < l.MaxBits()
    ensures PackedOverflow(t, l) && c == FirstRejected(l) ==> IsPacked16(t) && l.Shot(c).bitPos > 4
    ensures !(PackedOverflow(t, l) && c >= FirstRejected(l)) ==> !(IsPacked16(t) && l.Shot(c).bitPos > 4)
  {
    RejectedShot(l, t, c);
    if PackedOverflow(t, l) && c <= FirstRejected(l) {
      FirstLayerShot(l, c);
    }
  }

  /** A shot below maxBits is rejected by setPixelBit only on a 15/16-bit packed image and above bit 4. */
  lemma RejectedShot(l: Layout, t: ImageType, c: int)
    requires Bounded(l) && l.layers == LayerCount(t) && 0 <= c < l.MaxBits()
    ensures RejectsBitArgs(t, l.Shot(c).layer, l.Shot(c).bitPos) <==> IsPacked16(t) && l.Shot(c).bitPos > 4
    ensures l.Shot(c).bitPos < l.startBits + l.bitsPerLayer
  {
    ShotInImage(l, c);
  }

  /**
   * The statement `cimage.setPixelBit(sh.getX(), sh.getY(), sh.getLayer(),
   * sh.getBitPosition(), bit)` for the shot of counter `c`: it fails exactly
   * where setPixelBit rejects the shot, and otherwise the image agrees with
   * the frame one counter further.
   */
  method WriteShot(img: StegoImage, s: Shot, bit: bool, ghost l: Layout, ghost bits: seq<bool>, ghost orig: seq<seq<bv32>>, ghost c: int)
    returns (r: Outcome)
    requires img.Valid() && Bounded(l) && l.layers == img.layers
    requires l.width == img.pixels.Length0 && l.height == img.pixels.Length1 && Shape(orig, l.width, l.height)
    requires 0 <= c < |bits| && c < l.MaxBits() && s == l.Shot(c) && bits[c] == bit
    requires Agrees(img.pixels, l, bits, orig, c) && Kept(img.pixels, img.imageType, orig)
    modifies img.pixels
    ensures r == Fail(IllegalArgument) <==> IsPacked16(img.imageType) && s.bitPos > 4
    ensures r.Fail? ==> r == Fail(IllegalArgument)
    ensures r.Pass? ==> Agrees(img.pixels, l, bits, orig, c + 1)
    ensures Kept(img.pixels, img.imageType, orig)
  {
    ShotInImage(l, c);
    RejectedShot(l, img.imageType, c);
    ghost var v := img.pixels[s.x, s.y];
    r := img.SetPixelBit(s.x, s.y, s.layer, s.bitPos, bit);
    if r.Pass? {
      forall x, y | 0 <= x < l.width && 0 <= y < l.height
        ensures CellAgrees(l, bits, img.pixels[x, y], orig[x][y], x, y, c + 1)
      {
        if x == s.x && y == s.y {
          CellStep(l, img.imageType, bits, v, orig[x][y], c);
        } else {
          OtherCellStep(l, bits, img.pixels[x, y], orig[x][y], x, y, c);
        }
      }
      SetKeepsUnreadPart(v, orig[s.x][s.y], img.imageType, s.layer, s.bitPos, bit);
    }
  }

  class LsbImpl {
    var startBits: int
    var endBits: int
    var layers: int
    var bitCounter: int
    var bitsPerLayer: int
    var maxBits: int

    /** LsbImpl(): every field starts at zero. */
    constructor ()
      ensures startBits == 0 && endBits == 0 && layers == 0 && bitCounter == 0 && bitsPerLayer == 0 && maxBits == 0
    {
      startBits := 0;
      endBits := 0;
      layers := 0;
      bitCounter := 0;
      bitsPerLayer := 0;
      maxBits := 0;
    }

    /** The fields hold the parameters of layout `l`. */
    ghost predicate Follows(l: Layout)
      reads this
    {
      startBits == l.startBits && bitsPerLayer == l.bitsPerLayer && endBits == l.startBits + l.bitsPerLayer - 1 &&
      layers == l.layers && maxBits == l.MaxBits()
    }

    /**
     * getNextShot: null once the counter has passed maxBits; a division by
     * zero when maxBits, the cell size or the width is zero; otherwise the
     * shot of the counter, which then moves on by one.
     */
    method GetNextShot(width: int) returns (r: Result<Shot>)
      requires 0 <= bitCounter && 0 <= maxBits && 0 <= bitsPerLayer && 0 <= layers && 0 <= width
      modifies this
      ensures startBits == old(startBits) && endBits == old(endBits) && layers == old(layers)
      ensures bitsPerLayer == old(bitsPerLayer) && maxBits == old(maxBits)
      ensures old(bitCounter) > maxBits ==> r == Err(NoShot) && bitCounter == old(bitCounter)
      ensures old(bitCounter) <= maxBits && (maxBits == 0 || bitsPerLayer * layers == 0 || width == 0) ==>
        r == Err(RuntimeFault) && bitCounter == old(bitCounter)
      ensures old(bitCounter) <= maxBits && maxBits > 0 && bitsPerLayer * layers > 0 && width > 0 ==>
        r == Ok(AddressOf(startBits, bitsPerLayer, layers, maxBits, width, old(bitCounter))) &&
        bitCounter == old(bitCounter) + 1
    {
      if bitCounter > maxBits {
        return Err(NoShot);
      }
      if maxBits == 0 || bitsPerLayer * layers == 0 || width == 0 {
        return Err(RuntimeFault);
      }
      var plane := startBits + bitCounter / maxBits;
      var rangeupto := bitCounter % (bitsPerLayer * layers);
      var tmp := (bitCounter - rangeupto) / (bitsPerLayer * layers);
      var xrow := tmp % width;
      var yrow := (tmp - xrow) / width;
      bitCounter := bitCounter + 1;
      return Ok(Shot(xrow, yrow, plane + rangeupto % bitsPerLayer, rangeupto / bitsPerLayer));
    }

    /** getNextShot where the counter is known to be below maxBits: the shot of the counter, never null. */
    method ShotAt(width: int, ghost l: Layout) returns (s: Shot)
      requires Bounded(l) && Follows(l) && 0 <= bitCounter < l.MaxBits() && width == l.width
      modifies this
      ensures Follows(l) && bitCounter == old(bitCounter) + 1 && s == l.Shot(old(bitCounter))
    {
      Capacity(l);
      var sh := GetNextShot(width);
      s := sh.value;
    }

    /**
     * One step of either encode loop: getNextShot, then setPixelBit of `bit`
     * at that shot. The bit is fetched before the shot; the two touch
     * different objects, so the order does not matter.
     */
    method WriteNext(img: StegoImage, bit: bool, ghost l: Layout, ghost bits: seq<bool>, ghost orig: seq<seq<bv32>>)
      returns (r: Outcome)
      requires img.Valid() && Bounded(l) && l.layers == img.layers && Follows(l)
      requires l.width == img.pixels.Length0 && l.height == img.pixels.Length1 && Shape(orig, l.width, l.height)
      requires 0 <= bitCounter < |bits| <= l.MaxBits() && bits[bitCounter] == bit
      requires Agrees(img.pixels, l, bits, orig, bitCounter) && Kept(img.pixels, img.imageType, orig)
      modifies this, img.pixels
      ensures Follows(l) && bitCounter == old(bitCounter) + 1 && Kept(img.pixels, img.imageType, orig)
      ensures r.Fail? ==> r == Fail(IllegalArgument)
      ensures PackedOverflow(img.imageType, l) && old(bitCounter) == FirstRejected(l) ==> r.Fail?
      ensures !(PackedOverflow(img.imageType, l) && old(bitCounter) >= FirstRejected(l)) ==> r.Pass?
      ensures r.Pass? ==> Agrees(img.pixels, l, bits, orig, bitCounter)
    {
      ghost var c := bitCounter;
      Rejection(l, img.imageType, c);
      var sh := ShotAt(img.pixels.Length0, l);
      r := WriteShot(img, sh, bit, l, bits, orig, c);
    }

    /**
     * The assignments encode and decode share once the range is checked:
     * the range, the layer count, bitsPerLayer = endbits - startbits + 1,
     * maxBits = height * width * bitsPerLayer * layers and a zero counter.
     */
    method Configure(img: StegoImage, startbits: int, endbits: int)
      modifies this
      ensures Follows(LayoutFor(img, startbits, endbits)) && bitCounter == 0
    {
      startBits := startbits;
      endBits := endbits;
      bitCounter := 0;
      var width, height := img.pixels.Length0, img.pixels.Length1;
      layers := img.layers;
      bitsPerLayer := (endBits - startBits) + 1;
      maxBits := height * width * bitsPerLayer * layers;
    }

    /**
     * encode: checks the range and the capacity before anything is written,
     * then writes the frame. On success every readable bit of the image
     * carries the frame bit of its counter if the layout reaches it below
     * the frame's length, and the cover's bit otherwise.
     */
    method Encode(img: StegoImage, message: Message, startbits: int, endbits: int) returns (r: Outcome)
      requires img.Valid() && message.Reading()
      requires img.pixels.Length0 * img.pixels.Length1 < 0x400_0000 && 8 * message.size + 32 < 0x8000_0000
      modifies this, img.pixels, message
      ensures !(0 <= startbits <= 7) ==> r == Fail(StartBitsOutOfRange)
      ensures 0 <= startbits <= 7 && !(0 <= endbits <= 7) ==> r == Fail(EndBitsOutOfRange)
      ensures 0 <= startbits <= 7 && 0 <= endbits <= 7 && startbits > endbits ==> r == Fail(RangeReversed)
      ensures !RangeOk(startbits, endbits) ==> unchanged(this) && unchanged(img.pixels) && unchanged(message)
      ensures RangeOk(startbits, endbits) ==> var l := LayoutFor(img, startbits, endbits);
        Follows(l) &&
        (forall x, y :: 0 <= x < l.width && 0 <= y < l.height ==>
          CellKept(img.imageType, img.pixels[x, y], old(img.pixels[x, y]))) &&
        (8 * message.size + 32 > l.MaxBits() ==>
          r == Fail(MessageTooBig(JavaDiv(l.MaxBits() - 32, 8))) && unchanged(img.pixels) && unchanged(message)) &&
        (8 * message.size + 32 <= l.MaxBits() && IsPacked16(img.imageType) && endbits > 4 ==>
          r == Fail(IllegalArgument)) &&
        (8 * message.size + 32 <= l.MaxBits() && !(IsPacked16(img.imageType) && endbits > 4) ==>
          var bits := FrameBits(message.msg[..], old(message.BitsRead()));
          r == Pass && bitCounter == |bits| && message.Reading() && message.finished &&
          forall x, y :: 0 <= x < l.width && 0 <= y < l.height ==>
            CellAgrees(l, bits, img.pixels[x, y], old(img.pixels[x, y]), x, y, |bits|))
    {
      if startbits > 7 || startbits < 0 {
        return Fail(StartBitsOutOfRange);
      }
      if endbits > 7 || endbits < 0 {
        return Fail(EndBitsOutOfRange);
      }
      if startbits > endbits {
        return Fail(RangeReversed);
      }
      Configure(img, startbits, endbits);
      var messagesize := message.GetSize();
      if messagesize * 8 + 32 > maxBits {
        return Fail(MessageTooBig(JavaDiv(maxBits - 32, 8)));
      }
      ghost var l := LayoutFor(img, startbits, endbits);
      Capacity(l);
      r := WriteFrame(img, message, messagesize, l);
    }

    /** What encode does once the capacity check has passed: the size loop, then the message loop. */
    method WriteFrame(img: StegoImage, message: Message, messagesize: int, ghost l: Layout) returns (r: Outcome)
      requires img.Valid() && message.Reading() && messagesize == message.size
      requires l.width == img.pixels.Length0 && l.height == img.pixels.Length1 && l.layers == img.layers
      requires Bounded(l) && Follows(l) && bitCounter == 0 && 8 * messagesize + 32 <= l.MaxBits()
      modifies this, img.pixels, message
      ensures Follows(l)
      ensures r.Fail? <==> PackedOverflow(img.imageType, l)
      ensures r.Fail? ==> r == Fail(IllegalArgument)
      ensures forall x, y :: 0 <= x < l.width && 0 <= y < l.height ==>
        CellKept(img.imageType, img.pixels[x, y], old(img.pixels[x, y]))
      ensures r.Pass? ==> var bits := FrameBits(message.msg[..], old(message.BitsRead()));
        bitCounter == |bits| && message.Reading() && message.finished &&
        forall x, y :: 0 <= x < l.width && 0 <= y < l.height ==>
          CellAgrees(l, bits, img.pixels[x, y], old(img.pixels[x, y]), x, y, |bits|)
    {
      ghost var b0 := message.BitsRead();
      ghost var bits := FrameBits(message.msg[..], b0);
      ghost var orig := Cells(img.pixels);
      forall x, y | 0 <= x < l.width && 0 <= y < l.height
        ensures CellAgrees(l, bits, img.pixels[x, y], orig[x][y], x, y, 0)
      {
        CoverAgrees(l, bits, orig[x][y], x, y);
      }
      assert Kept(img.pixels, img.imageType, orig);
      r := WriteSize(img, messagesize, l, bits, orig);
      if r.Fail? {
        return;
      }
      WriteMessage(img, message, l, bits, orig, b0);
      r := Pass;
    }

    /** encode's first loop: bit i of the size, `(messagesize >> i) & 1`, at the shot of counter i. */
    method WriteSize(img: StegoImage, messagesize: nat, ghost l: Layout, ghost bits: seq<bool>, ghost orig: seq<seq<bv32>>)
      returns (r: Outcome)
      requires img.Valid() && l.width == img.pixels.Length0 && l.height == img.pixels.Length1 && l.layers == img.layers
      requires Bounded(l) && Follows(l) && bitCounter == 0 && Shape(orig, l.width, l.height)
      requires 32 <= |bits| <= l.MaxBits() && forall i :: 0 <= i < 32 ==> bits[i] == IntBit(messagesize, i)
      requires Agrees(img.pixels, l, bits, orig, 0) && Kept(img.pixels, img.imageType, orig)
      modifies this, img.pixels
      ensures Follows(l) && Kept(img.pixels, img.imageType, orig)
      ensures r.Fail? <==> PackedOverflow(img.imageType, l)
      ensures r.Fail? ==> r == Fail(IllegalArgument)
      ensures r.Pass? ==> bitCounter == 32 && Agrees(img.pixels, l, bits, orig, 32)
    {
      var i := 0;
      while i < 32
        invariant 0 <= i <= 32 && bitCounter == i
        invariant Agrees(img.pixels, l, bits, orig, i)
        invariant PackedOverflow(img.imageType, l) ==> i <= FirstRejected(l)
        invariant Follows(l) && Kept(img.pixels, img.imageType, orig)
      {
        var bit := IntBit(messagesize, i);
        r := WriteNext(img, bit, l, bits, orig);
        if r.Fail? {
          return;
        }
        i := i + 1;
      }
      return Pass;
    }

    /** encode's second loop: nextBit after nextBit, each at the shot of the next counter, until the message is finished. */
    method WriteMessage(img: StegoImage, message: Message, ghost l: Layout, ghost bits: seq<bool>, ghost orig: seq<seq<bv32>>, ghost b0: nat)
      requires img.Valid() && l.width == img.pixels.Length0 && l.height == img.pixels.Length1 && l.layers == img.layers
      requires Bounded(l) && Follows(l) && bitCounter == 32 && Shape(orig, l.width, l.height)
      requires !PackedOverflow(img.imageType, l)
      requires message.Reading() && message.BitsRead() == b0
      requires bits == FrameBits(message.msg[..], b0) && |bits| <= l.MaxBits()
      requires Agrees(img.pixels, l, bits, orig, 32) && Kept(img.pixels, img.imageType, orig)
      modifies this, img.pixels, message
      ensures Follows(l) && bitCounter == |bits| && message.Reading() && message.finished
      ensures Agrees(img.pixels, l, bits, orig, |bits|) && Kept(img.pixels, img.imageType, orig)
    {
      while !message.IsFinished()
        invariant message.Reading() && message.msg[..] == old(message.msg[..])
        invariant bitCounter == 32 + message.BitsRead() - b0 && Follows(l)
        invariant Agrees(img.pixels, l, bits, orig, bitCounter) && Kept(img.pixels, img.imageType, orig)
        decreases 8 * message.size - message.BitsRead()
      {
        WriteMessageBit(img, message, l, bits, orig, b0);
      }
    }

    /**
     * The body of encode's message loop: nextBit, written at the next shot
     * by a setPixelBit that cannot fail because the range stays below the
     * packed formats' limit.
     */
    method WriteMessageBit(img: StegoImage, message: Message, ghost l: Layout, ghost bits: seq<bool>, ghost orig: seq<seq<bv32>>, ghost b0: nat)
      requires img.Valid() && l.width == img.pixels.Length0 && l.height == img.pixels.Length1 && l.layers == img.layers
      requires Bounded(l) && Follows(l) && Shape(orig, l.width, l.height) && !PackedOverflow(img.imageType, l)
      requires message.Reading() && !message.finished && b0 <= message.BitsRead()
      requires bits == FrameBits(message.msg[..], b0) && |bits| <= l.MaxBits()
      requires bitCounter == 32 + message.BitsRead() - b0 && Agrees(img.pixels, l, bits, orig, bitCounter)
      requires Kept(img.pixels, img.imageType, orig)
      modifies this, img.pixels, message
      ensures Follows(l) && message.Reading() && message.msg[..] == old(message.msg[..])
      ensures message.BitsRead() == old(message.BitsRead()) + 1 && bitCounter == old(bitCounter) + 1
      ensures Agrees(img.pixels, l, bits, orig, bitCounter) && Kept(img.pixels, img.imageType, orig)
    {
      var bit := message.NextBit();
      assert bits[bitCounter] == bit.value;
      var r := WriteNext(img, bit.value, l, bits, orig);
    }

    /**
     * encode followed by decode with the same bit range, for a message read
     * from its start that fits and a range the image type can store: encode
     * succeeds and decode returns a new message holding the original bytes.
     */
    method EncodeThenDecode(img: StegoImage, message: Message, startbits: int, endbits: int) returns (e: Outcome, r: Result<Message>)
      requires img.Valid() && message.Reading() && message.BitsRead() == 0
      requires img.pixels.Length0 * img.pixels.Length1 < 0x400_0000 && 8 * message.size + 32 < 0x8000_0000
      requires RangeOk(startbits, endbits) && 8 * message.size + 32 <= LayoutFor(img, startbits, endbits).MaxBits()
      requires !(IsPacked16(img.imageType) && endbits > 4)
      modifies this, img.pixels, message
      ensures e == Pass && r.Ok? && fresh(r.value) && r.value.msg[..] == message.msg[..]
    {
      ghost var l := LayoutFor(img, startbits, endbits);
      ghost var before := Cells(img.pixels);
      e := Encode(img, message, startbits, endbits);
      Capacity(l);
      ghost var bytes := message.msg[..];
      assert Agrees(img.pixels, l, FrameBits(bytes, 0), before, 32 + 8 * |bytes|);
      FrameReadBack(img.pixels, l, bytes, before);
      r := DecodeFramed(img, startbits, endbits, bytes);
    }

    /**
     * decode of an image that carries `bytes`: its first 32 shots read back
     * as |bytes| and the bits of the following shots pack into `bytes`. It
     * returns a new message holding exactly `bytes`.
     */
    method DecodeFramed(img: StegoImage, startbits: int, endbits: int, ghost bytes: seq<bv8>) returns (r: Result<Message>)
      requires img.Valid() && img.pixels.Length0 * img.pixels.Length1 < 0x400_0000 && RangeOk(startbits, endbits)
      requires var l := LayoutFor(img, startbits, endbits);
        Bounded(l) && 8 * |bytes| + 32 <= l.MaxBits() && RecoveredSize(img.pixels, l) == |bytes| &&
        forall i :: 0 <= i < |bytes| ==> PackByte(ReadBits(img.pixels, l, 32, 8 * |bytes|), i) == bytes[i]
      modifies this
      ensures r.Ok? && fresh(r.value) && r.value.msg[..] == bytes
    {
      ghost var l := LayoutFor(img, startbits, endbits);
      ghost var size := RecoveredSize(img.pixels, l);
      ghost var received := ReadBits(img.pixels, l, 32, 8 * size);
      MaxBitsBelow(l);
      IntendedCheckAgrees(size, l.MaxBits());
      assert (8 * size) / 8 == size;
      assert !SizeRejectedAsWritten(size, l.MaxBits()) && size >= 0 && 0 <= Wrap32(size * 8) < l.MaxBits();
      r := Decode(img, startbits, endbits);
      var m := r.value;
      assert m.received == received && m.msg.Length == size;
      assert forall i :: 0 <= i < size ==> m.msg[i] == PackByte(received, i);
      assert m.msg[..] == bytes;
    }

    /**
     * decode: reads the size from the first 32 shots, checks it and reads
     * that many bytes from the following shots into a new message.
     */
    method Decode(img: StegoImage, startbits: int, endbits: int) returns (r: Result<Message>)
      requires img.Valid() && img.pixels.Length0 * img.pixels.Length1 < 0x400_0000
      modifies this
      ensures !(0 <= startbits <= 7) ==> r == Err(StartBitsOutOfRange)
      ensures 0 <= startbits <= 7 && !(0 <= endbits <= 7) ==> r == Err(EndBitsOutOfRange)
      ensures 0 <= startbits <= 7 && 0 <= endbits <= 7 && startbits > endbits ==> r == Err(RangeReversed)
      ensures !RangeOk(startbits, endbits) ==> unchanged(this)
      ensures RangeOk(startbits, endbits) ==> var l := LayoutFor(img, startbits, endbits);
        Follows(l) &&
        (l.MaxBits() < 32 ==> r == Err(RuntimeFault)) &&
        (Bounded(l) && 32 <= l.MaxBits() ==> var size := RecoveredSize(img.pixels, l);
          (SizeRejectedAsWritten(size, l.MaxBits()) ==> r == Err(RecoveredSizeWrong(size))) &&
          (!SizeRejectedAsWritten(size, l.MaxBits()) && size < 0 ==> r == Err(RuntimeFault)) &&
          (!SizeRejectedAsWritten(size, l.MaxBits()) && size >= 0 && !(0 <= Wrap32(size * 8) < l.MaxBits()) ==>
            r == Err(MessageBiggerThanSupposed)) &&
          (!SizeRejectedAsWritten(size, l.MaxBits()) && size >= 0 && 0 <= Wrap32(size * 8) < l.MaxBits() ==>
            var nbits := Wrap32(size * 8);
            nbits % 8 == 0 && nbits <= 8 * size && 32 + nbits <= l.MaxBits() &&
            r.Ok? && fresh(r.value) && fresh(r.value.msg) && r.value.size == size && r.value.Writing() &&
            r.value.received == ReadBits(img.pixels, l, 32, nbits) &&
            (forall i :: 0 <= i < nbits / 8 ==> r.value.msg[i] == PackByte(r.value.received, i)) &&
            (forall i :: nbits / 8 <= i < size ==> r.value.msg[i] == 0)))
    {
      if startbits > 7 || startbits < 0 {
        return Err(StartBitsOutOfRange);
      }
      if endbits > 7 || endbits < 0 {
        return Err(EndBitsOutOfRange);
      }
      if startbits > endbits {
        return Err(RangeReversed);
      }
      Configure(img, startbits, endbits);
      ghost var l := LayoutFor(img, startbits, endbits);
      Capacity(l);
      MaxBitsBelow(l);
      var read := ReadSize(img, l);
      if read.Err? {
        return Err(read.error);
      }
      var size2 := Reverse(read.value);
      var recovered := JavaInt(size2);
      assert recovered == RecoveredSize(img.pixels, l);
      r := ReadPayload(img, l, recovered);
    }

    /**
     * decode after the size is read: the two plausibility checks, the
     * buffer of `recovered` bytes and the reading of its bits.
     */
    method ReadPayload(img: StegoImage, ghost l: Layout, recovered: int) returns (r: Result<Message>)
      requires img.Valid() && l.width == img.pixels.Length0 && l.height == img.pixels.Length1 && l.layers == img.layers
      requires Bounded(l) && 32 <= l.MaxBits() < 0x7FFF_FFE0 && Follows(l) && bitCounter == 32
      modifies this
      ensures Follows(l)
      ensures SizeRejectedAsWritten(recovered, l.MaxBits()) ==> r == Err(RecoveredSizeWrong(recovered))
      ensures !SizeRejectedAsWritten(recovered, l.MaxBits()) && recovered < 0 ==> r == Err(RuntimeFault)
      ensures !SizeRejectedAsWritten(recovered, l.MaxBits()) && recovered >= 0 && !(0 <= Wrap32(recovered * 8) < l.MaxBits()) ==>
        r == Err(MessageBiggerThanSupposed)
      ensures !SizeRejectedAsWritten(recovered, l.MaxBits()) && recovered >= 0 && 0 <= Wrap32(recovered * 8) < l.MaxBits() ==>
        var nbits := Wrap32(recovered * 8);
        nbits % 8 == 0 && nbits <= 8 * recovered && 32 + nbits <= l.MaxBits() &&
        r.Ok? && fresh(r.value) && fresh(r.value.msg) && r.value.size == recovered && r.value.Writing() &&
        r.value.received == ReadBits(img.pixels, l, 32, nbits) &&
        (forall i :: 0 <= i < nbits / 8 ==> r.value.msg[i] == PackByte(r.value.received, i)) &&
        (forall i :: nbits / 8 <= i < recovered ==> r.value.msg[i] == 0)
    {
      if SizeRejectedAsWritten(recovered, maxBits) {
        return Err(RecoveredSizeWrong(recovered));
      }
      if recovered < 0 {
        return Err(RuntimeFault);
      }
      var rmess := new Message.WithBufferSize(recovered);
      var nbits := Wrap32(recovered * 8);
      var imagespace := img.pixels.Length0 * img.pixels.Length1 * img.layers * ((endBits - startBits) + 1);
      assert (endBits - startBits) + 1 == l.bitsPerLayer && img.layers == l.layers;
      assert imagespace == l.width * l.height * l.layers * l.bitsPerLayer;
      ProductOrder(l.width, l.height, l.layers, l.bitsPerLayer);
      if nbits >= imagespace || nbits < 0 {
        return Err(MessageBiggerThanSupposed);
      }
      AcceptedPayload(recovered, l.MaxBits());
      ReadMessage(img, l, rmess, nbits);
      return Ok(rmess);
    }

    /**
     * decode's first loop: shifts in the bits of the first 32 shots, the
     * first one ending up as bit 31. It fails when a shot is missing (the
     * counter passed maxBits, or a division by zero) or lies below the image.
     */
    method ReadSize(img: StegoImage, ghost l: Layout) returns (r: Result<bv32>)
      requires img.Valid() && l.width == img.pixels.Length0 && l.height == img.pixels.Length1 && l.layers == img.layers
      requires 0 <= l.startBits && 1 <= l.bitsPerLayer && l.startBits + l.bitsPerLayer <= 8 && l.layers <= 3
      requires Follows(l) && bitCounter == 0
      modifies this
      ensures Follows(l)
      ensures r.Err? ==> r == Err(RuntimeFault)
      ensures r.Ok? ==> Bounded(l) && 32 <= l.MaxBits()
      ensures l.MaxBits() < 32 ==> r == Err(RuntimeFault)
      ensures Bounded(l) && 32 <= l.MaxBits() ==> r == Ok(ShiftIn(ReadBits(img.pixels, l, 0, 32))) && bitCounter == 32
    {
      Capacity(l);
      var size: bv32 := 0;
      ghost var got: seq<bool> := [];
      var i := 0;
      while i < 32
        invariant 0 <= i <= 32 && bitCounter == i && Follows(l) && i <= l.MaxBits()
        invariant |got| == i && size == ShiftIn(got)
        invariant forall t :: 0 <= t < i ==> Bounded(l) && t < l.MaxBits() && got[t] == ShotBit(img.pixels, l, t)
      {
        var bit := ReadSizeBit(img, l);
        if bit.Err? {
          return Err(RuntimeFault);
        }
        size := Push(size, bit.value == 1);
        ShiftInAppend(got, bit.value == 1);
        got := got + [bit.value == 1];
        i := i + 1;
      }
      assert got == ReadBits(img.pixels, l, 0, 32);
      return Ok(size);
    }

    /**
     * One step of decode's size loop: getNextShot, then getPixelBit at that
     * shot. Counter maxBits fails: with maxBits zero getNextShot divides by
     * zero, otherwise its shot lies one row below the image.
     */
    method ReadSizeBit(img: StegoImage, ghost l: Layout) returns (r: Result<int>)
      requires img.Valid() && l.width == img.pixels.Length0 && l.height == img.pixels.Length1 && l.layers == img.layers
      requires 0 <= l.startBits && 1 <= l.bitsPerLayer && l.startBits + l.bitsPerLayer <= 8 && l.layers <= 3
      requires Follows(l) && 0 <= bitCounter <= l.MaxBits()
      modifies this
      ensures Follows(l)
      ensures r.Err? ==> r == Err(RuntimeFault)
      ensures r.Err? <==> old(bitCounter) == l.MaxBits()
      ensures old(bitCounter) < l.MaxBits() ==>
        Bounded(l) && r.Ok? && (r.value == 1) == ShotBit(img.pixels, l, old(bitCounter)) && bitCounter == old(bitCounter) + 1
    {
      Capacity(l);
      ghost var c := bitCounter;
      var sh := GetNextShot(img.pixels.Length0);
      if sh.Err? {
        return Err(RuntimeFault);
      }
      var s := sh.value;
      if c < l.MaxBits() {
        ShotInImage(l, c);
      } else {
        ShotPastEnd(l);
      }
      if !(0 <= s.x < img.pixels.Length0 && 0 <= s.y < img.pixels.Length1) {
        return Err(RuntimeFault);
      }
      var bit := img.GetPixelBit(s.x, s.y, s.layer, s.bitPos);
      return Ok(bit);
    }

    /**
     * decode's second loop: `size2 = size2 << 1 | ((size >> j) & 1)` for
     * j = 0..31, which reverses the order of the bits.
     */
    static method Reverse(size: bv32) returns (size2: bv32)
      ensures size2 == ShiftIn(LowFirst(size))
      ensures forall j :: 0 <= j < 32 ==> Bit32(size2, j) == Bit32(size, 31 - j)
    {
      size2 := 0;
      var j := 0;
      while j < 32
        invariant 0 <= j <= 32 && size2 == ShiftIn(LowFirst(size)[..j])
      {
        assert LowFirst(size)[..j + 1] == LowFirst(size)[..j] + [Bit32(size, j)];
        ShiftInAppend(LowFirst(size)[..j], Bit32(size, j));
        size2 := Push(size2, Bit32(size, j));
        j := j + 1;
      }
      assert LowFirst(size)[..32] == LowFirst(size);
      forall j | 0 <= j < 32
        ensures Bit32(size2, j) == Bit32(size, 31 - j)
      {
        ShiftInBit(LowFirst(size), j);
      }
    }

    /** One step of decode's message loop: getNextShot, then getPixelBit at that shot. */
    method ReadNext(img: StegoImage, ghost l: Layout) returns (bit: int)
      requires img.Valid() && l.width == img.pixels.Length0 && l.height == img.pixels.Length1 && l.layers == img.layers
      requires Bounded(l) && Follows(l) && 0 <= bitCounter < l.MaxBits()
      modifies this
      ensures Follows(l) && bitCounter == old(bitCounter) + 1
      ensures (bit == 1) == ShotBit(img.pixels, l, old(bitCounter))
    {
      ghost var c := bitCounter;
      var s := ShotAt(img.pixels.Length0, l);
      ShotInImage(l, c);
      bit := img.GetPixelBit(s.x, s.y, s.layer, s.bitPos);
    }

    /**
     * The body of decode's message loop: the next shot's bit handed to
     * setNext, which accepts it because the message is not yet full.
     */
    method ReadInto(img: StegoImage, ghost l: Layout, rmess: Message, ghost k: nat)
      requires img.Valid() && l.width == img.pixels.Length0 && l.height == img.pixels.Length1 && l.layers == img.layers
      requires Bounded(l) && Follows(l) && bitCounter == 32 + k && 32 + k < l.MaxBits()
      requires rmess.Writing() && k < 8 * rmess.size && rmess.received == ReadBits(img.pixels, l, 32, k)
      modifies this, rmess, rmess.msg
      ensures Follows(l) && bitCounter == old(bitCounter) + 1
      ensures rmess.Writing() && rmess.received == ReadBits(img.pixels, l, 32, k + 1)
    {
      ReadBitsStep(img.pixels, l, 32, k);
      var bit := ReadNext(img, l);
      var res := rmess.SetNext(bit == 1);
    }

    method ReadMessage(img: StegoImage, ghost l: Layout, rmess: Message, nbits: int)
      requires img.Valid() && l.width == img.pixels.Length0 && l.height == img.pixels.Length1 && l.layers == img.layers
      requires Bounded(l) && Follows(l) && bitCounter == 32
      requires rmess.Writing() && rmess.received == []
      requires 0 <= nbits <= 8 * rmess.size && nbits % 8 == 0 && 32 + nbits <= l.MaxBits()
      modifies this, rmess, rmess.msg
      ensures Follows(l)
      ensures rmess.Writing() && rmess.received == ReadBits(img.pixels, l, 32, nbits)
      ensures forall i :: 0 <= i < nbits / 8 ==> rmess.msg[i] == PackByte(rmess.received, i)
      ensures forall i :: nbits / 8 <= i < rmess.size ==> rmess.msg[i] == 0
    {
      var k := 0;
      while k < nbits
        invariant 0 <= k <= nbits && bitCounter == 32 + k && Follows(l)
        invariant rmess.Writing() && rmess.received == ReadBits(img.pixels, l, 32, k)
      {
        ReadInto(img, l, rmess, k);
        k := k + 1;
      }
      FilledPrefix(rmess.msg[..], rmess.pos, rmess.count, rmess.ibuffer, rmess.finished, rmess.received, nbits / 8);
    }
  }
}
