/**
 * StegoImage.java: the pixel bit accessor. The raster is a grid of Java ints
 * indexed [x, y]: for single-layer types a cell holds the raster sample of
 * band 0, for every other type it holds the packed RGB value that getRGB
 * returns and setRGB stores.
 */
module Images {
  import opened BitUtility
  import opened Outcomes
  import Messages
  import ImageUtility

  /** The BufferedImage types. */
  datatype ImageType =
    | Custom | IntRgb | IntArgb | IntArgbPre | IntBgr | ThreeByteBgr
    | FourByteAbgr | FourByteAbgrPre | UShort565Rgb | UShort555Rgb
    | ByteGray | UShortGray | ByteBinary | ByteIndexed

  /** getLayerCount: 0 for the 1/2/4-bit packed type, 1 for 8-bit indexed and grey types, 3 for every other type. */
  function LayerCount(t: ImageType): (r: int)
    ensures r == 0 <==> t == ByteBinary
    ensures r == 1 <==> t == ByteIndexed || t == ByteGray || t == UShortGray
    ensures r == 3 <==> !(t == ByteBinary || t == ByteIndexed || t == ByteGray || t == UShortGray)
  {
    if t == ByteBinary then 0
    else if t == ByteIndexed || t == ByteGray || t == UShortGray then 1
    else 3
  }

  /** The 15/16-bit packed RGB types, on which setPixelBit accepts bit positions 0..4 only. */
  predicate IsPacked16(t: ImageType)
  {
    t == UShort555Rgb || t == UShort565Rgb
  }

  /** The argument checks of setPixelBit, in the source's order; any of them throws IllegalArgumentException. */
  predicate RejectsBitArgs(t: ImageType, layer: int, bitpos: int)
  {
    (IsPacked16(t) && bitpos > 4) || bitpos > 7 || bitpos < 0
    || layer > LayerCount(t) - 1 || layer < 0
  }

  /**
   * getPixelBit on a stored cell. Single-layer types read bit `bitpos` of the
   * sample's low byte with Message.getBit and ignore `layer`; every other
   * type reads bit 0 of the packed value shifted right by layer * 8 + bitpos.
   * Java takes a shift count modulo 32 (also after int wrap-around, as 2^32
   * is a multiple of 32), and bit 0 of an arithmetic shift by fewer than 32
   * places is the bit at that count.
   */
  function PixelBit(v: bv32, layers: int, layer: int, bitpos: int): (r: int)
    ensures r == 0 || r == 1
  {
    if layers == 1 then (if Messages.GetBit(LowByte(v), bitpos) then 1 else 0)
    else if BitAt(v, ShiftIndex(layer * 8 + bitpos)) then 1 else 0
  }

  /**
   * Raster.setSample with a byte widened to int: byte rasters keep its low
   * 8 bits, the 16-bit grey raster keeps the low 16 bits of the
   * sign-extended byte.
   */
  function StoreSample(t: ImageType, b: bv8): (r: bv32)
    ensures LowByte(r) == b
  {
    if t == UShortGray then SignExtend(b) & 0xFFFF else b as bv32
  }

  /**
   * The cell after setPixelBit with valid arguments: on three-layer types the
   * bit layer * 8 + bitpos of the packed value is or-ed in or and-ed out
   * (Integer.rotateLeft(1, n) is 1 << n for n below 32); on single-layer
   * types BitUtility.setBit replaces a bit of the sample's low byte, which
   * is stored back with setSample.
   */
  function WithPixelBit(v: bv32, t: ImageType, layer: int, bitpos: int, newbit: bool): bv32
    requires !RejectsBitArgs(t, layer, bitpos)
  {
    if LayerCount(t) == 3 then WithBit(v, bitpos + layer * 8, newbit)
    else
      StoreSample(t, SetBit(LowByte(v), bitpos, newbit))
  }

  /** A layer's byte for getBitPlane: blue, green, red for layers 0, 1, 2 of a packed pixel. */
  function ChannelByte(v: bv32, layer: int): bv8
  {
    if layer == 0 then LowByte(ImageUtility.GetBlue(v))
    else if layer == 1 then LowByte(ImageUtility.GetGreen(v))
    else if layer == 2 then LowByte(ImageUtility.GetRed(v))
    else 0
  }

  /** One element of getBitPlane: Message.getBit of the sample's low byte or of the layer's channel byte. */
  function PlaneBit(v: bv32, layers: int, layer: int, plane: int): bool
  {
    if layers == 1 then Messages.GetBit(LowByte(v), plane)
    else Messages.GetBit(ChannelByte(v, layer), plane)
  }

  /** A zero-layer image has no valid layer: setPixelBit rejects every call. */
  lemma ZeroLayersRejectAll(t: ImageType, layer: int, bitpos: int)
    requires LayerCount(t) == 0
    ensures RejectsBitArgs(t, layer, bitpos)
  {
  }

  /** On a three-layer pixel, bit `bitpos` of layer 0, 1, 2 is that bit of the blue, green, red channel. */
  lemma PixelBitChannel(v: bv32, layer: int, bitpos: int)
    requires 0 <= layer < 3 && 0 <= bitpos < 8
    ensures PixelBit(v, 3, layer, bitpos) == 1 <==> Bit32(v, layer * 8 + bitpos)
    ensures layer == 0 ==> (PixelBit(v, 3, layer, bitpos) == 1 <==> Bit32(ImageUtility.GetBlue(v), bitpos))
    ensures layer == 1 ==> (PixelBit(v, 3, layer, bitpos) == 1 <==> Bit32(ImageUtility.GetGreen(v), bitpos))
    ensures layer == 2 ==> (PixelBit(v, 3, layer, bitpos) == 1 <==> Bit32(ImageUtility.GetRed(v), bitpos))
  {
    assert ShiftIndex(layer * 8 + bitpos) == (layer * 8 + bitpos) as bv5;
  }

  /** getBitPlane(layer, plane)[x][y] is getPixelBit(x, y, layer, plane) == 1 for a valid layer and plane 0..7. */
  lemma BitPlaneAgrees(v: bv32, layers: int, layer: int, plane: int)
    requires (layers == 1 && layer == 0) || (layers == 3 && 0 <= layer < 3)
    requires 0 <= plane < 8
    ensures PlaneBit(v, layers, layer, plane) == (PixelBit(v, layers, layer, plane) == 1)
  {
    if layers == 3 {
      var c := ChannelByte(v, layer);
      Messages.GetBitMeaning(c, plane);
      PixelBitChannel(v, layer, plane);
      if layer == 0 {
        LowByteOfChannel(ImageUtility.GetBlue(v), plane);
      } else if layer == 1 {
        LowByteOfChannel(ImageUtility.GetGreen(v), plane);
      } else {
        LowByteOfChannel(ImageUtility.GetRed(v), plane);
      }
    }
  }

  lemma LowByteOfChannel(w: bv32, k: int)
    requires 0 <= k < 8
    ensures Bit8(LowByte(w), k) == Bit32(w, k)
  {
    Messages.LowByteBit(w, k);
  }

  /** After setPixelBit with valid arguments, getPixelBit at the same place returns the bit written. */
  lemma SetThenGet(v: bv32, t: ImageType, layer: int, bitpos: int, b: bool)
    requires !RejectsBitArgs(t, layer, bitpos)
    ensures PixelBit(WithPixelBit(v, t, layer, bitpos, b), LayerCount(t), layer, bitpos) == if b then 1 else 0
  {
    var w := WithPixelBit(v, t, layer, bitpos, b);
    if LayerCount(t) == 3 {
      PixelBitChannel(w, layer, bitpos);
      WithBitBit(v, bitpos + layer * 8, b, layer * 8 + bitpos);
    } else {
      Messages.GetBitOfSetBit(LowByte(v), bitpos, b);
    }
  }

  /**
   * setPixelBit with valid arguments changes no other readable (layer, bit
   * position) of the pixel: on three-layer types no other bit of the packed
   * value, on single-layer types no other bit of the sample's low byte.
   */
  lemma SetKeepsOtherPixelBits(v: bv32, t: ImageType, layer: int, bitpos: int, b: bool, layer': int, bitpos': int)
    requires !RejectsBitArgs(t, layer, bitpos) && 0 <= layer' < LayerCount(t) && 0 <= bitpos' < 8
    requires layer != layer' || bitpos != bitpos'
    ensures PixelBit(WithPixelBit(v, t, layer, bitpos, b), LayerCount(t), layer', bitpos') == PixelBit(v, LayerCount(t), layer', bitpos')
  {
    if LayerCount(t) == 3 {
      KeepsOtherWordBit(v, bitpos + layer * 8, b, layer', bitpos');
    } else {
      KeepsOtherSampleBit(LowByte(v), t, bitpos, b, bitpos');
    }
  }

  lemma KeepsOtherWordBit(v: bv32, i: nat, b: bool, layer': int, bitpos': int)
    requires i < 32 && 0 <= layer' < 3 && 0 <= bitpos' < 8 && i != layer' * 8 + bitpos'
    ensures PixelBit(WithBit(v, i, b), 3, layer', bitpos') == PixelBit(v, 3, layer', bitpos')
  {
    PixelBitChannel(WithBit(v, i, b), layer', bitpos');
    PixelBitChannel(v, layer', bitpos');
    WithBitBit(v, i, b, layer' * 8 + bitpos');
  }

  lemma KeepsOtherSampleBit(d: bv8, t: ImageType, bitpos: int, b: bool, bitpos': int)
    requires 0 <= bitpos < 8 && 0 <= bitpos' < 8 && bitpos != bitpos'
    ensures Messages.GetBit(LowByte(StoreSample(t, SetBit(d, bitpos, b))), bitpos') == Messages.GetBit(d, bitpos')
  {
    SetBitBit(d, bitpos, b, bitpos');
    Messages.GetBitMeaning(SetBit(d, bitpos, b), bitpos');
    Messages.GetBitMeaning(d, bitpos');
  }

  /**
   * The part of cell `v` that getPixelBit never reads, against the cover
   * value `o`: on three-layer types the alpha byte (bits 24..31) is the
   * cover's; on single-layer types the cell is the cover value or a sample
   * stored from its own low byte.
   */
  predicate CellKept(t: ImageType, v: bv32, o: bv32)
  {
    (LayerCount(t) == 3 ==> v >> 24 == o >> 24) &&
    (LayerCount(t) == 1 ==> v == o || v == StoreSample(t, LowByte(v)))
  }

  /** An accepted setPixelBit keeps the unread part of the cell as CellKept describes it. */
  lemma SetKeepsUnreadPart(v: bv32, o: bv32, t: ImageType, layer: int, bitpos: int, b: bool)
    requires !RejectsBitArgs(t, layer, bitpos) && CellKept(t, v, o)
    ensures CellKept(t, WithPixelBit(v, t, layer, bitpos, b), o)
  {
    if LayerCount(t) == 3 {
      WithBitHigh(v, bitpos + layer * 8, b);
    }
  }

  /**
   * An image: its BufferedImage type, the layer count fixed when it was
   * built, and the grid of cells indexed [x, y], width first.
   */
  class StegoImage {
    const imageType: ImageType
    const layers: int
    const pixels: array2<bv32>

    ghost predicate Valid()
    {
      layers == LayerCount(imageType)
    }

    /** An image of type `t` over the cells of `grid`. */
    constructor (t: ImageType, grid: array2<bv32>)
      ensures Valid() && imageType == t && pixels == grid
    {
      imageType := t;
      layers := LayerCount(t);
      pixels := grid;
    }

    /** getPixelBit: 0 or 1, the cell's bit for the layer and bit position. */
    function GetPixelBit(x: int, y: int, layer: int, bitpos: int): (r: int)
      reads pixels
      requires 0 <= x < pixels.Length0 && 0 <= y < pixels.Length1
      ensures r == 0 || r == 1
      ensures layers == 3 && 0 <= layer < 3 && 0 <= bitpos < 8 ==> (r == 1 <==> Bit32(pixels[x, y], layer * 8 + bitpos))
    {
      var r := PixelBit(pixels[x, y], layers, layer, bitpos);
      if layers == 3 && 0 <= layer < 3 && 0 <= bitpos < 8 then
        PixelBitChannel(pixels[x, y], layer, bitpos);
        r
      else r
    }

    /**
     * setPixelBit: checks the bit position and the layer before anything is
     * touched, then rewrites the one cell.
     */
    method SetPixelBit(x: int, y: int, layer: int, bitpos: int, newbit: bool) returns (r: Outcome)
      requires Valid() && 0 <= x < pixels.Length0 && 0 <= y < pixels.Length1
      modifies pixels
      ensures r == Fail(IllegalArgument) <==> RejectsBitArgs(imageType, layer, bitpos)
      ensures r.Fail? ==> r == Fail(IllegalArgument) && unchanged(pixels)
      ensures r.Pass? ==> pixels[x, y] == WithPixelBit(old(pixels[x, y]), imageType, layer, bitpos, newbit)
      ensures forall i, j :: 0 <= i < pixels.Length0 && 0 <= j < pixels.Length1 && (i != x || j != y) ==> pixels[i, j] == old(pixels[i, j])
    {
      if IsPacked16(imageType) && bitpos > 4 {
        return Fail(IllegalArgument);
      }
      if bitpos > 7 || bitpos < 0 {
        return Fail(IllegalArgument);
      }
      if layer > layers - 1 || layer < 0 {
        return Fail(IllegalArgument);
      }
      if layers == 3 {
        var pixel := pixels[x, y];
        pixels[x, y] := WithBit(pixel, bitpos + layer * 8, newbit);
      } else {
        var b := SetBit(LowByte(pixels[x, y]), bitpos, newbit);
        pixels[x, y] := StoreSample(imageType, b);
      }
      return Pass;
    }

    /** The inner loop of getBitPlane: the plane bits of column `i`, the other columns untouched. */
    method FillColumn(bitPlane: array2<bool>, i: int, layer: int, plane: int)
      requires bitPlane as object != pixels as object
      requires bitPlane.Length0 == pixels.Length0 && bitPlane.Length1 == pixels.Length1 && 0 <= i < pixels.Length0
      modifies bitPlane
      ensures forall j :: 0 <= j < pixels.Length1 ==> bitPlane[i, j] == PlaneBit(pixels[i, j], layers, layer, plane)
      ensures forall i', j :: 0 <= i' < pixels.Length0 && 0 <= j < pixels.Length1 && i' != i ==> bitPlane[i', j] == old(bitPlane[i', j])
    {
      var j := 0;
      while j < pixels.Length1
        invariant 0 <= j <= pixels.Length1
        invariant forall j' :: 0 <= j' < j ==> bitPlane[i, j'] == PlaneBit(pixels[i, j'], layers, layer, plane)
        invariant forall i', j' :: 0 <= i' < pixels.Length0 && 0 <= j' < pixels.Length1 && i' != i ==> bitPlane[i', j'] == old(bitPlane[i', j'])
      {
        bitPlane[i, j] := PlaneBit(pixels[i, j], layers, layer, plane);
        j := j + 1;
      }
    }

    /**
     * getBitPlane: the bit `plane` of the layer's byte for every cell, or an
     * error for a layer the image does not have (unsupported on zero-layer
     * images).
     */
    method GetBitPlane(layer: int, plane: int) returns (r: Result<array2<bool>>)
      requires Valid()
      ensures layers == 0 ==> r == Err(Unsupported)
      ensures layers == 1 && layer != 0 ==> r == Err(IllegalArgument)
      ensures layers == 3 && (layer < 0 || layer > 2) ==> r == Err(IllegalArgument)
      ensures r.Ok? <==> (layers == 1 && layer == 0) || (layers == 3 && 0 <= layer <= 2)
      ensures r.Ok? ==> fresh(r.value) && r.value.Length0 == pixels.Length0 && r.value.Length1 == pixels.Length1
      ensures r.Ok? ==> forall i, j :: 0 <= i < pixels.Length0 && 0 <= j < pixels.Length1 ==>
        r.value[i, j] == PlaneBit(pixels[i, j], layers, layer, plane)
    {
      if layers == 1 {
        if layer != 0 {
          return Err(IllegalArgument);
        }
      } else if layers == 3 {
        if layer < 0 || layer > 2 {
          return Err(IllegalArgument);
        }
      } else {
        return Err(Unsupported);
      }
      var bitPlane := new bool[pixels.Length0, pixels.Length1];
      var i := 0;
      while i < pixels.Length0
        invariant 0 <= i <= pixels.Length0
        invariant forall i', j :: 0 <= i' < i && 0 <= j < pixels.Length1 ==> bitPlane[i', j] == PlaneBit(pixels[i', j], layers, layer, plane)
      {
        FillColumn(bitPlane, i, layer, plane);
        i := i + 1;
      }
      return Ok(bitPlane);
    }
  }
}
