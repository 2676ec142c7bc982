/**
 * Bit-level helpers: the bits of Java `byte` and `int` values (as bv8 and
 * bv32), Java's truncating remainder and division, and BitUtility.
 */
module BitUtility {

  /** Bit `k` of a 32-bit word, `k` being a shift count 0..31. */
  function BitAt(v: bv32, k: bv5): bool
  {
    (v >> k) & 1 != 0
  }

  /** Bit `i` of a 32-bit word. */
  function Bit32(v: bv32, i: nat): bool
    requires i < 32
  {
    BitAt(v, i as bv5)
  }

  /** Bit `i` of a byte. */
  function Bit8(v: bv8, i: nat): bool
    requires i < 8
  {
    Bit32(v as bv32, i)
  }

  /** The word with only bit `i` set: Java's `1 << i`, which is also `Integer.rotateLeft(1, i)`. */
  function Mask32(i: nat): bv32
    requires i < 32
  {
    (1 as bv32) << (i as bv5)
  }

  /** A bit index below 32 survives the conversion to a shift count. */
  lemma CastBack(a: nat)
    requires a < 32
    ensures (a as bv5) as int == a
  {
  }

  lemma CastInjective(a: nat, b: nat)
    requires a < 32 && b < 32 && a != b
    ensures a as bv5 != b as bv5
  {
    CastBack(a);
    CastBack(b);
  }

  lemma CastPred(j: nat)
    requires 0 < j < 32
    ensures ((j - 1) as bv5) == (j as bv5) - 1
  {
    CastBack(j);
    CastBack(j - 1);
  }

  /** Java's widening of a (signed) byte to an int: the sign bit is copied into bits 8..31. */
  function SignExtend(b: bv8): (r: bv32)
    ensures r & 0xFF == b as bv32
    ensures (r >> 8 == 0) == (b < 0x80)
    ensures (r >> 8 == 0xFF_FFFF) == (b >= 0x80)
  {
    if b & 0x80 == 0 then b as bv32 else (b as bv32) | 0xFFFF_FF00
  }

  /** Java's `(byte) v`: keeps the low 8 bits. */
  function LowByte(v: bv32): (r: bv8)
    ensures r as bv32 == v & 0xFF
  {
    (v & 0xFF) as bv8
  }

  /** Java's `%` on int: the remainder takes the sign of the dividend. */
  function JavaRem(a: int, n: int): int
    requires n > 0
  {
    if a >= 0 then a % n else -((-a) % n)
  }

  /** Java's `/` on int: the quotient is truncated toward zero. */
  function JavaDiv(a: int, n: int): int
    requires n > 0
  {
    if a >= 0 then a / n else -((-a) / n)
  }

  /**
   * Java's division identity: the truncated quotient and the remainder put the
   * dividend back together, and the remainder is smaller than the divisor and
   * has the dividend's sign.
   */
  lemma JavaDivRem(a: int, n: int)
    requires n > 0
    ensures a == JavaDiv(a, n) * n + JavaRem(a, n)
    ensures -n < JavaRem(a, n) < n
    ensures a >= 0 ==> JavaRem(a, n) >= 0 && JavaDiv(a, n) >= 0
    ensures a < 0 ==> JavaRem(a, n) <= 0 && JavaDiv(a, n) <= 0
  {
    if a >= 0 {
      EuclidDivRem(a, n);
    } else {
      EuclidDivRem(-a, n);
      NegatedProduct((-a) / n, n);
    }
  }

  lemma EuclidDivRem(m: int, n: int)
    requires m >= 0 && n > 0
    ensures m == (m / n) * n + m % n && 0 <= m % n < n && m / n >= 0
  {
  }

  lemma NegatedProduct(q: int, n: int)
    ensures (-q) * n == -(q * n)
  {
  }

  /** The amount a Java shift really uses: the low five bits of the int count. */
  function ShiftIndex(s: int): (r: bv5)
    ensures 0 <= s < 32 ==> r == s as bv5
  {
    (s % 32) as bv5
  }

  /**
   * BitUtility.setBit: with p = pos % 8 (Java's remainder, so -7..7), clears
   * bit p with the mask 0xFF7F >> (8 - (p + 1)) and ors in the new bit
   * shifted left by p, keeping the low byte.
   */
  function SetBit(data: bv8, pos: int, b: bool): bv8
  {
    SetBitAt(data, ShiftIndex(JavaRem(pos, 8)), b)
  }

  /**
   * The body of setBit for the shift count k = p mod 32. Java reduces every
   * shift count mod 32, and 8 - (p + 1) mod 32 is 7 - k computed in five bits.
   */
  function SetBitAt(data: bv8, k: bv5, b: bool): bv8
  {
    var v: bv32 := if b then 1 else 0;
    var mask := (0xFF7F as bv32) >> (7 - k);
    var oldByte := LowByte(mask & SignExtend(data) & 0xFF);
    LowByte((v << k) | SignExtend(oldByte))
  }

  lemma SetBitAtForm(data: bv8, k: bv5, b: bool)
    requires k < 8
    ensures SetBitAt(data, k, b) as bv32
      == if b then (data as bv32) | ((1 as bv32) << k) else (data as bv32) & !((1 as bv32) << k)
  {
  }

  lemma SetBitShiftCount(pos: int)
    requires 0 <= pos < 8
    ensures ShiftIndex(JavaRem(pos, 8)) == pos as bv5
  {
  }

  /** For positions 0..7 setBit sets the addressed bit and keeps the other seven. */
  lemma SetBitEffect(data: bv8, pos: int, b: bool)
    requires 0 <= pos < 8
    ensures Bit8(SetBit(data, pos, b), pos) == b
    ensures forall i :: 0 <= i < 8 && i != pos ==> Bit8(SetBit(data, pos, b), i) == Bit8(data, i)
  {
    forall i | 0 <= i < 8
      ensures Bit8(SetBit(data, pos, b), i) == if i == pos then b else Bit8(data, i)
    {
      SetBitBit(data, pos, b, i);
    }
  }

  lemma SetBitBit(data: bv8, pos: int, b: bool, i: nat)
    requires 0 <= pos < 8 && i < 8
    ensures Bit8(SetBit(data, pos, b), i) == if i == pos then b else Bit8(data, i)
  {
    SetBitShiftCount(pos);
    SetBitAtBit(data, pos as bv5, b, i as bv5);
    ByteBitAt(SetBit(data, pos, b), data, pos, b, i);
  }

  /** A bit statement about shift counts read back at positions 0..7. */
  lemma ByteBitAt(r: bv8, data: bv8, pos: nat, b: bool, i: nat)
    requires pos < 8 && i < 8
    requires BitAt(r as bv32, i as bv5) == if i as bv5 == pos as bv5 then b else BitAt(data as bv32, i as bv5)
    ensures Bit8(r, i) == if i == pos then b else Bit8(data, i)
  {
    if i != pos {
      CastInjective(i, pos);
    }
  }

  lemma SetBitAtBit(data: bv8, k: bv5, b: bool, j: bv5)
    requires k < 8
    ensures BitAt(SetBitAt(data, k, b) as bv32, j) == if j == k then b else BitAt(data as bv32, j)
  {
    SetBitAtForm(data, k, b);
    MaskedBit(data as bv32, SetBitAt(data, k, b) as bv32, k, b, j);
  }

  /** Or-ing in or and-ing out the mask of bit k changes bit k alone. */
  lemma MaskedBit(v: bv32, r: bv32, k: bv5, b: bool, j: bv5)
    requires r == if b then v | ((1 as bv32) << k) else v & !((1 as bv32) << k)
    ensures BitAt(r, j) == if j == k then b else BitAt(v, j)
  {
    if b {
      SetMaskBitAt(v, k, j);
    } else {
      ClearMaskBitAt(v, k, j);
    }
  }

  lemma SetMaskBitAt(v: bv32, k: bv5, j: bv5)
    ensures BitAt(v | ((1 as bv32) << k), j) == (j == k || BitAt(v, j))
  {
  }

  lemma ClearMaskBitAt(v: bv32, k: bv5, j: bv5)
    ensures BitAt(v & !((1 as bv32) << k), j) == (j != k && BitAt(v, j))
  {
  }

  /** setBit is idempotent. */
  lemma SetBitIdempotent(data: bv8, pos: int, b: bool)
    requires 0 <= pos < 8
    ensures SetBit(SetBit(data, pos, b), pos, b) == SetBit(data, pos, b)
  {
  }

  /** BitUtility.intToByteArray: the four bytes of `value`, most significant first. */
  function IntToByteArray(value: bv32): (r: seq<bv8>)
    ensures |r| == 4
    ensures ((r[0] as bv32) << 24) | ((r[1] as bv32) << 16) | ((r[2] as bv32) << 8) | (r[3] as bv32) == value
  {
    [LowByte((value >> 24) & 0xFF), LowByte((value >> 16) & 0xFF),
     LowByte((value >> 8) & 0xFF), LowByte(value & 0xFF)]
  }

  /** BitUtility.byteArrayToInt: the first four bytes of `b` read big-endian (the first one sign-extended, then shifted out). */
  function ByteArrayToInt(b: seq<bv8>): (r: bv32)
    requires |b| >= 4
    ensures r == ((b[0] as bv32) << 24) | ((b[1] as bv32) << 16) | ((b[2] as bv32) << 8) | (b[3] as bv32)
  {
    (SignExtend(b[0]) << 24) + ((SignExtend(b[1]) & 0xFF) << 16)
      + ((SignExtend(b[2]) & 0xFF) << 8) + (SignExtend(b[3]) & 0xFF)
  }

  /** byteArrayToInt inverts intToByteArray. */
  lemma IntBytesRoundTrip(v: bv32)
    ensures ByteArrayToInt(IntToByteArray(v)) == v
  {
  }

  /** Java's shift-accumulate step `acc << 1 | bit`, with the bit as 0 or 1. */
  function Push(acc: bv32, b: bool): bv32
  {
    (acc << 1) | (if b then 1 else 0)
  }

  /** The shift-accumulate step over a sequence of bits, starting from 0. */
  function ShiftIn(bits: seq<bool>): bv32
  {
    if bits == [] then 0
    else Push(ShiftIn(bits[..|bits| - 1]), bits[|bits| - 1])
  }

  /** One shift-accumulate step moves every bit up by one and puts the new bit at position 0. */
  lemma ShiftStep(x: bv32, b: bool, j: nat)
    requires j < 32
    ensures Bit32(Push(x, b), j) == if j == 0 then b else Bit32(x, j - 1)
  {
    ShiftStepAt(x, b, j as bv5);
    if j > 0 {
      CastInjective(j, 0);
      CastPred(j);
    }
  }

  lemma ShiftStepAt(x: bv32, b: bool, k: bv5)
    ensures BitAt(Push(x, b), k) == if k == 0 then b else BitAt(x, k - 1)
  {
  }

  /**
   * After shifting in at most 32 bits, bit `j` of the accumulator is the
   * `j`-th bit from the end: the last bit shifted in is bit 0, and the
   * positions above the bits shifted in are 0.
   */
  lemma {:induction false} ShiftInBit(bits: seq<bool>, j: nat)
    requires |bits| <= 32 && j < 32
    ensures Bit32(ShiftIn(bits), j) == (j < |bits| && bits[|bits| - 1 - j])
  {
    if bits == [] {
      ZeroHasNoBits(j);
    } else {
      var init, last := bits[..|bits| - 1], bits[|bits| - 1];
      assert ShiftIn(bits) == Push(ShiftIn(init), last);
      ShiftStep(ShiftIn(init), last, j);
      if j > 0 {
        ShiftInBit(init, j - 1);
        assert j - 1 < |init| ==> init[|init| - 1 - (j - 1)] == bits[|bits| - 1 - j];
      }
    }
  }

  lemma ZeroHasNoBits(j: nat)
    requires j < 32
    ensures !Bit32(0, j)
  {
  }

  /** Two words with the same 32 bits are equal. */
  lemma BitsEqual(a: bv32, b: bv32)
    requires forall j :: 0 <= j < 32 ==> Bit32(a, j) == Bit32(b, j)
    ensures a == b
  {
    forall k: bv5
      ensures BitAt(a, k) == BitAt(b, k)
    {
      assert Bit32(a, k as int) == Bit32(b, k as int);
    }
    BitsEqualAt(a, b);
  }

  lemma BitsEqualAt(a: bv32, b: bv32)
    requires forall k: bv5 :: BitAt(a, k) == BitAt(b, k)
    ensures a == b
  {
    // one byte at a time keeps each bit-vector query small
    BitsEqualByte0(a, b);
    BitsEqualByte1(a, b);
    BitsEqualByte2(a, b);
    BitsEqualByte3(a, b);
    BytesAssemble(a, b);
  }

  lemma BytesAssemble(a: bv32, b: bv32)
    requires (a ^ b) & 0xFF == 0 && (a ^ b) & 0xFF00 == 0 && (a ^ b) & 0xFF0000 == 0 && (a ^ b) & 0xFF00_0000 == 0
    ensures a == b
  {
  }

  lemma BitsEqualByte0(a: bv32, b: bv32)
    requires BitAt(a, 0) == BitAt(b, 0) && BitAt(a, 1) == BitAt(b, 1) && BitAt(a, 2) == BitAt(b, 2) && BitAt(a, 3) == BitAt(b, 3)
      && BitAt(a, 4) == BitAt(b, 4) && BitAt(a, 5) == BitAt(b, 5) && BitAt(a, 6) == BitAt(b, 6) && BitAt(a, 7) == BitAt(b, 7)
    ensures (a ^ b) & 0xFF == 0
  {
  }

  lemma BitsEqualByte1(a: bv32, b: bv32)
    requires BitAt(a, 8) == BitAt(b, 8) && BitAt(a, 9) == BitAt(b, 9) && BitAt(a, 10) == BitAt(b, 10) && BitAt(a, 11) == BitAt(b, 11)
      && BitAt(a, 12) == BitAt(b, 12) && BitAt(a, 13) == BitAt(b, 13) && BitAt(a, 14) == BitAt(b, 14) && BitAt(a, 15) == BitAt(b, 15)
    ensures (a ^ b) & 0xFF00 == 0
  {
  }

  lemma BitsEqualByte2(a: bv32, b: bv32)
    requires BitAt(a, 16) == BitAt(b, 16) && BitAt(a, 17) == BitAt(b, 17) && BitAt(a, 18) == BitAt(b, 18) && BitAt(a, 19) == BitAt(b, 19)
      && BitAt(a, 20) == BitAt(b, 20) && BitAt(a, 21) == BitAt(b, 21) && BitAt(a, 22) == BitAt(b, 22) && BitAt(a, 23) == BitAt(b, 23)
    ensures (a ^ b) & 0xFF0000 == 0
  {
  }

  lemma BitsEqualByte3(a: bv32, b: bv32)
    requires BitAt(a, 24) == BitAt(b, 24) && BitAt(a, 25) == BitAt(b, 25) && BitAt(a, 26) == BitAt(b, 26) && BitAt(a, 27) == BitAt(b, 27)
      && BitAt(a, 28) == BitAt(b, 28) && BitAt(a, 29) == BitAt(b, 29) && BitAt(a, 30) == BitAt(b, 30) && BitAt(a, 31) == BitAt(b, 31)
    ensures (a ^ b) & 0xFF00_0000 == 0
  {
  }

  /** The word with bit `i` or-ed in (b) or and-ed out (!b) through the one-bit mask 1 << i. */
  function WithBit(v: bv32, i: nat, b: bool): bv32
    requires i < 32
  {
    WithBitAt(v, i as bv5, b)
  }

  function WithBitAt(v: bv32, k: bv5, b: bool): bv32
  {
    if b then v | ((1 as bv32) << k) else v & !((1 as bv32) << k)
  }

  /** A one-bit update below bit 24 leaves the top byte of the word alone. */
  lemma WithBitHigh(v: bv32, i: nat, b: bool)
    requires i < 24
    ensures WithBit(v, i, b) >> 24 == v >> 24
  {
    WithBitAtHigh(v, i as bv5, b);
  }

  lemma WithBitAtHigh(v: bv32, k: bv5, b: bool)
    requires k < 24
    ensures WithBitAt(v, k, b) >> 24 == v >> 24
  {
  }

  /** WithBit gives bit `i` the value `b` and keeps every other bit. */
  lemma WithBitBit(v: bv32, i: nat, b: bool, j: nat)
    requires i < 32 && j < 32
    ensures Bit32(WithBit(v, i, b), j) == if j == i then b else Bit32(v, j)
  {
    WithBitAtBit(v, i as bv5, b, j as bv5);
    WordBitAt(WithBit(v, i, b), v, i, b, j);
  }

  lemma WithBitAtBit(v: bv32, k: bv5, b: bool, j: bv5)
    ensures BitAt(WithBitAt(v, k, b), j) == if j == k then b else BitAt(v, j)
  {
    MaskedBit(v, WithBitAt(v, k, b), k, b, j);
  }

  /** The bit-vector form of a one-bit update, read back through integer positions. */
  lemma WordBitAt(r: bv32, v: bv32, i: nat, b: bool, j: nat)
    requires i < 32 && j < 32
    requires BitAt(r, j as bv5) == if j as bv5 == i as bv5 then b else BitAt(v, j as bv5)
    ensures Bit32(r, j) == if j == i then b else Bit32(v, j)
  {
    if j != i {
      CastInjective(i, j);
    }
  }

  /** Or-ing a word in sets exactly the bits set in either word. */
  lemma BitOr(v: bv32, m: bv32, i: nat)
    requires i < 32
    ensures Bit32(v | m, i) == (Bit32(v, i) || Bit32(m, i))
  {
    BitOrAt(v, m, i as bv5);
  }

  lemma BitOrAt(v: bv32, m: bv32, k: bv5)
    ensures BitAt(v | m, k) == (BitAt(v, k) || BitAt(m, k))
  {
  }

  /** And-ing with a complement clears exactly the bits of the complemented word. */
  lemma BitAndNot(v: bv32, m: bv32, i: nat)
    requires i < 32
    ensures Bit32(v & !m, i) == (Bit32(v, i) && !Bit32(m, i))
  {
    BitAndNotAt(v, m, i as bv5);
  }

  lemma BitAndNotAt(v: bv32, m: bv32, k: bv5)
    ensures BitAt(v & !m, k) == (BitAt(v, k) && !BitAt(m, k))
  {
  }

  /** Mask32(k) has bit k and no other bit set. */
  lemma MaskBit(k: nat, i: nat)
    requires k < 32 && i < 32
    ensures Bit32(Mask32(k), i) == (k == i)
  {
    MaskBitAt(k as bv5, i as bv5);
    if k != i {
      CastInjective(k, i);
    }
  }

  lemma MaskBitAt(k: bv5, j: bv5)
    ensures BitAt((1 as bv32) << k, j) == (k == j)
  {
  }
}
