/**
 * The 32-bit size prefix that LsbImpl.encode writes before the payload and
 * that decode reads back and checks.
 */
module Frame {
  import opened BitUtility

  function Pow2(k: nat): (p: nat)
    ensures p >= 1
  {
    if k == 0 then 1 else 2 * Pow2(k - 1)
  }

  /** Bit `i` of a non-negative Java int, `(n >> i) & 1`: `i` halvings, then the parity. */
  function IntBit(n: nat, i: nat): bool
  {
    if i == 0 then n % 2 == 1 else IntBit(n / 2, i - 1)
  }

  /** The unsigned value of bits given from bit 0 up. */
  function UnsignedOf(bits: seq<bool>): nat
  {
    if bits == [] then 0 else (if bits[0] then 1 else 0) + 2 * UnsignedOf(bits[1..])
  }

  /** The Java int whose two's complement bits are `w`: bit 31 weighs -2^31. */
  function JavaInt(w: bv32): int
  {
    UnsignedOf(LowFirst(w)) - (if Bit32(w, 31) then 0x1_0000_0000 else 0)
  }

  /** Java's int arithmetic: the value modulo 2^32, read back as a signed int. */
  function Wrap32(x: int): (r: int)
    ensures -0x8000_0000 <= r < 0x8000_0000
    ensures (r - x) % 0x1_0000_0000 == 0
  {
    (x + 0x8000_0000) % 0x1_0000_0000 - 0x8000_0000
  }

  /** encode's prefix: `(messagesize >> i) & 1` at counter `i`, for i = 0..31. */
  function SizePrefix(size: nat): (p: seq<bool>)
    ensures |p| == 32
  {
    seq(32, i requires 0 <= i < 32 => IntBit(size, i))
  }

  /** The bits of a word from bit 0 up: what decode's reversal loop shifts in, `(size >> j) & 1` for j = 0..31. */
  function LowFirst(w: bv32): (p: seq<bool>)
    ensures |p| == 32
  {
    seq(32, j requires 0 <= j < 32 => Bit32(w, j))
  }

  /**
   * decode shifts the 32 prefix bits in (the first one ends up as bit 31)
   * and then shifts them in again from bit 0 up, which puts the bit read
   * at counter j at bit j: the word encode wrote.
   */
  lemma PrefixRecovered(prefix: seq<bool>)
    requires |prefix| == 32
    ensures LowFirst(ShiftIn(LowFirst(ShiftIn(prefix)))) == prefix
  {
    forall j | 0 <= j < 32
      ensures Bit32(ShiftIn(LowFirst(ShiftIn(prefix))), j) == prefix[j]
    {
      ShiftInBit(LowFirst(ShiftIn(prefix)), j);
      ShiftInBit(prefix, 31 - j);
    }
  }

  /** Halving, then reducing modulo m, is reducing modulo 2m and halving. */
  lemma ModDouble(n: nat, m: nat)
    requires m > 0
    ensures n % (2 * m) == n % 2 + 2 * ((n / 2) % m)
  {
    var h, q, r := n / 2, (n / 2) / m, (n / 2) % m;
    assert n == 2 * h + n % 2;
    assert h == q * m + r;
    assert n == q * (2 * m) + (2 * r + n % 2);
    DivModUniqueNat(n, 2 * m, q, 2 * r + n % 2);
  }

  lemma DivModUniqueNat(a: int, b: int, q: int, r: int)
    requires b > 0 && 0 <= r < b && a == q * b + r
    ensures a % b == r
  {
    var q', r' := a / b, a % b;
    assert (q - q') * b == r' - r;
    if q - q' >= 1 {
      assert (q - q') * b >= b by { MulAtLeast(q - q', b); }
    } else if q - q' <= -1 {
      assert (q' - q) * b >= b by { MulAtLeast(q' - q, b); }
    }
  }

  lemma MulAtLeast(d: int, b: int)
    requires d >= 1 && b >= 0
    ensures d * b >= b
  {
    assert d * b == b + (d - 1) * b;
  }

  /** The first k bits of n, read back, are n modulo 2^k. */
  lemma {:induction false} UnsignedOfBits(n: nat, k: nat)
    ensures UnsignedOf(seq(k, i requires 0 <= i < k => IntBit(n, i))) == n % Pow2(k)
  {
    var bits := seq(k, i requires 0 <= i < k => IntBit(n, i));
    if k > 0 {
      var rest := seq(k - 1, i requires 0 <= i < k - 1 => IntBit(n / 2, i));
      assert bits[1..] == rest;
      UnsignedOfBits(n / 2, k - 1);
      ModDouble(n, Pow2(k - 1));
    }
  }

  /** A non-negative int below 2^k has no bit k. */
  lemma {:induction false} HighBitClear(n: nat, k: nat)
    requires n < Pow2(k)
    ensures !IntBit(n, k)
  {
    if k > 0 {
      HighBitClear(n / 2, k - 1);
    }
  }

  /** decode recovers the size encode wrote. */
  lemma SizeRoundTrip(size: nat)
    requires size < 0x8000_0000
    ensures JavaInt(ShiftIn(LowFirst(ShiftIn(SizePrefix(size))))) == size
  {
    var w := ShiftIn(LowFirst(ShiftIn(SizePrefix(size))));
    PrefixRecovered(SizePrefix(size));
    JavaIntOfPrefix(w, size);
  }

  /** A word whose bits are a size's prefix is that size. */
  lemma JavaIntOfPrefix(w: bv32, size: nat)
    requires size < 0x8000_0000 && LowFirst(w) == SizePrefix(size)
    ensures JavaInt(w) == size
  {
    Pow2Word();
    UnsignedOfBits(size, 32);
    HighBitClear(size, 31);
    assert LowFirst(w)[31] == SizePrefix(size)[31];
  }

  lemma {:induction false} Pow2Add(a: nat, b: nat)
    ensures Pow2(a + b) == Pow2(a) * Pow2(b)
  {
    if a > 0 {
      Pow2Add(a - 1, b);
    }
  }

  lemma Pow2Word()
    ensures Pow2(31) == 0x8000_0000 && Pow2(32) == 0x1_0000_0000
  {
    assert Pow2(4) == 16;
    Pow2Add(4, 4);
    Pow2Add(8, 8);
    Pow2Add(16, 16);
  }

  /**
   * decode's first size check as the source writes it: `size2 * 8 + 32 >
   * maxBits` in Java int arithmetic, where the product and the sum wrap.
   */
  predicate SizeRejectedAsWritten(size2: int, maxBits: int)
  {
    Wrap32(Wrap32(size2 * 8) + 32) > maxBits
  }

  /** The check as intended: the prefix and the payload must fit in maxBits. */
  predicate SizeRejected(size2: int, maxBits: int)
  {
    size2 * 8 + 32 > maxBits
  }

  /**
   * A recovered size of 0x2000_0001 on an image of 48 bits (4 x 4 pixels,
   * three layers, one bit per layer) passes the check as written, since
   * size2 * 8 wraps to 8, and decode then reads 8 payload bits into a buffer
   * of 0x2000_0001 bytes; the intended check rejects it.
   */
  lemma WrappedSizeAccepted()
    ensures !SizeRejectedAsWritten(0x2000_0001, 48)
    ensures Wrap32(0x2000_0001 * 8) == 8
    ensures SizeRejected(0x2000_0001, 48)
  {
  }

  /**
   * Two more sizes on which the wrapping checks part from the intended one:
   * 0x1000_0000 passes the first check, and its bit count wraps to -2^31,
   * which the second check calls "bigger than supposed"; -0x1800_0000 has a
   * bit count that wraps to 2^30, so the first check rejects it as a wrong
   * size, where the intended check lets it through to fail as negative.
   */
  lemma WrappedSizeOutcomes()
    ensures !SizeRejectedAsWritten(0x1000_0000, 48) && Wrap32(0x1000_0000 * 8) == -0x8000_0000
    ensures SizeRejected(0x1000_0000, 48)
    ensures SizeRejectedAsWritten(-0x1800_0000, 48) && Wrap32(-0x1800_0000 * 8) == 0x4000_0000
    ensures !SizeRejected(-0x1800_0000, 48)
  {
  }

  /**
   * Once both of decode's size checks as written have passed (the wrapped
   * frame length is within maxBits, and the wrapped bit count is neither
   * negative nor past the image), the bit count is a whole number of bytes,
   * at most the buffer's 8 * size2 bits, and fits after the prefix.
   */
  lemma AcceptedPayload(size2: int, maxBits: int)
    requires 0 <= size2 && 0 <= maxBits < 0x7FFF_FFE0
    requires !SizeRejectedAsWritten(size2, maxBits) && 0 <= Wrap32(size2 * 8) < maxBits
    ensures var n := Wrap32(size2 * 8); n % 8 == 0 && n <= 8 * size2 && 32 + n <= maxBits
  {
    var n := Wrap32(size2 * 8);
    var q := (size2 * 8 + 0x8000_0000) / 0x1_0000_0000;
    assert n == size2 * 8 - q * 0x1_0000_0000;
    assert q >= 0;
    assert n == 8 * (size2 - q * 0x2000_0000);
    DivModUniqueNat(n, 8, size2 - q * 0x2000_0000, 0);
    assert Wrap32(n + 32) == n + 32;
  }

  /**
   * For sizes the intended check accepts on an image of fewer than 2^31
   * bits, nothing wraps: the check as written agrees, and the payload is
   * 8 * size2 bits, which fit after the prefix.
   */
  lemma IntendedCheckAgrees(size2: int, maxBits: int)
    requires 0 <= size2 && 0 <= maxBits < 0x8000_0000 && !SizeRejected(size2, maxBits)
    ensures !SizeRejectedAsWritten(size2, maxBits)
    ensures Wrap32(size2 * 8) == size2 * 8 && 32 + 8 * size2 <= maxBits
  {
  }
}
