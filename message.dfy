/**
 * Message.java: the payload as a byte buffer with a bit cursor. The same class
 * is read bit by bit by the encoder (`nextBit`, most significant bit first)
 * and filled bit by bit by the decoder (`setNext`).
 */
module Messages {
  import opened BitUtility
  import opened Outcomes

  /**
   * Message.getBit: bit 0 of the sign-extended byte shifted right by
   * `pos % 8` (Java's remainder, then Java's shift count). Java's shift is
   * arithmetic, but for counts below 32 bit 0 of the result is the same
   * for either shift, so the bit is the one at that count.
   */
  function GetBit(data: bv8, pos: int): bool
  {
    var posBit := JavaRem(pos, 8);
    (SignExtend(data) >> ShiftIndex(posBit)) & 1 != 0
  }

  /** Sign extension keeps bits 0..7 of the byte. */
  lemma SignExtendLowBit(data: bv8, k: bv5)
    requires k < 8
    ensures BitAt(SignExtend(data), k) == BitAt(data as bv32, k)
  {
  }

  /** Shifting the sign-extended byte right by 0..7 and masking gives that bit of the byte. */
  lemma ShiftedByteBit(data: bv8, c: int)
    requires 0 <= c < 8
    ensures ((SignExtend(data) >> ShiftIndex(c)) & 1 == 1) == Bit8(data, c)
  {
    CastBack(c);
    SignExtendLowBit(data, c as bv5);
  }

  /** Every bit of a sign-extended byte above bit 7 is a copy of the sign bit. */
  lemma SignExtendHighBit(data: bv8, k: bv5)
    requires k >= 8
    ensures BitAt(SignExtend(data), k) == BitAt(data as bv32, 7)
  {
  }

  /**
   * getBit reads bit `pos % 8` for a non-negative position; for a negative
   * position that is not a multiple of 8 Java's remainder is negative, the
   * shift count wraps to 25..31 and the result is the sign bit (bit 7).
   */
  lemma GetBitMeaning(data: bv8, pos: int)
    ensures pos >= 0 ==> GetBit(data, pos) == Bit8(data, pos % 8)
    ensures pos < 0 && pos % 8 == 0 ==> GetBit(data, pos) == Bit8(data, 0)
    ensures pos < 0 && pos % 8 != 0 ==> GetBit(data, pos) == Bit8(data, 7)
  {
    JavaDivRem(pos, 8);
    var posBit := JavaRem(pos, 8);
    if posBit >= 0 {
      SignExtendLowBit(data, posBit as bv5);
      assert pos % 8 == posBit;
    } else {
      WrappedCount(posBit);
      SignExtendHighBit(data, ShiftIndex(posBit));
      assert pos % 8 != 0 by {
        assert pos == JavaDiv(pos, 8) * 8 + posBit;
      }
    }
  }

  /** A negative remainder -7..-1 becomes a shift count of 25..31. */
  lemma WrappedCount(p: int)
    requires -8 < p < 0
    ensures ShiftIndex(p) >= 8
  {
    CastBack(p % 32);
  }

  /** Reading back a bit that BitUtility.setBit has just set gives the value set. */
  lemma GetBitOfSetBit(data: bv8, pos: int, b: bool)
    requires 0 <= pos < 8
    ensures GetBit(SetBit(data, pos, b), pos) == b
  {
    SetBitEffect(data, pos, b);
    GetBitMeaning(SetBit(data, pos, b), pos);
  }

  /** Bit `i` of a byte stream read most significant bit first: bit 7 - i % 8 of byte i / 8. */
  function MessageBit(bytes: seq<bv8>, i: nat): bool
    requires i < 8 * |bytes|
  {
    Bit8(bytes[i / 8], 7 - i % 8)
  }

  /** Byte `i` assembled from bits 8i..8i+7 shifted in one after the other, as setNext does. */
  function PackByte(bits: seq<bool>, i: nat): bv8
    requires 8 * i + 8 <= |bits|
  {
    LowByte(ShiftIn(bits[8 * i..8 * i + 8]))
  }

  lemma LowByteBit(v: bv32, k: nat)
    requires k < 8
    ensures Bit8(LowByte(v), k) == Bit32(v, k)
  {
    CastBack(k);
    LowByteBitAt(v, k as bv5);
  }

  lemma LowByteBitAt(v: bv32, k: bv5)
    requires k < 8
    ensures BitAt(LowByte(v) as bv32, k) == BitAt(v, k)
  {
  }

  /** The assembled byte holds its eight bits most significant first. */
  lemma PackByteBit(bits: seq<bool>, i: nat, k: nat)
    requires 8 * i + 8 <= |bits| && k < 8
    ensures Bit8(PackByte(bits, i), k) == bits[8 * i + 7 - k]
  {
    var chunk := bits[8 * i..8 * i + 8];
    ShiftInBit(chunk, k);
    LowByteBit(ShiftIn(chunk), k);
  }

  /** Two bytes with the same 8 bits are equal. */
  lemma BytesEqual(a: bv8, b: bv8)
    requires forall k :: 0 <= k < 8 ==> Bit8(a, k) == Bit8(b, k)
    ensures a == b
  {
    BytesEqualBits(a, b);
  }

  lemma BytesEqualBits(a: bv8, b: bv8)
    requires Bit8(a, 0) == Bit8(b, 0) && Bit8(a, 1) == Bit8(b, 1) && Bit8(a, 2) == Bit8(b, 2) && Bit8(a, 3) == Bit8(b, 3) && Bit8(a, 4) == Bit8(b, 4) && Bit8(a, 5) == Bit8(b, 5) && Bit8(a, 6) == Bit8(b, 6) && Bit8(a, 7) == Bit8(b, 7)
    ensures a == b
  {
  }

  /**
   * Packing the bits of a byte stream read most significant bit first gives
   * the stream's bytes back: feeding every `nextBit` into `setNext`
   * reproduces the message.
   */
  lemma PackMessageBits(bytes: seq<bv8>, bits: seq<bool>, i: nat)
    requires i < |bytes| && 8 * i + 8 <= |bits|
    requires forall j :: 8 * i <= j < 8 * i + 8 ==> bits[j] == MessageBit(bytes, j)
    ensures PackByte(bits, i) == bytes[i]
  {
    forall k | 0 <= k < 8
      ensures Bit8(PackByte(bits, i), k) == Bit8(bytes[i], k)
    {
      PackByteBit(bits, i, k);
      var j := 8 * i + 7 - k;
      assert j / 8 == i && j % 8 == 7 - k;
    }
    BytesEqual(PackByte(bits, i), bytes[i]);
  }

  /** Shifting one more bit in: the accumulator moves up one place and takes the bit at position 0. */
  lemma ShiftInAppend(bits: seq<bool>, b: bool)
    ensures ShiftIn(bits + [b]) == Push(ShiftIn(bits), b)
  {
    assert (bits + [b])[..|bits|] == bits;
  }

  /** Once eight bits of byte `p` are in, the accumulator's low byte is that byte. */
  lemma CompletedByte(bits: seq<bool>, p: nat, acc: bv32)
    requires |bits| == 8 * p + 8 && acc == ShiftIn(bits[8 * p..])
    ensures LowByte(acc) == PackByte(bits, p)
  {
    assert bits[8 * p..8 * p + 8] == bits[8 * p..];
  }

  /** Appending a bit leaves every byte already complete unchanged. */
  lemma PackBytesStable(bits: seq<bool>, b: bool, n: nat)
    requires 8 * n <= |bits|
    ensures forall i :: 0 <= i < n ==> PackByte(bits + [b], i) == PackByte(bits, i)
  {
    forall i | 0 <= i < n
      ensures PackByte(bits + [b], i) == PackByte(bits, i)
    {
      assert (bits + [b])[8 * i..8 * i + 8] == bits[8 * i..8 * i + 8];
    }
  }

  /**
   * The byte in progress of a `setNext` stream over an `n`-byte buffer: before
   * the end, the `count` bits received since byte `pos` was started sit in
   * `acc`; once the buffer is full, eight more bits set `finished`.
   */
  ghost predicate Pending(n: int, pos: int, count: int, acc: bv32, finished: bool, bits: seq<bool>)
  {
    if finished then pos == n && count == 8 && |bits| == 8 * n + 8
    else 0 <= pos && 0 <= count < 8 && |bits| == 8 * pos + count && acc == ShiftIn(bits[8 * pos..])
  }

  /** The first `pos` bytes are the received bits packed eight at a time. */
  ghost predicate Packed(bytes: seq<bv8>, pos: int, bits: seq<bool>)
    requires 0 <= pos <= |bytes| && 8 * pos <= |bits|
  {
    forall i :: 0 <= i < pos ==> bytes[i] == PackByte(bits, i)
  }

  /** The bytes from `pos` on are still zero. */
  ghost predicate Blank(bytes: seq<bv8>, pos: int)
    requires 0 <= pos <= |bytes|
  {
    forall i :: pos <= i < |bytes| ==> bytes[i] == 0
  }

  /** The buffer `bytes` after `setNext` has received `bits`. */
  ghost predicate Filled(bytes: seq<bv8>, pos: int, count: int, acc: bv32, finished: bool, bits: seq<bool>)
  {
    0 <= pos <= |bytes| && Pending(|bytes|, pos, count, acc, finished, bits) &&
    Packed(bytes, pos, bits) && Blank(bytes, pos)
  }

  /**
   * Once eight bits for each of the first `m` bytes have been received, those
   * bytes are packed from their eight bits and the rest of the buffer is
   * still zero.
   */
  lemma FilledPrefix(bytes: seq<bv8>, pos: int, count: int, acc: bv32, finished: bool, bits: seq<bool>, m: nat)
    requires Filled(bytes, pos, count, acc, finished, bits) && |bits| == 8 * m && m <= |bytes|
    ensures pos == m && count == 0 && !finished
    ensures forall i :: 0 <= i < m ==> bytes[i] == PackByte(bits, i)
    ensures forall i :: m <= i < |bytes| ==> bytes[i] == 0
  {
  }

  /** A bit that does not complete a byte joins the accumulator. */
  lemma PendingStep(n: int, pos: int, count: int, acc: bv32, bits: seq<bool>, b: bool)
    requires Pending(n, pos, count, acc, false, bits) && count + 1 < 8
    ensures Pending(n, pos, count + 1, Push(acc, b), false, bits + [b])
  {
    AppendKeepsPending(bits, b, pos);
  }

  /** Receiving a bit leaves the bytes already complete unchanged. */
  lemma PackedStep(bytes: seq<bv8>, pos: int, bits: seq<bool>, b: bool)
    requires 0 <= pos <= |bytes| && 8 * pos <= |bits| && Packed(bytes, pos, bits)
    ensures Packed(bytes, pos, bits + [b])
  {
    PackBytesStable(bits, b, pos);
  }

  /** Storing the completed byte `pos` extends the packed prefix by one. */
  lemma PackedExtend(bytes: seq<bv8>, pos: int, bits: seq<bool>, x: bv8)
    requires 0 <= pos < |bytes| && 8 * pos + 8 <= |bits| && Packed(bytes, pos, bits) && x == PackByte(bits, pos)
    ensures Packed(bytes[pos := x], pos + 1, bits)
  {
  }

  /** Storing byte `pos` leaves the bytes after it zero. */
  lemma BlankShrink(bytes: seq<bv8>, pos: int, x: bv8)
    requires 0 <= pos < |bytes| && Blank(bytes, pos)
    ensures Blank(bytes[pos := x], pos + 1)
  {
  }

  /** A bit that does not complete a byte joins the accumulator. */
  lemma AcceptBit(bytes: seq<bv8>, pos: int, count: int, acc: bv32, bits: seq<bool>, b: bool)
    requires Filled(bytes, pos, count, acc, false, bits) && count + 1 < 8
    ensures Filled(bytes, pos, count + 1, Push(acc, b), false, bits + [b])
  {
    PendingStep(|bytes|, pos, count, acc, bits, b);
    PackedStep(bytes, pos, bits, b);
  }

  /** The eighth bit of a byte completes it: the byte is stored and the accumulator restarts. */
  lemma AcceptLastBit(bytes: seq<bv8>, pos: int, acc: bv32, bits: seq<bool>, b: bool)
    requires Filled(bytes, pos, 7, acc, false, bits) && pos < |bytes|
    ensures Filled(bytes[pos := LowByte(Push(acc, b))], pos + 1, 0, 0, false, bits + [b])
  {
    var bits' := bits + [b];
    var acc' := Push(acc, b);
    AppendKeepsPending(bits, b, pos);
    PackedStep(bytes, pos, bits, b);
    CompletedByte(bits', pos, acc');
    PackedExtend(bytes, pos, bits', LowByte(acc'));
    BlankShrink(bytes, pos, LowByte(acc'));
    assert bits'[8 * (pos + 1)..] == [];
  }

  /** With the buffer full, the eighth extra bit finishes the stream. */
  lemma AcceptFinalBit(bytes: seq<bv8>, acc: bv32, bits: seq<bool>, b: bool)
    requires Filled(bytes, |bytes|, 7, acc, false, bits)
    ensures Filled(bytes, |bytes|, 8, Push(acc, b), true, bits + [b])
  {
    PackedStep(bytes, |bytes|, bits, b);
  }

  lemma AppendKeepsPending(bits: seq<bool>, b: bool, pos: nat)
    requires 8 * pos <= |bits|
    ensures (bits + [b])[8 * pos..] == bits[8 * pos..] + [b]
    ensures ShiftIn((bits + [b])[8 * pos..]) == Push(ShiftIn(bits[8 * pos..]), b)
  {
    assert (bits + [b])[8 * pos..] == bits[8 * pos..] + [b];
    ShiftInAppend(bits[8 * pos..], b);
  }

  /**
   * A message. `msg` is the byte buffer (aliased, never replaced), `size` its
   * length fixed at construction; `count`, `buffer0` (the one-byte `buffer`),
   * `ibuffer`, `pos` and `finished` are the cursor of the source.
   * `received` is the ghost record of the bits given to `setNext`.
   */
  class Message {
    const msg: array<bv8>
    const size: int
    var count: int
    var buffer0: bv8
    var ibuffer: bv32
    var finished: bool
    var pos: int
    ghost var received: seq<bool>

    /** The state from which `nextBit` reads the buffer. */
    ghost predicate Reading()
      reads this, msg
    {
      msg.Length == size && 0 < size &&
      if finished then pos == size && count == 0
      else 0 <= pos < size && 1 <= count <= 8 && buffer0 == msg[pos]
    }

    /** How many bits `nextBit` has handed out. */
    ghost function BitsRead(): nat
      reads this, msg
      requires Reading()
    {
      if finished then 8 * size else 8 * pos + (8 - count)
    }

    /** The state in which `setNext` fills the buffer from its start. */
    ghost predicate Writing()
      reads this, msg
    {
      msg.Length == size && Filled(msg[..], pos, count, ibuffer, finished, received)
    }

    /** Message(String): the file's bytes, with the first byte loaded and 8 bits left in it. */
    constructor FromFile(content: seq<bv8>)
      requires |content| > 0
      ensures fresh(msg) && msg[..] == content && size == |content|
      ensures Reading() && BitsRead() == 0
    {
      count := 8;
      msg := new bv8[|content|](i requires 0 <= i < |content| => content[i]);
      size := |content|;
      buffer0 := content[0];
      ibuffer := 0;
      finished := false;
      pos := 0;
      received := [];
    }

    /** Message(int): a zeroed buffer of `bufferSize` bytes to be filled by `setNext`. */
    constructor WithBufferSize(bufferSize: nat)
      ensures fresh(msg) && size == bufferSize
      ensures Writing() && received == []
    {
      count := 0;
      size := bufferSize;
      msg := new bv8[bufferSize](_ => 0);
      buffer0 := 0;
      ibuffer := 0;
      finished := false;
      pos := 0;
      received := [];
    }

    /** Message(byte[]): shares `content`; the cursor is left at count 0, so `prepareMessage` must come before `nextBit`. */
    constructor FromBytes(content: array<bv8>)
      ensures msg == content && size == content.Length
      ensures count == 0 && pos == 0 && !finished && buffer0 == 0 && ibuffer == 0
    {
      count := 0;
      size := content.Length;
      msg := content;
      buffer0 := 0;
      ibuffer := 0;
      finished := false;
      pos := 0;
      received := [];
    }

    /** getSize. */
    function GetSize(): (r: int)
      reads this
      ensures r == size
    {
      size
    }

    /** isFinished. */
    function IsFinished(): (r: bool)
      reads this
      ensures r == finished
    {
      finished
    }

    /** prepareMessage: rewinds the reading cursor to the first bit of the first byte. */
    method PrepareMessage()
      requires msg.Length == size && size > 0
      modifies this
      ensures Reading() && BitsRead() == 0
      ensures received == old(received)
    {
      finished := false;
      buffer0 := msg[0];
      ibuffer := 0;
      pos := 0;
      count := 8;
    }

    /**
     * nextBit: the next bit of the buffer, most significant bit of each byte
     * first; `finished` is set together with the last bit, and a call after
     * that fails and changes nothing.
     */
    method NextBit() returns (r: Result<bool>)
      requires Reading()
      modifies this
      ensures Reading() && received == old(received)
      ensures old(finished) ==> r == Err(StreamFinished) && unchanged(this)
      ensures !old(finished) ==> r == Ok(MessageBit(msg[..], old(BitsRead()))) && BitsRead() == old(BitsRead()) + 1
      ensures finished <==> BitsRead() == 8 * size
    {
      if finished {
        return Err(StreamFinished);
      }
      ghost var k := BitsRead();
      assert k / 8 == pos && 7 - k % 8 == count - 1;
      count := count - 1;
      ShiftedByteBit(buffer0, count);
      var bit := (SignExtend(buffer0) >> ShiftIndex(count)) & 1 == 1;
      if count == 0 {
        pos := pos + 1;
        if pos < msg.Length {
          buffer0 := msg[pos];
          count := 8;
        } else {
          finished := true;
        }
      }
      return Ok(bit);
    }

    /**
     * setNext: shifts the bit into `ibuffer` and stores the byte once eight
     * bits are in. When the buffer is already full the eighth extra bit sets
     * `finished` instead of storing; a call after that fails and changes nothing.
     */
    method SetNext(bit: bool) returns (r: Outcome)
      requires Writing()
      modifies this, msg
      ensures Writing()
      ensures old(finished) ==> r == Fail(StreamFinished) && unchanged(this) && unchanged(msg)
      ensures !old(finished) ==> r == Pass && received == old(received) + [bit]
      ensures finished <==> |received| == 8 * size + 8
    {
      if finished {
        return Fail(StreamFinished);
      }
      if count + 1 < 8 {
        AcceptBit(msg[..], pos, count, ibuffer, received, bit);
      } else if pos < msg.Length {
        AcceptLastBit(msg[..], pos, ibuffer, received, bit);
      } else {
        AcceptFinalBit(msg[..], ibuffer, received, bit);
      }
      received := received + [bit];
      ibuffer := Push(ibuffer, bit);
      count := count + 1;
      if count == 8 {
        if pos < msg.Length {
          msg[pos] := LowByte(ibuffer);
          pos := pos + 1;
          count := 0;
          ibuffer := 0;
        } else {
          finished := true;
        }
      }
      return Pass;
    }
  }
}
