/**
 The little-endian bit streams: a 64-bit buffer between values of any number of bits and a stream of bytes.
 */
module BitStreams {
  import opened Basics
  import opened Powers
  import opened Bits
  import opened BitSequences

  class LittleEndianOutputBitStream {
    /** The bytes that have reached the underlying stream. */
    var stream: seq<Byte>
    var bitBuffer: nat
    var bitCount: nat

    /** Every bit written so far. */
    ghost var bits: seq<bool>

    ghost predicate Valid()
      reads this
    {
      bitCount <= 64 && bitBuffer < Pow(2, bitCount) && bits == BytesBits(stream) + BitsOf(bitBuffer, bitCount)
    }

    constructor ()
      ensures Valid() && bits == [] && stream == []
    {
      stream, bitBuffer, bitCount, bits := [], 0, 0, [];
    }

    /** Whole bytes of the buffer go to the stream, the bits of the last, incomplete byte stay. */
    method FlushBufferToStream()
      requires Valid()
      modifies this
      ensures Valid() && bits == old(bits) && bitCount == old(bitCount) % 8
    {
      hide Pow, BitsOf, BytesBits, MemoryBytes;
      var bytesToWrite := bitCount / 8;
      ghost var all := BitsOf(bitBuffer, bitCount);
      MemoryBits(bitBuffer, bytesToWrite);
      BytesBitsJoin(stream, MemoryBytes(bitBuffer, bytesToWrite));
      ShiftedBits(bitBuffer, 8 * bytesToWrite, bitCount - 8 * bytesToWrite);
      BitsSplit(bitBuffer, 8 * bytesToWrite, bitCount - 8 * bytesToWrite);
      stream := stream + MemoryBytes(bitBuffer, bytesToWrite);
      if bitCount == 64 {
        bitBuffer, bitCount := 0, 0;
        EmptyBuffer();
      } else {
        var bitsWritten := bytesToWrite * 8;
        bitBuffer := ShiftRightWord(bitBuffer, bitsWritten);
        bitCount := bitCount - bitsWritten;
      }
      assert all == all[..8 * bytesToWrite] + all[8 * bytesToWrite..];
    }

    /** Appends the `count` low bits of a value of a type of `width` bits; the value must not have others. */
    method WriteBits(value0: nat, count0: nat, width: nat)
      requires Valid() && width in {8, 16, 32, 64} && count0 <= width && value0 < Pow(2, count0)
      modifies this
      ensures Valid() && bits == old(bits) + BitsOf(value0, count0)
    {
      hide Pow, BitsOf, BytesBits, LsbMask, Or, ShiftLeftWord, ShiftRightWord, And;
      var value, count := value0, count0;
      if bitCount == 64 {
        FlushBufferToStream();
      } else {
        var remaining := 64 - bitCount;
        if count >= remaining {
          FillBuffer(value, count, remaining);
          if remaining != width {
            ShiftedBits(value, remaining, count - remaining);
            value := ShiftRightWord(value, remaining);
          }
          count := count - remaining;
          ghost var low, high := BitsOf(value0, count0)[..remaining], BitsOf(value0, count0)[remaining..];
          assert BitsOf(value0, count0) == low + high;
          FlushBufferToStream();
        }
      }
      if count == 0 {
        return;
      }
      OrBits(64, bitBuffer, bitCount, value, count);
      bitBuffer := Or(bitBuffer, ShiftLeftWord(64, value, bitCount));
      bits := bits + BitsOf(value, count);
      bitCount := bitCount + count;
    }

    /** The low bits of the value fill the buffer up. */
    method FillBuffer(value: nat, count: nat, remaining: nat)
      requires Valid() && remaining == 64 - bitCount && remaining <= count && value < Pow(2, count)
      modifies this
      ensures Valid() && bitCount == 64 && stream == old(stream)
      ensures bits == old(bits) + BitsOf(value, count)[..remaining]
    {
      hide Pow, BitsOf, BytesBits, LsbMask, Or, ShiftLeftWord, And;
      MaskedBits(64, value, remaining, count);
      OrBits(64, bitBuffer, bitCount, And(value, LsbMask(64, remaining)), remaining);
      bitBuffer := Or(bitBuffer, ShiftLeftWord(64, And(value, LsbMask(64, remaining)), bitCount));
      bitCount := 64;
      bits := bits + BitsOf(value, count)[..remaining];
    }

    lemma EmptyBuffer()
      ensures 0 < Pow(2, 0) && BitsOf(0, 0) == []
    {}

    /** Pads with clear bits to the next byte boundary. */
    method AlignToByteBoundary()
      requires Valid()
      modifies this
      ensures Valid() && bitCount % 8 == 0 && |old(bits)| <= |bits| < |old(bits)| + 8
      ensures bits == old(bits) + Zeros(|bits| - |old(bits)|)
    {
      hide Pow, BitsOf, BytesBits;
      var offset := bitCount % 8;
      if offset != 0 {
        PowPositive(2, 8 - offset);
        BitsOfZero(8 - offset);
        WriteBits(0, 8 - offset, 8);
        ByteCount();
      }
    }

    lemma ByteCount()
      requires Valid()
      ensures |bits| == 8 * |stream| + bitCount
    {}

    /** After aligning and flushing, the stream's bytes are the bits written and up to seven clear ones. */
    method Finish()
      requires Valid()
      modifies this
      ensures Valid() && bits == BytesBits(stream) && bitCount == 0
      ensures exists n :: 0 <= n < 8 && BytesBits(stream) == old(bits) + Zeros(n)
    {
      hide Pow, BitsOf, BytesBits, Zeros;
      AlignToByteBoundary();
      ghost var n := |bits| - |old(bits)|;
      FlushBufferToStream();
      EmptyAfter();
      assert 0 <= n < 8 && BytesBits(stream) == old(bits) + Zeros(n);
    }

    lemma EmptyAfter()
      requires Valid() && bitCount == 0
      ensures bits == BytesBits(stream)
    {}
  }

  // ----- The refill loop -----

  /** The bits in the buffer, and the bytes still to come. */
  datatype Fill = Fill(bitCount: nat, left: nat)

  /** The most bytes that one round of the loop asks for. */
  function Asked(f: Fill): nat
    requires f.bitCount <= 64
  {
    (64 - f.bitCount) / 8
  }

  /** The loop goes on when bits are missing and the stream has not ended. */
  predicate GoesOn(count: nat, f: Fill) {
    f.bitCount < count && f.left > 0
  }

  /** One round: the stream gives some of the bytes asked for, at least one if any were asked for. */
  predicate IsRound(f: Fill, f': Fill) {
    f.bitCount <= 64 && f'.left <= f.left && f'.bitCount == f.bitCount + 8 * (f.left - f'.left) &&
    f.left - f'.left <= Asked(f) && (Asked(f) > 0 && f.left > 0 ==> f'.left < f.left)
  }

  /** Any number of rounds, with any number of bytes in each. */
  ghost predicate AreRounds(count: nat, fills: seq<Fill>) {
    fills != [] && forall i :: 0 <= i < |fills| - 1 ==> GoesOn(count, fills[i]) && IsRound(fills[i], fills[i + 1])
  }

  /** The loop goes on without asking for a byte, for ever. */
  predicate IsStuck(count: nat, f: Fill)
    requires f.bitCount <= 64
  {
    GoesOn(count, f) && Asked(f) == 0
  }

  /** Whole bytes that fit reach the count, or the stream ends before the buffer is full. */
  predicate CanRefill(f: Fill, count: nat)
    requires f.bitCount <= 64
  {
    count <= f.bitCount + 8 * Asked(f) || f.left <= Asked(f)
  }

  lemma SmallCountsCanBeRefilled(f: Fill, count: nat)
    requires f.bitCount <= 64 && count <= 57
    ensures CanRefill(f, count)
  {}

  lemma RoundKeeps(f: Fill, f': Fill, count: nat)
    requires IsRound(f, f')
    ensures f'.bitCount <= 64 && (CanRefill(f, count) <==> CanRefill(f', count))
  {}

  lemma {:induction false} RoundsKeep(fills: seq<Fill>, count: nat)
    requires AreRounds(count, fills) && fills[0].bitCount <= 64
    ensures fills[|fills| - 1].bitCount <= 64
    ensures CanRefill(fills[0], count) <==> CanRefill(fills[|fills| - 1], count)
  {
    if |fills| > 1 {
      RoundsKeep(fills[..|fills| - 1], count);
      RoundKeeps(fills[|fills| - 2], fills[|fills| - 1], count);
    }
  }

  /** No round leads to a state in which the loop is stuck if, and only if, the guard holds at the start. */
  lemma StuckUnlessCanRefill(f: Fill, count: nat)
    requires f.bitCount <= 64 && count <= 64
    ensures CanRefill(f, count) <==>
            forall fills: seq<Fill> :: AreRounds(count, fills) && fills[0] == f && fills[|fills| - 1].bitCount <= 64 ==>
                              !IsStuck(count, fills[|fills| - 1])
  {
    if CanRefill(f, count) {
      forall fills: seq<Fill> | AreRounds(count, fills) && fills[0] == f && fills[|fills| - 1].bitCount <= 64
        ensures !IsStuck(count, fills[|fills| - 1])
      {
        RoundsKeep(fills, count);
      }
    } else {
      var last := Fill(f.bitCount + 8 * Asked(f), f.left - Asked(f));
      assert Asked(last) == 0;
      var fills := if Asked(f) == 0 then [f] else [f, last];
      assert AreRounds(count, fills) && fills[0] == f && IsStuck(count, fills[|fills| - 1]);
    }
  }

  /** Nothing changes any more. */
  lemma StuckStays(f: Fill, f': Fill, count: nat)
    requires f.bitCount <= 64 && IsStuck(count, f) && IsRound(f, f')
    ensures f' == f
  {}

  /** For instance 60 bits, with one bit in the buffer and eight bytes to come, of which seven fit. */
  lemma StuckAtSixty()
    ensures !CanRefill(Fill(1, 8), 60)
    ensures AreRounds(60, [Fill(1, 8), Fill(57, 1)]) && IsStuck(60, Fill(57, 1))
  {}

  // ----- Shifting the buffer -----

  /** What shifting a 64-bit word right may give: the language defines it only for amounts below 64. */
  ghost predicate MayShift(x: nat, amount: nat, r: nat) {
    r < Pow(2, 64) && (amount < 64 ==> r == ShiftRightWord(x, amount))
  }

  /** r is the buffer without its n lowest bits. */
  ghost predicate Drops(buffer: nat, bitCount: nat, n: nat, r: nat)
    requires n <= bitCount
  {
    r < Pow(2, bitCount - n) && BitsOf(r, bitCount - n) == BitsOf(buffer, bitCount)[n..]
  }

  lemma ShiftDrops(buffer: nat, bitCount: nat, n: nat, r: nat)
    requires n <= bitCount <= 64 && n < 64 && buffer < Pow(2, bitCount) && MayShift(buffer, n, r)
    ensures Drops(buffer, bitCount, n, r)
  {
    hide Pow, BitsOf, ShiftRightWord;
    ShiftedBits(buffer, n, bitCount - n);
  }

  /** Dropping bits by a shift is right, whatever the machine does, if and only if they are fewer than 64. */
  lemma DropsIffBelowWidth(buffer: nat, bitCount: nat, n: nat)
    requires n <= bitCount <= 64 && buffer < Pow(2, bitCount)
    ensures n < 64 <==> forall r :: MayShift(buffer, n, r) ==> Drops(buffer, bitCount, n, r)
  {
    if n < 64 {
      forall r | MayShift(buffer, n, r) ensures Drops(buffer, bitCount, n, r) {
        ShiftDrops(buffer, bitCount, n, r);
      }
    } else {
      assert MayShift(buffer, n, 1) by {
        hide Pow;
        PowMonotone(2, 1, 64);
        PowStep(2, 0);
      }
      assert !Drops(buffer, bitCount, n, 1) by {
        assert Pow(2, 0) == 1;
      }
    }
  }

  /** Where the machine takes the amount modulo 64, a buffer of 64 bits that have all been read stays as it is. */
  function MaskedShift(x: nat, amount: nat): nat {
    ShiftRightWord(x, amount % 64)
  }

  lemma WordOfZeros(n: nat)
    ensures WordOf(seq(n, _ => 0)) == 0
  {
    if n > 0 {
      assert seq(n, _ => 0)[1..] == seq(n - 1, _ => 0);
      WordOfZeros(n - 1);
    }
  }

  /**
   The bytes 1, 0, 0, 0, 0, 0, 0, 0, 0: after 64 bits have been read on such a machine, the next eight bits are read as
   1, the first byte once more, while the ninth byte is 0.
   */
  lemma OldBitsComeBack()
    ensures var buffer := WordOf([1] + seq(7, _ => 0));
            var after := MaskedShift(buffer, 64);
            MayShift(buffer, 64, after) &&
            And(Or(after, ShiftLeftWord(64, WordOf([0]), 0)), LsbMask(64, 8)) == 1
  {
    hide Pow, LsbMask, And;
    var bytes := [1] + seq(7, _ => 0);
    assert bytes[1..] == seq(7, _ => 0);
    WordOfZeros(7);
    assert WordOf(bytes) == 1;
    assert [0][1..] == [];
    assert WordOf([0]) == 0;
    PowStep(2, 0);
    PowMonotone(2, 1, 64);
    PowPositive(2, 64);
    assert MaskedShift(1, 64) == 1;
    assert ShiftLeftWord(64, 0, 0) == 0 && Or(1, 0) == 1;
    MaskValue(64, 8);
    AndMask(1, 8);
    TwoToTheEighth();
  }

  datatype UnsatisfiableReadBehavior = Reject | FillWithZero

  class LittleEndianInputBitStream {
    const behavior: UnsatisfiableReadBehavior
    /** The bytes still to come from the underlying stream. */
    var stream: seq<Byte>
    var bitBuffer: nat
    var bitCount: nat

    ghost predicate Valid()
      reads this
    {
      bitCount <= 64 && bitBuffer < Pow(2, bitCount)
    }

    /** How far the buffer is filled, and what the stream has left. */
    ghost function Filled(): Fill
      reads this
    {
      Fill(bitCount, |stream|)
    }

    /** The bits not yet read. */
    ghost function Rest(): seq<bool>
      reads this
    {
      BitsOf(bitBuffer, bitCount) + BytesBits(stream)
    }

    constructor (bytes: seq<Byte>, behavior: UnsatisfiableReadBehavior)
      ensures Valid() && Rest() == BytesBits(bytes) && this.behavior == behavior && bitCount == 0
    {
      stream, bitBuffer, bitCount := bytes, 0, 0;
      this.behavior := behavior;
    }

    /** The underlying stream gives some bytes, at least one when it has any and at most as many as asked for. */
    method ReadSome(most: nat) returns (bytes: seq<Byte>)
      requires most > 0 && |stream| > 0
      modifies this`stream
      ensures 0 < |bytes| <= most && old(stream) == bytes + stream
    {
      assert 0 < 1 <= most && 1 <= |stream|;
      var n :| 0 < n && n <= most && n <= |stream|;
      bytes := stream[..n];
      stream := stream[n..];
    }

    /** Collects whole bytes until the buffer has the bits, or the stream has ended. */
    method RefillBufferFromStream(count: nat) returns (result: Result<()>)
      requires Valid() && count <= 64 && CanRefill(Filled(), count)
      modifies this`stream, this`bitBuffer, this`bitCount
      ensures Valid() && (result.Ok? ==> count <= bitCount)
      ensures result.Error? ==> behavior == Reject && |Rest()| < count && Rest() == old(Rest())
      ensures result.Ok? && count <= |old(Rest())| ==> Rest() == old(Rest())
      ensures result.Ok? && count > |old(Rest())| ==>
                behavior == FillWithZero && Rest() == old(Rest()) + Zeros(count - |old(Rest())|)
    {
      hide Pow, BitsOf, BytesBits, Zeros;
      while count > bitCount
        invariant Valid() && CanRefill(Filled(), count) && Rest() == old(Rest())
        decreases |stream|
      {
        if |stream| == 0 {
          if behavior == FillWithZero {
            NothingLeft();
            FillUp(count);
            return Ok(());
          }
          NothingLeft();
          return Error("Reached end-of-stream without collecting the required number of bits");
        }
        ghost var before := Filled();
        CollectBytes();
        RoundKeeps(before, Filled(), count);
      }
      EnoughLeft();
      return Ok(());
    }

    /** Puts the next bytes of the stream above the bits in the buffer. */
    method CollectBytes()
      requires Valid() && bitCount <= 56 && |stream| > 0
      modifies this`stream, this`bitBuffer, this`bitCount
      ensures Valid() && Rest() == old(Rest()) && |stream| < |old(stream)|
      ensures IsRound(old(Filled()), Filled())
    {
      hide Pow, BitsOf, BytesBits, Or, ShiftLeftWord, WordOf;
      var bitsToRead := 64 - bitCount;
      var bytesToRead := bitsToRead / 8;
      ghost var rest := BitsOf(bitBuffer, bitCount);
      var bytes := ReadSome(bytesToRead);
      BytesBitsJoin(bytes, stream);
      WordBits(bytes);
      OrBits(64, bitBuffer, bitCount, WordOf(bytes), 8 * |bytes|);
      bitBuffer := Or(bitBuffer, ShiftLeftWord(64, WordOf(bytes), bitCount));
      bitCount := bitCount + |bytes| * 8;
      assert (rest + BytesBits(bytes)) + BytesBits(stream) == rest + (BytesBits(bytes) + BytesBits(stream));
    }

    lemma NothingLeft()
      requires stream == []
      ensures Rest() == BitsOf(bitBuffer, bitCount)
    {}

    lemma EnoughLeft()
      ensures |Rest()| >= bitCount
    {}

    lemma BitsLeft()
      ensures |Rest()| == bitCount + 8 * |stream|
    {}

    /** The bits beyond the end of the stream read as clear. */
    method FillUp(count: nat)
      requires Valid() && stream == [] && bitCount < count <= 64
      modifies this`bitCount
      ensures Valid() && bitCount == count && Rest() == old(Rest()) + Zeros(count - old(bitCount))
    {
      hide Pow;
      PowPositive(2, count - bitCount);
      NumberFits(bitBuffer, bitCount, 0, count - bitCount);
      BitsAppend(bitBuffer, bitCount, 0, count - bitCount);
      BitsOfZero(count - bitCount);
      bitCount := count;
    }

    /** The next `count` bits, which stay unread. */
    method PeekBits(count: nat) returns (result: Result<nat>)
      requires Valid() && count <= 64 && CanRefill(Filled(), count)
      modifies this`stream, this`bitBuffer, this`bitCount
      ensures Valid()
      ensures result.Error? <==> behavior == Reject && |old(Rest())| < count
      ensures result.Error? ==> Rest() == old(Rest())
      ensures result.Ok? ==> count <= bitCount && result.value < Pow(2, count)
      ensures result.Ok? ==> Rest() == old(Rest()) + Zeros(if count <= |old(Rest())| then 0 else count - |old(Rest())|)
      ensures result.Ok? ==> count <= |Rest()| && BitsOf(result.value, count) == Rest()[..count]
    {
      hide Pow, BitsOf, BytesBits, LsbMask, And;
      assert Zeros(0) == [];
      assert Rest() + [] == Rest();
      EnoughLeft();
      if count > bitCount {
        var refilled := RefillBufferFromStream(count);
        if refilled.Error? {
          return Error(refilled.message);
        }
      }
      EnoughLeft();
      MaskedBits(64, bitBuffer, Min(count, bitCount), bitCount);
      return Ok(And(bitBuffer, LsbMask(64, Min(count, bitCount))));
    }

    /** The shift of the buffer; for amounts from 64 on any word may come out. */
    method ShiftBuffer(amount: nat) returns (r: nat)
      requires Valid()
      ensures MayShift(bitBuffer, amount, r)
    {
      hide Pow, ShiftRightWord;
      PowPositive(2, 64);
      PowMonotone(2, bitCount, 64);
      if amount < 64 {
        ShiftAtMost(bitBuffer, amount);
        return ShiftRightWord(bitBuffer, amount);
      }
      assert MayShift(bitBuffer, amount, 0);
      var any: nat :| any < Pow(2, 64);
      return any;
    }

    lemma ShiftAtMost(x: nat, amount: nat)
      ensures ShiftRightWord(x, amount) <= x
    {
      hide Pow;
      PowPositive(2, amount);
      QuotientAtMostDividend(x, Pow(2, amount));
    }

    lemma QuotientAtMostDividend(x: nat, d: nat)
      requires d > 0
      ensures x / d <= x
    {
      assert x / d <= x / d * d by {
        MulAtLeast(x / d, d);
      }
    }

    /** Drops bits of the buffer; all 64 of a full one cannot be dropped by the shift. */
    method DiscardPreviouslyPeekedBits(count0: nat)
      requires Valid()
      modifies this`bitBuffer, this`bitCount
      ensures bitCount == old(bitCount) - Min(count0, old(bitCount)) && bitBuffer < Pow(2, 64)
      ensures Min(count0, old(bitCount)) < 64 ==> Valid() && Rest() == old(Rest())[Min(count0, old(bitCount))..]
    {
      hide Pow, BitsOf, BytesBits, ShiftRightWord;
      var count := count0;
      if count > bitCount {
        count := bitCount;
      }
      var shifted := ShiftBuffer(count);
      if count < 64 {
        ShiftDrops(bitBuffer, bitCount, count, shifted);
      }
      bitBuffer := shifted;
      bitCount := bitCount - count;
    }

    /**
     Takes the next `count` bits as a number, the first bit the lowest. The number is right for every count; after a
     read of 64 bits what is left in the buffer is not known.
     */
    method ReadBits(count: nat) returns (result: Result<nat>)
      requires Valid() && count <= 64 && CanRefill(Filled(), count)
      modifies this`stream, this`bitBuffer, this`bitCount
      ensures result.Error? <==> behavior == Reject && |old(Rest())| < count
      ensures count < 64 || result.Error? ==> Valid()
      ensures result.Ok? ==> result.value < Pow(2, count)
      ensures result.Ok? && count <= |old(Rest())| ==>
                BitsOf(result.value, count) == old(Rest())[..count] && (count < 64 ==> Rest() == old(Rest())[count..])
      ensures result.Ok? && count > |old(Rest())| ==>
                BitsOf(result.value, count) == old(Rest()) + Zeros(count - |old(Rest())|) && (count < 64 ==> Rest() == [])
    {
      hide Pow, BitsOf, BytesBits, Zeros;
      assert Zeros(0) == [];
      ghost var rest := Rest();
      var value := PeekBits(count);
      if value.Error? {
        return value;
      }
      DiscardPreviouslyPeekedBits(count);
      return value;
    }
  }

  // ----- Round trip -----

  ghost predicate Fits(fields: seq<Field>) {
    forall i :: 0 <= i < |fields| ==> fields[i].count <= 64 && fields[i].value < Pow(2, fields[i].count)
  }

  /** How many bits the buffer can be filled to in whole bytes, told by the bits in the buffer and the stream together. */
  function Reach(remaining: nat): nat {
    if remaining % 8 == 0 then 64 else 56 + remaining % 8
  }

  /** Whether the buffer can be refilled depends on the bits not yet read alone, however the bytes have arrived. */
  lemma ReachDecides(f: Fill, count: nat)
    requires f.bitCount <= 64
    ensures var remaining := f.bitCount + 8 * f.left;
            CanRefill(f, count) <==> count <= Reach(remaining) || remaining <= Reach(remaining)
  {
    assert (f.bitCount + 8 * f.left) % 8 == f.bitCount % 8;
  }

  /**
   Reads of these counts can each be met by refilling the buffer, and what one of them leaves in the buffer is known to
   the next one.
   */
  predicate Readable(counts: seq<nat>, remaining: nat) {
    counts == [] ||
    (counts[0] <= remaining && (counts[0] <= Reach(remaining) || remaining <= Reach(remaining)) &&
     (counts[0] < 64 || (counts[0] == 64 && |counts| == 1)) && Readable(counts[1..], remaining - counts[0]))
  }

  function Total(counts: seq<nat>): nat {
    if counts == [] then 0 else counts[0] + Total(counts[1..])
  }

  /** The bits of a whole number of bytes. */
  function Padded(bits: nat): nat {
    (bits + 7) / 8 * 8
  }

  function Counts(fields: seq<Field>): (counts: seq<nat>)
    ensures |counts| == |fields|
  {
    seq(|fields|, i requires 0 <= i < |fields| => fields[i].count)
  }

  /** Reads of up to 57 bits each can always be met. */
  lemma {:induction false} SmallCountsReadable(counts: seq<nat>, remaining: nat)
    requires (forall i :: 0 <= i < |counts| ==> counts[i] <= 57) && Total(counts) <= remaining
    ensures Readable(counts, remaining)
  {
    if counts != [] {
      SmallCountsReadable(counts[1..], remaining - counts[0]);
    }
  }

  ghost function FieldBits(fields: seq<Field>): seq<bool> {
    if fields == [] then [] else BitsOf(fields[0].value, fields[0].count) + FieldBits(fields[1..])
  }

  lemma {:induction false} FieldBitsSnoc(fields: seq<Field>, f: Field)
    ensures FieldBits(fields + [f]) == FieldBits(fields) + BitsOf(f.value, f.count)
  {
    hide BitsOf;
    if fields == [] {
      assert fields + [f] == [f];
      assert FieldBits([f]) == BitsOf(f.value, f.count) + FieldBits([]);
    } else {
      FieldBitsSnoc(fields[1..], f);
      assert (fields + [f])[0] == fields[0] && (fields + [f])[1..] == fields[1..] + [f];
    }
  }

  method WriteFields(fields: seq<Field>) returns (stream: seq<Byte>, ghost padding: nat)
    requires Fits(fields)
    ensures padding < 8 && BytesBits(stream) == FieldBits(fields) + Zeros(padding)
  {
    hide Pow, BitsOf, BytesBits, Zeros;
    var output := new LittleEndianOutputBitStream();
    for i := 0 to |fields|
      invariant output.Valid() && output.bits == FieldBits(fields[..i]) && fresh(output)
    {
      output.WriteBits(fields[i].value, fields[i].count, 64);
      FieldBitsSnoc(fields[..i], fields[i]);
      assert fields[..i + 1] == fields[..i] + [fields[i]];
    }
    assert fields[..|fields|] == fields;
    output.Finish();
    padding :| 0 <= padding < 8 && BytesBits(output.stream) == FieldBits(fields) + Zeros(padding);
    stream := output.stream;
  }

  /** Seven bits, then sixty, then five: the second read finds one bit in the buffer and needs eight bytes, of which seven fit. */
  lemma SevenThenSixty()
    ensures Padded(Total([7, 60, 5])) == 72 && !Readable([7, 60, 5], 72) && Readable([7, 57], 64)
  {
    assert [7, 60, 5][1..] == [60, 5] && [60, 5][1..] == [5];
    assert Total([60, 5]) == 60 + Total([5]) && Total([5]) == 5;
    assert [7, 57][1..] == [57] && [57][1..] == [];
  }

  lemma {:induction false} FieldBitsLength(fields: seq<Field>)
    ensures |FieldBits(fields)| == Total(Counts(fields))
  {
    if fields != [] {
      assert Counts(fields)[1..] == Counts(fields[1..]);
      FieldBitsLength(fields[1..]);
    }
  }

  /** Reads values of these bit counts from a stream that starts with such fields. */
  method ReadFields(stream: seq<Byte>, counts: seq<nat>, ghost fields: seq<Field>, ghost padding: seq<bool>)
    returns (values: seq<nat>)
    requires counts == Counts(fields) && Readable(counts, 8 * |stream|)
    requires Fits(fields) && BytesBits(stream) == FieldBits(fields) + padding
    ensures |values| == |fields| && forall i :: 0 <= i < |fields| ==> values[i] == fields[i].value
  {
    hide Pow, BitsOf, BytesBits, FieldBits, CanRefill, Readable;
    var input := new LittleEndianInputBitStream(stream, Reject);
    values := [];
    assert fields[0..] == fields && counts[0..] == counts;
    input.BitsLeft();
    for i := 0 to |counts|
      invariant (i < |counts| ==> input.Valid()) && input.behavior == Reject && fresh(input) && |values| == i
      invariant i < |counts| ==> input.Rest() == FieldBits(fields[i..]) + padding
      invariant i < |counts| ==> Readable(counts[i..], input.bitCount + 8 * |input.stream|)
      invariant forall k :: 0 <= k < i ==> values[k] == fields[k].value
    {
      ReachDecides(input.Filled(), counts[i]);
      FirstReadable(counts, i, input.bitCount + 8 * |input.stream|);
      FieldBitsFirst(fields, i, padding, input.Rest());
      input.BitsLeft();
      var value := input.ReadBits(counts[i]);
      BitsInjective(value.value, fields[i].value, fields[i].count);
      values := values + [value.value];
      input.BitsLeft();
    }
  }

  lemma FirstReadable(counts: seq<nat>, i: nat, remaining: nat)
    requires i < |counts| && Readable(counts[i..], remaining)
    ensures counts[i] <= remaining && counts[i] <= 64 && (counts[i] <= Reach(remaining) || remaining <= Reach(remaining))
    ensures i + 1 < |counts| ==> counts[i] < 64 && Readable(counts[i + 1..], remaining - counts[i])
  {
    assert counts[i..][1..] == counts[i + 1..];
  }

  lemma PaddedLength(bits: nat, padding: nat, bytes: nat)
    requires padding < 8 && 8 * bytes == bits + padding
    ensures 8 * bytes == Padded(bits)
  {}

  /**
   Values written with their bit counts, aligned and flushed, are read back with the same counts whenever these reads
   can be met.
   */
  method WriteAndReadBack(fields: seq<Field>) returns (values: seq<nat>)
    requires Fits(fields) && Readable(Counts(fields), Padded(Total(Counts(fields))))
    ensures |values| == |fields| && forall i :: 0 <= i < |fields| ==> values[i] == fields[i].value
  {
    hide BytesBits, FieldBits, Readable, Counts, Total, Fits, Padded;
    var stream;
    ghost var padding;
    stream, padding := WriteFields(fields);
    FieldBitsLength(fields);
    assert |BytesBits(stream)| == 8 * |stream| && |Zeros(padding)| == padding;
    PaddedLength(Total(Counts(fields)), padding, |stream|);
    values := ReadFields(stream, Counts(fields), fields, Zeros(padding));
  }

  lemma FieldBitsFirst(fields: seq<Field>, i: nat, padding: seq<bool>, rest: seq<bool>)
    requires i < |fields| && rest == FieldBits(fields[i..]) + padding
    ensures fields[i].count <= |rest| && rest[..fields[i].count] == BitsOf(fields[i].value, fields[i].count)
    ensures rest[fields[i].count..] == FieldBits(fields[i + 1..]) + padding
  {
    hide BitsOf;
    var first := BitsOf(fields[i].value, fields[i].count);
    assert fields[i..][1..] == fields[i + 1..];
    assert rest == first + (FieldBits(fields[i + 1..]) + padding);
  }
}
