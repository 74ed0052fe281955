/**
 The big-endian bit streams: the highest bit first, one byte at a time.
 */
module BigEndianBitStreams {
  import opened Basics
  import opened Powers
  import opened BitSequences

  /** The n lowest bits of a number, the highest of them first. */
  function HighFirst(x: nat, n: nat): (bits: seq<bool>)
    ensures |bits| == n
  {
    if n == 0 then [] else HighFirst(x / 2, n - 1) + [x % 2 == 1]
  }

  function BytesHighFirst(bytes: seq<Byte>): (bits: seq<bool>)
    ensures |bits| == 8 * |bytes|
  {
    if bytes == [] then [] else BytesHighFirst(bytes[..|bytes| - 1]) + HighFirst(bytes[|bytes| - 1], 8)
  }

  lemma BytesSnoc(bytes: seq<Byte>, b: Byte)
    ensures BytesHighFirst(bytes + [b]) == BytesHighFirst(bytes) + HighFirst(b, 8)
  {
    assert (bytes + [b])[..|bytes|] == bytes;
  }

  lemma {:induction false} BytesCons(b: Byte, bytes: seq<Byte>)
    ensures BytesHighFirst([b] + bytes) == HighFirst(b, 8) + BytesHighFirst(bytes)
    decreases |bytes|
  {
    hide HighFirst;
    var all := [b] + bytes;
    if bytes == [] {
      assert all == [b] && [b][..0] == [];
      assert BytesHighFirst([b]) == BytesHighFirst([]) + HighFirst(b, 8);
    } else {
      BytesCons(b, bytes[..|bytes| - 1]);
      assert all[..|all| - 1] == [b] + bytes[..|bytes| - 1];
    }
  }

  /** The bit at place i. */
  lemma {:induction false} HighFirstAt(x: nat, n: nat, i: nat)
    requires i < n
    ensures Pow(2, n - 1 - i) > 0
    ensures HighFirst(x, n)[i] == ((x / Pow(2, n - 1 - i)) % 2 == 1)
  {
    PowPositive(2, n - 1 - i);
    if i < n - 1 {
      HighFirstAt(x / 2, n - 1, i);
      PowPositive(2, n - 2 - i);
      DivTwice(x, Pow(2, n - 2 - i));
    }
  }

  lemma {:induction false} HighFirstInjective(x: nat, y: nat, n: nat)
    requires x < Pow(2, n) && y < Pow(2, n) && HighFirst(x, n) == HighFirst(y, n)
    ensures x == y
  {
    if n > 0 {
      var a, b := HighFirst(x / 2, n - 1), HighFirst(y / 2, n - 1);
      assert (a + [x % 2 == 1])[..n - 1] == a && (b + [y % 2 == 1])[..n - 1] == b;
      assert (a + [x % 2 == 1])[n - 1] == (b + [y % 2 == 1])[n - 1];
      HighFirstInjective(x / 2, y / 2, n - 1);
    }
  }

  /** One more bit at the low end. */
  lemma HighFirstSnoc(x: nat, n: nat, bit: nat)
    requires bit < 2 && x < Pow(2, n)
    ensures HighFirst(2 * x + bit, n + 1) == HighFirst(x, n) + [bit == 1] && 2 * x + bit < Pow(2, n + 1)
  {}

  /** Eight more bits at the low end. */
  lemma {:induction false} HighFirstAppend(x: nat, m: nat, y: nat, n: nat)
    requires y < Pow(2, n)
    ensures HighFirst(x * Pow(2, n) + y, m + n) == HighFirst(x, m) + HighFirst(y, n)
  {
    if n == 0 {
      assert HighFirst(x, m) + [] == HighFirst(x, m);
    } else {
      HighFirstAppend(x, m, y / 2, n - 1);
      var p := Pow(2, n - 1);
      Doubled(x, p);
      var whole := x * Pow(2, n) + y;
      assert whole == 2 * (x * p + y / 2) + y % 2;
      assert HighFirst(x, m) + (HighFirst(y / 2, n - 1) + [y % 2 == 1]) == HighFirst(x, m) + HighFirst(y / 2, n - 1) + [y % 2 == 1];
    }
  }

  lemma {:induction false} HighFirstZero(n: nat)
    ensures HighFirst(0, n) == Zeros(n)
  {
    if n > 0 {
      HighFirstZero(n - 1);
    }
  }

  class BigEndianOutputBitStream {
    var stream: seq<Byte>
    var currentByte: nat
    var bitOffset: nat

    /** Every bit written so far. */
    ghost var bits: seq<bool>

    ghost predicate Valid()
      reads this
    {
      bitOffset <= 7 && currentByte < Pow(2, bitOffset) && bits == BytesHighFirst(stream) + HighFirst(currentByte, bitOffset)
    }

    constructor ()
      ensures Valid() && bits == []
    {
      stream, currentByte, bitOffset, bits := [], 0, 0, [];
    }

    /**
     Appends the `count` low bits of a value of a type of `width` bits, the highest of them first. The value is shifted
     by less than the width of its type, or of int if that is wider.
     */
    method WriteBits(value: nat, count: nat, width: nat)
      requires Valid() && width in {8, 16, 32, 64} && value < Pow(2, width) && count <= Max(width, 32)
      modifies this
      ensures Valid() && bits == old(bits) + HighFirst(value, count)
    {
      hide Pow, HighFirst, BytesHighFirst;
      var bitCount := count;
      ghost var all := HighFirst(value, count);
      while bitCount > 0
        invariant 0 <= bitCount <= count && Valid() && bits == old(bits) + all[..count - bitCount]
      {
        HighFirstAt(value, count, count - bitCount);
        var nextBit := (value / Pow(2, bitCount - 1)) % 2;
        assert all[..count - (bitCount - 1)] == all[..count - bitCount] + [all[count - bitCount]];
        bitCount := bitCount - 1;
        WriteBit(nextBit);
      }
      assert all[..count] == all;
    }

    method WriteBit(nextBit: nat)
      requires Valid() && nextBit < 2
      modifies this
      ensures Valid() && bits == old(bits) + [nextBit == 1]
    {
      hide Pow, HighFirst, BytesHighFirst;
      HighFirstSnoc(currentByte, bitOffset, nextBit);
      ghost var before := BytesHighFirst(stream);
      assert before + (HighFirst(currentByte, bitOffset) + [nextBit == 1]) == bits + [nextBit == 1];
      currentByte := currentByte * 2 + nextBit;
      bitOffset := bitOffset + 1;
      bits := bits + [nextBit == 1];
      if bitOffset > 7 {
        TwoToTheEighth();
        BytesSnoc(stream, currentByte);
        NoBits();
        stream := stream + [currentByte];
        bitOffset := 0;
        currentByte := 0;
        assert BytesHighFirst(stream) + [] == BytesHighFirst(stream);
      }
    }

    lemma NoBits()
      ensures Pow(2, 0) == 1 && HighFirst(0, 0) == []
    {}

    /** Pads with clear bits to the next byte boundary. */
    method AlignToByteBoundary()
      requires Valid()
      modifies this
      ensures Valid() && bitOffset == 0 && bits == BytesHighFirst(stream)
      ensures |old(bits)| <= |bits| < |old(bits)| + 8 && bits == old(bits) + Zeros(|bits| - |old(bits)|)
    {
      hide Pow, HighFirst, BytesHighFirst;
      if bitOffset == 0 {
        AtBoundary();
        assert bits + Zeros(0) == bits;
        return;
      }
      WholeBytes();
      PowPositive(2, 32);
      HighFirstZero(8 - bitOffset);
      WriteBits(0, 8 - bitOffset, 32);
      WholeBytes();
      AtBoundary();
    }

    lemma WholeBytes()
      requires Valid()
      ensures |bits| == 8 * |stream| + bitOffset
    {}

    lemma AtBoundary()
      requires Valid() && bitOffset == 0
      ensures bits == BytesHighFirst(stream)
    {}
  }

  class BigEndianInputBitStream {
    /** The bytes still to come from the underlying stream. */
    var stream: seq<Byte>
    var currentByte: Option<Byte>
    var bitOffset: nat

    ghost predicate Valid()
      reads this
    {
      currentByte.Some? ==> bitOffset < 8
    }

    /** The bits not yet read. */
    ghost function Rest(): seq<bool>
      requires Valid()
      reads this
    {
      (if currentByte.Some? then HighFirst(currentByte.value, 8)[bitOffset..] else []) + BytesHighFirst(stream)
    }

    constructor (bytes: seq<Byte>)
      ensures Valid() && Rest() == BytesHighFirst(bytes)
    {
      stream, currentByte, bitOffset := bytes, None, 0;
    }

    /** Fetches the next byte when there is none at hand. */
    method Fetch() returns (ok: bool)
      requires Valid()
      modifies this
      ensures Valid() && Rest() == old(Rest()) && (ok ==> currentByte.Some?) && (!ok ==> Rest() == [])
      ensures |stream| <= |old(stream)|
    {
      hide HighFirst, BytesHighFirst;
      if currentByte == None {
        if |stream| == 0 {
          NothingLeft();
          return false;
        }
        BytesCons(stream[0], stream[1..]);
        assert stream == [stream[0]] + stream[1..];
        ghost var first := HighFirst(stream[0], 8);
        assert first[0..] == first;
        currentByte := Some(stream[0]);
        stream := stream[1..];
        bitOffset := 0;
      }
      return true;
    }

    lemma NothingLeft()
      requires Valid() && currentByte == None && stream == []
      ensures Rest() == []
    {}

    method TakeBit() returns (bit: nat)
      requires Valid() && currentByte.Some?
      modifies this
      ensures Valid() && bit < 2 && old(Rest()) == [bit == 1] + Rest()
    {
      hide Pow, HighFirst, BytesHighFirst;
      HighFirstAt(currentByte.value, 8, bitOffset);
      bit := (currentByte.value / Pow(2, 7 - bitOffset)) % 2;
      ghost var all := HighFirst(currentByte.value, 8);
      assert all[bitOffset..] == [all[bitOffset]] + all[bitOffset + 1..];
      if bitOffset == 7 {
        currentByte := None;
        assert all[8..] == [];
      }
      bitOffset := bitOffset + 1;
    }

    method TakeByte() returns (byte: Byte)
      requires Valid() && currentByte.Some? && bitOffset == 0
      modifies this
      ensures Valid() && old(Rest()) == HighFirst(byte, 8) + Rest()
    {
      hide HighFirst, BytesHighFirst;
      byte := currentByte.value;
      ghost var all := HighFirst(byte, 8);
      assert all[0..] == all;
      currentByte := None;
      assert [] + BytesHighFirst(stream) == BytesHighFirst(stream);
    }

    /** The next `count` bits as a number of at most 64 bits; whole bytes are taken at once where they stand so. */
    method ReadBits(count: nat) returns (result: Result<nat>)
      requires Valid() && count <= 64
      modifies this
      ensures Valid() && (result.Ok? <==> count <= |old(Rest())|)
      ensures result.Ok? ==>
                result.value < Pow(2, count) && HighFirst(result.value, count) == old(Rest())[..count] &&
                Rest() == old(Rest())[count..]
    {
      hide Pow, HighFirst, BytesHighFirst, Reading;
      ghost var all := Rest();
      var value: nat, nread := 0, 0;
      NoneRead();
      while nread < count
        invariant 0 <= nread <= count && Valid() && Reading(all, Rest(), value, nread)
      {
        var ok := Fetch();
        if !ok {
          AllRead(all, value, nread);
          return Error("Reached end-of-stream before collecting the required number of bits");
        }
        if count - nread >= 8 && bitOffset % 8 == 0 {
          value := ReadByte(all, value, nread);
          nread := nread + 8;
        } else {
          value := ReadBit(all, value, nread);
          nread := nread + 1;
        }
      }
      AllRead(all, value, nread);
      return Ok(value);
    }

    /** The first nread of all the bits have been read, as this value. */
    static ghost predicate Reading(all: seq<bool>, rest: seq<bool>, value: nat, nread: nat) {
      nread <= |all| && all == all[..nread] + rest && value < Pow(2, nread) && HighFirst(value, nread) == all[..nread]
    }

    lemma AllRead(all: seq<bool>, value: nat, nread: nat)
      requires Valid() && Reading(all, Rest(), value, nread)
      ensures nread <= |all| && Rest() == all[nread..] && value < Pow(2, nread) && HighFirst(value, nread) == all[..nread]
    {}

    method ReadByte(ghost all: seq<bool>, value0: nat, ghost nread: nat) returns (value: nat)
      requires Valid() && Reading(all, Rest(), value0, nread) && currentByte.Some? && bitOffset == 0
      modifies this
      ensures Valid() && Reading(all, Rest(), value, nread + 8)
    {
      hide Pow, HighFirst, BytesHighFirst;
      var byte := TakeByte();
      TwoToTheEighth();
      HighFirstAppend(value0, nread, byte, 8);
      Fits(value0, nread, byte);
      Prefix(all, nread, HighFirst(byte, 8), Rest());
      value := value0 * 256 + byte;
    }

    method ReadBit(ghost all: seq<bool>, value0: nat, ghost nread: nat) returns (value: nat)
      requires Valid() && Reading(all, Rest(), value0, nread) && currentByte.Some?
      modifies this
      ensures Valid() && Reading(all, Rest(), value, nread + 1)
    {
      hide Pow, HighFirst, BytesHighFirst;
      var bit := TakeBit();
      HighFirstSnoc(value0, nread, bit);
      Prefix(all, nread, [bit == 1], Rest());
      value := value0 * 2 + bit;
    }

    lemma NoneRead()
      requires Valid()
      ensures Reading(Rest(), Rest(), 0, 0)
    {
      assert Rest() == Rest()[..0] + Rest();
    }

    lemma Fits(value: nat, n: nat, byte: Byte)
      requires value < Pow(2, n)
      ensures value * 256 + byte < Pow(2, n + 8)
    {
      TwoToTheEighth();
      PowAdd(2, n, 8);
    }

    lemma Prefix(all: seq<bool>, n: nat, next: seq<bool>, rest: seq<bool>)
      requires n <= |all| && all == all[..n] + (next + rest)
      ensures n + |next| <= |all| && all[..n + |next|] == all[..n] + next && all == all[..n + |next|] + rest
    {
      assert all[..n] + (next + rest) == (all[..n] + next) + rest;
    }
  }

  // ----- Round trip -----

  ghost predicate Fit(fields: seq<Field>) {
    forall i :: 0 <= i < |fields| ==> fields[i].count <= 64 && fields[i].value < Pow(2, fields[i].count)
  }

  ghost function FieldBits(fields: seq<Field>): seq<bool> {
    if fields == [] then [] else FieldBits(fields[..|fields| - 1]) + HighFirst(fields[|fields| - 1].value, fields[|fields| - 1].count)
  }

  lemma {:induction false} FieldBitsCons(f: Field, fields: seq<Field>)
    ensures FieldBits([f] + fields) == HighFirst(f.value, f.count) + FieldBits(fields)
    decreases |fields|
  {
    hide HighFirst;
    var all := [f] + fields;
    if fields == [] {
      assert all == [f] && [f][..0] == [];
      assert FieldBits([f]) == FieldBits([]) + HighFirst(f.value, f.count);
    } else {
      FieldBitsCons(f, fields[..|fields| - 1]);
      assert all[..|all| - 1] == [f] + fields[..|fields| - 1];
    }
  }

  lemma FieldInWord(f: Field)
    requires f.count <= 64 && f.value < Pow(2, f.count)
    ensures f.value < Pow(2, 64)
  {
    PowMonotone(2, f.count, 64);
  }

  /** The bytes are the values packed highest bit first, and less than a byte of clear bits. */
  method WriteFields(fields: seq<Field>) returns (stream: seq<Byte>, ghost padding: nat)
    requires Fit(fields)
    ensures padding < 8 && BytesHighFirst(stream) == FieldBits(fields) + Zeros(padding)
  {
    hide Pow, HighFirst, BytesHighFirst;
    var output := new BigEndianOutputBitStream();
    for i := 0 to |fields|
      invariant output.Valid() && output.bits == FieldBits(fields[..i]) && fresh(output)
    {
      FieldInWord(fields[i]);
      output.WriteBits(fields[i].value, fields[i].count, 64);
      assert fields[..i + 1][..i] == fields[..i];
    }
    assert fields[..|fields|] == fields;
    output.AlignToByteBoundary();
    padding := |output.bits| - |FieldBits(fields)|;
    stream := output.stream;
  }

  lemma FieldsNext(fields: seq<Field>, i: nat, padding: seq<bool>, rest: seq<bool>)
    requires i < |fields| && rest == FieldBits(fields[i..]) + padding
    ensures fields[i].count <= |rest| && rest[..fields[i].count] == HighFirst(fields[i].value, fields[i].count)
    ensures rest[fields[i].count..] == FieldBits(fields[i + 1..]) + padding
  {
    hide HighFirst;
    var f := fields[i];
    assert fields[i..] == [f] + fields[i + 1..];
    FieldBitsCons(f, fields[i + 1..]);
    assert rest == HighFirst(f.value, f.count) + (FieldBits(fields[i + 1..]) + padding);
  }

  /** Reads values of these bit counts from a stream that starts with such fields. */
  method ReadFields(stream: seq<Byte>, counts: seq<nat>, ghost fields: seq<Field>, ghost padding: seq<bool>)
    returns (values: seq<nat>)
    requires |counts| == |fields| && forall i :: 0 <= i < |fields| ==> counts[i] == fields[i].count
    requires Fit(fields) && BytesHighFirst(stream) == FieldBits(fields) + padding
    ensures |values| == |fields| && forall i :: 0 <= i < |fields| ==> values[i] == fields[i].value
  {
    hide Pow, HighFirst, BytesHighFirst, FieldBits;
    var input := new BigEndianInputBitStream(stream);
    values := [];
    assert fields[0..] == fields;
    for i := 0 to |counts|
      invariant input.Valid() && fresh(input) && |values| == i && input.Rest() == FieldBits(fields[i..]) + padding
      invariant forall k :: 0 <= k < i ==> values[k] == fields[k].value
    {
      FieldsNext(fields, i, padding, input.Rest());
      var value := input.ReadBits(counts[i]);
      HighFirstInjective(value.value, fields[i].value, fields[i].count);
      values := values + [value.value];
    }
  }

  /** Values written with their bit counts, and aligned, are read back with the same counts. */
  method WriteAndReadBack(fields: seq<Field>) returns (values: seq<nat>)
    requires Fit(fields)
    ensures |values| == |fields| && forall i :: 0 <= i < |fields| ==> values[i] == fields[i].value
  {
    var stream;
    ghost var padding;
    stream, padding := WriteFields(fields);
    values := ReadFields(stream, seq(|fields|, i requires 0 <= i < |fields| => fields[i].count), fields, Zeros(padding));
  }
}
