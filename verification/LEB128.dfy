/**
 Integers of 8, 16, 32 or 64 bits in groups of seven bits, the lowest group first (section 7.6 of DWARF
 Version 5): what the readers accept, and that they undo the writers.
 */
module LEB128 {
  import opened Basics
  import opened Powers
  import opened Bits
  import opened BitSequences

  datatype Outcome = Read(value: int, consumed: nat) | Failed(message: string)

  predicate IsWidth(w: nat) {
    w in {8, 16, 32, 64}
  }

  /** The number of groups a value of w bits may take. */
  function MaximumLength(w: nat): nat {
    (w + 6) / 7
  }

  /** The first n bytes are one encoding: all but the last announce more. */
  ghost predicate Terminated(stream: seq<Byte>, n: nat) {
    1 <= n <= |stream| && stream[n - 1] < 128 && forall i :: 0 <= i < n - 1 ==> stream[i] >= 128
  }

  lemma TerminatedOnce(stream: seq<Byte>, m: nat, n: nat)
    requires Terminated(stream, m) && Terminated(stream, n)
    ensures m == n
  {}

  /** The groups of seven bits put together. */
  function Payload(bytes: seq<Byte>): nat {
    if bytes == [] then 0 else bytes[0] % 128 + 128 * Payload(bytes[1..])
  }

  lemma TwoToTheSeventh()
    ensures Pow(2, 7) == 128
  {
    PowStep(2, 0);
    PowStep(2, 1);
    PowStep(2, 2);
    PowStep(2, 3);
    PowStep(2, 4);
    PowStep(2, 5);
    PowStep(2, 6);
  }

  lemma PowSeven(k: nat)
    ensures Pow(2, 7 * (k + 1)) == 128 * Pow(2, 7 * k)
  {
    hide Pow;
    TwoToTheSeventh();
    PowAdd(2, 7, 7 * k);
  }

  lemma {:induction false} PayloadFits(bytes: seq<Byte>)
    ensures Payload(bytes) < Pow(2, 7 * |bytes|)
  {
    hide Pow;
    if bytes == [] {
      PowStep(2, 0);
    } else {
      PayloadFits(bytes[1..]);
      PowSeven(|bytes| - 1);
    }
  }

  lemma {:induction false} PayloadSnoc(bytes: seq<Byte>, b: Byte)
    ensures Payload(bytes + [b]) == Payload(bytes) + (b % 128) * Pow(2, 7 * |bytes|)
  {
    hide Pow;
    if bytes == [] {
      PowStep(2, 0);
      assert [b][1..] == [] && [] + [b] == [b];
      assert Payload([b]) == b % 128 + 128 * Payload([]);
    } else {
      PayloadSnoc(bytes[1..], b);
      PowSeven(|bytes| - 1);
      assert (bytes + [b])[0] == bytes[0] && (bytes + [b])[1..] == bytes[1..] + [b];
      Scale(128, b % 128, Pow(2, 7 * (|bytes| - 1)));
    }
  }

  lemma Scale(p: int, x: int, y: int)
    ensures p * (x * y) == x * (p * y)
  {}

  // ----- Unsigned -----

  /** The bytes the writer emits. */
  function EncodedUnsigned(value: nat): (bytes: seq<Byte>)
  {
    if value < 128 then [value] else [value % 128 + 128] + EncodedUnsigned(value / 128)
  }

  method WriteUnsigned(value0: nat) returns (output: seq<Byte>)
    ensures output == EncodedUnsigned(value0)
  {
    output := [];
    var value := value0;
    while true
      invariant output + EncodedUnsigned(value) == EncodedUnsigned(value0)
      decreases value
    {
      TwoToTheSeventh();
      AndMask(value, 7);
      var byte := And(value, 0x7F);
      var more := ShiftRightWord(value, 7);
      if more != 0 {
        byte := byte + 0x80;
      }
      assert EncodedUnsigned(value) == [byte] + if more != 0 then EncodedUnsigned(more) else [];
      assert output + EncodedUnsigned(value) == (output + [byte]) + if more != 0 then EncodedUnsigned(more) else [];
      output := output + [byte];
      value := more;
      if value == 0 {
        return;
      }
    }
  }

  /** A value is written as one encoding with that payload, in no more groups than its bits need. */
  lemma {:induction false} EncodedUnsignedMeans(value: nat, w: nat)
    requires value < Pow(2, w)
    ensures var bytes := EncodedUnsigned(value);
            Terminated(bytes, |bytes|) && Payload(bytes) == value && (w > 0 ==> |bytes| <= MaximumLength(w))
    decreases value
  {
    if value >= 128 {
      TwoToTheSeventh();
      if w <= 7 {
        PowMonotone(2, w, 7);
      }
      QuotientFits(value, 7, w - 7);
      EncodedUnsignedMeans(value / 128, w - 7);
      var rest := EncodedUnsigned(value / 128);
      assert EncodedUnsigned(value)[1..] == rest;
    } else {
      assert [value][1..] == [];
      assert Payload([value]) == value % 128 + 128 * Payload([]);
    }
  }

  /** The streams an unsigned reader of w bits accepts, and how far it reads. */
  ghost predicate HoldsUnsigned(stream: seq<Byte>, w: nat, n: nat) {
    Terminated(stream, n) && n <= MaximumLength(w) && Payload(stream[..n]) < Pow(2, w)
  }

  method ReadUnsigned(stream: seq<Byte>, w: nat) returns (outcome: Outcome)
    requires IsWidth(w)
    ensures outcome.Read? ==> HoldsUnsigned(stream, w, outcome.consumed) && outcome.value == Payload(stream[..outcome.consumed])
    ensures outcome.Failed? ==> forall n :: !HoldsUnsigned(stream, w, n)
  {
    hide Pow, Or, ShiftLeftWord;
    if |stream| == 0 {
      return Failed("EOF reached before expected end");
    }
    var byte := stream[0];
    PayloadSnoc([], byte);
    PowStep(2, 0);
    TwoToTheSeventh();
    PowMonotone(2, 7, w);
    assert stream[..1] == [] + [byte];
    if byte < 0x80 {
      return Read(byte, 1);
    }
    var result: nat := byte % 0x80;
    var numBytes := 1;
    while true
      invariant 1 <= numBytes < MaximumLength(w) && numBytes <= |stream|
      invariant forall i :: 0 <= i < numBytes ==> stream[i] >= 128
      invariant result == Payload(stream[..numBytes])
      decreases |stream| - numBytes
    {
      if numBytes == |stream| {
        return Failed("Reached end-of-stream before collecting the value");
      }
      var byte := stream[numBytes];
      PayloadSnoc(stream[..numBytes], byte);
      assert stream[..numBytes + 1] == stream[..numBytes] + [byte];
      ghost var before := result;
      result := Or(result, ShiftLeftWord(w, byte % 0x80, numBytes * 7));
      if numBytes * 7 >= w - 7 && ShiftRightWord(byte, w - numBytes * 7) != 0 {
        TooLarge(stream, w, numBytes);
        return Failed("The value does not fit");
      }
      GroupFits(before, byte, w, numBytes, stream[..numBytes]);
      numBytes := numBytes + 1;
      if byte < 0x80 {
        return Read(result, numBytes);
      }
    }
  }

  /** A group that passes the check is added without losing bits. */
  lemma GroupFits(result: nat, byte: Byte, w: nat, k: nat, bytes: seq<Byte>)
    requires IsWidth(w) && 1 <= k < MaximumLength(w) && |bytes| == k && result == Payload(bytes)
    requires k * 7 >= w - 7 ==> ShiftRightWord(byte, w - k * 7) == 0
    ensures Or(result, ShiftLeftWord(w, byte % 0x80, k * 7)) == result + (byte % 128) * Pow(2, 7 * k)
    ensures result + (byte % 128) * Pow(2, 7 * k) < Pow(2, w)
    ensures k + 1 < MaximumLength(w) || byte < 128
  {
    hide Pow, Or;
    PayloadFits(bytes);
    TwoToTheSeventh();
    var bits := if k * 7 >= w - 7 then w - k * 7 else 7;
    PowPositive(2, bits);
    PowMonotone(2, bits, 7);
    if k * 7 >= w - 7 {
      assert byte / Pow(2, bits) == 0;
      assert byte == (byte / Pow(2, bits)) * Pow(2, bits) + byte % Pow(2, bits);
    }
    assert byte % 128 < Pow(2, bits);
    NumberFits(result, 7 * k, byte % 128, bits);
    PowMonotone(2, 7 * k + bits, w);
    NumberFits(0, 7 * k, byte % 128, bits);
    var shifted := (byte % 128) * Pow(2, 7 * k);
    PowPositive(2, w);
    DivModUnique(shifted, Pow(2, w), 0, shifted);
    OrShifted(result, 7 * k, byte % 128);
  }

  lemma TooLarge(stream: seq<Byte>, w: nat, k: nat)
    requires IsWidth(w) && 1 <= k < MaximumLength(w) && k < |stream| && k * 7 >= w - 7
    requires forall i :: 0 <= i < k ==> stream[i] >= 128
    requires ShiftRightWord(stream[k], w - k * 7) != 0
    ensures forall n :: !HoldsUnsigned(stream, w, n)
  {
    hide Pow, Payload;
    var bits := w - k * 7;
    PowPositive(2, bits);
    QuotientPositive(stream[k], Pow(2, bits));
    PayloadSnoc(stream[..k], stream[k]);
    assert stream[..k + 1] == stream[..k] + [stream[k]];
    PowAdd(2, bits, 7 * k);
    forall n: nat | Terminated(stream, n) && n <= MaximumLength(w) ensures Payload(stream[..n]) >= Pow(2, w) {
      assert n == k + 1;
      MulMonotone(Pow(2, bits), stream[k] % 128, Pow(2, 7 * k));
    }
  }

  lemma QuotientPositive(x: nat, d: nat)
    requires d > 0 && x / d != 0
    ensures x >= d
  {
    if x < d {
      DivModUnique(x, d, 0, x);
    }
  }

  /** Reading what was written, with anything behind it, gives the value and stops behind the encoding. */
  method UnsignedRoundTrip(value: nat, w: nat, rest: seq<Byte>) returns (outcome: Outcome)
    requires IsWidth(w) && value < Pow(2, w)
    ensures outcome == Read(value, |EncodedUnsigned(value)|) && |EncodedUnsigned(value)| <= MaximumLength(w)
  {
    hide Pow, Payload;
    var bytes := WriteUnsigned(value);
    EncodedUnsignedMeans(value, w);
    var stream := bytes + rest;
    assert stream[..|bytes|] == bytes;
    assert HoldsUnsigned(stream, w, |bytes|);
    outcome := ReadUnsigned(stream, w);
    TerminatedOnce(stream, |bytes|, outcome.consumed);
  }

  // ----- Signed -----

  /** The groups of seven bits put together, the last one with its sign. */
  function SignedPayload(bytes: seq<Byte>): int {
    if bytes == [] then 0
    else if |bytes| == 1 then (if bytes[0] % 128 < 64 then bytes[0] % 128 else bytes[0] % 128 - 128)
    else bytes[0] % 128 + 128 * SignedPayload(bytes[1..])
  }

  /** The number a pattern of w bits stands for. */
  function FromPattern(x: nat, w: nat): int
    requires w > 0
  {
    if x < Pow(2, w - 1) then x else x - Pow(2, w)
  }

  ghost predicate FitsSigned(value: int, w: nat)
    requires w > 0
  {
    var limit: int := Pow(2, w - 1);
    -limit <= value < limit
  }

  lemma {:induction false} SignedPayloadSnoc(bytes: seq<Byte>, b: Byte)
    ensures SignedPayload(bytes + [b]) == Payload(bytes) + (if b % 128 < 64 then b % 128 else b % 128 - 128) * Pow(2, 7 * |bytes|)
  {
    hide Pow;
    var last := if b % 128 < 64 then b % 128 else b % 128 - 128;
    if bytes == [] {
      PowStep(2, 0);
      assert [] + [b] == [b];
    } else {
      SignedPayloadSnoc(bytes[1..], b);
      PowSeven(|bytes| - 1);
      assert (bytes + [b])[0] == bytes[0] && (bytes + [b])[1..] == bytes[1..] + [b];
      Scale(128, last, Pow(2, 7 * (|bytes| - 1)));
    }
  }

  /** The bytes the writer emits. */
  function EncodedSigned(value: int): (bytes: seq<Byte>)
    decreases if value >= 0 then value else -value
  {
    if -64 <= value < 64 then [value % 128] else [value % 128 + 128] + EncodedSigned(value / 128)
  }

  method WriteSigned(value0: int) returns (output: seq<Byte>)
    ensures output == EncodedSigned(value0)
  {
    output := [];
    var value := value0;
    while true
      invariant output + EncodedSigned(value) == EncodedSigned(value0)
      decreases if value >= 0 then value else -value
    {
      ghost var before := value;
      var byte := value % 0x80;
      value := value / 0x80;
      var signBitSet := byte >= 0x40;
      if (value == 0 && !signBitSet) || (value == -1 && signBitSet) {
        assert EncodedSigned(before) == [byte];
        output := output + [byte];
        return;
      }
      assert EncodedSigned(before) == [byte + 0x80] + EncodedSigned(value);
      assert output + EncodedSigned(before) == (output + [byte + 0x80]) + EncodedSigned(value);
      output := output + [byte + 0x80];
    }
  }

  lemma {:induction false} EncodedSignedMeans(value: int, w: nat)
    requires w > 0 && FitsSigned(value, w)
    ensures var bytes := EncodedSigned(value);
            Terminated(bytes, |bytes|) && SignedPayload(bytes) == value && |bytes| <= MaximumLength(w)
    decreases if value >= 0 then value else -value
  {
    hide Pow, SignedPayload, Terminated;
    if !(-64 <= value < 64) {
      SixtyFour();
      if w <= 7 {
        PowMonotone(2, w - 1, 6);
      }
      TwoToTheSeventh();
      PowAdd(2, 7, w - 8);
      assert FitsSigned(value / 128, w - 7);
      EncodedSignedMeans(value / 128, w - 7);
      GroupInFront(value % 128 + 128, EncodedSigned(value / 128));
    } else {
      OneGroup(value);
    }
  }

  lemma OneGroup(value: int)
    requires -64 <= value < 64
    ensures EncodedSigned(value) == [value % 128] && Terminated([value % 128], 1) && SignedPayload([value % 128]) == value
  {}

  lemma GroupInFront(b: Byte, rest: seq<Byte>)
    requires b >= 128 && Terminated(rest, |rest|)
    ensures var bytes := [b] + rest;
            Terminated(bytes, |bytes|) && SignedPayload(bytes) == b % 128 + 128 * SignedPayload(rest)
  {
    var bytes := [b] + rest;
    assert bytes[1..] == rest;
    forall i | 0 <= i < |bytes| - 1 ensures bytes[i] >= 128 {
      assert i > 0 ==> bytes[i] == rest[i - 1];
    }
  }

  lemma SixtyFour()
    ensures Pow(2, 6) == 64
  {
    TwoToTheSeventh();
    PowStep(2, 6);
  }

  ghost predicate HoldsSigned(stream: seq<Byte>, w: nat, n: nat)
    requires w > 0
  {
    Terminated(stream, n) && n <= MaximumLength(w) && FitsSigned(SignedPayload(stream[..n]), w)
  }

  /** The low byte of a number doubled, as a signed byte, shifted right by k: the bits of a group from k - 1 up, with its sign. */
  function SignAndUnused(byte: Byte, k: nat): int {
    PowPositive(2, k);
    var doubled := (byte * 2) % 256;
    (if doubled < 128 then doubled else doubled - 256) / Pow(2, k)
  }

  /** The seven bits of a group as a signed number. */
  function Signed7(byte: Byte): int {
    if byte % 128 < 64 then byte % 128 else byte % 128 - 128
  }

  /** Bits added above those there are, as far as the word goes. */
  lemma OrGroup(result: nat, x: nat, w: nat, shift: nat)
    requires result < Pow(2, shift) && shift <= w
    ensures Pow(2, w - shift) > 0
    ensures Or(result, ShiftLeftWord(w, x, shift)) == result + (x % Pow(2, w - shift)) * Pow(2, shift)
  {
    hide Pow, Or, ShiftLeftWord;
    ShiftLeftKeepsLowBits(w, x, shift);
    OrShifted(result, shift, x % Pow(2, w - shift));
  }

  lemma EarlyGroup(result: nat, byte: Byte, w: nat, k: nat)
    requires result < Pow(2, 7 * k) && 7 * k + 7 <= w
    ensures Or(result, ShiftLeftWord(w, byte % 0x80, 7 * k)) == result + (byte % 128) * Pow(2, 7 * k)
  {
    hide Pow, Or, ShiftLeftWord;
    OrGroup(result, byte % 128, w, 7 * k);
    TwoToTheSeventh();
    PowMonotone(2, 7, w - 7 * k);
    SmallMod(byte % 128, Pow(2, w - 7 * k));
  }

  /** Sign extension gives the pattern of the signed value. */
  lemma SignExtended(low: nat, byte: Byte, w: nat, k: nat)
    requires 1 <= k && 7 * k < w && low < Pow(2, 7 * (k - 1))
    ensures Pow(2, w) > 0
    ensures FitsSigned(low + Signed7(byte) * Pow(2, 7 * (k - 1)), w)
    ensures var p := Pow(2, 7 * (k - 1));
            var result := low + (byte % 128) * p;
            var extended := if byte % 128 >= 0x40 then Or(result, ShiftLeftWord(w, Pow(2, w) - 1, 7 * k)) else result;
            FromPattern(extended, w) == low + Signed7(byte) * p
  {
    hide Pow, Or, ShiftLeftWord;
    var p, q, d := Pow(2, 7 * (k - 1)), Pow(2, 7 * k), Pow(2, w - 7 * k);
    var result := low + (byte % 128) * p;
    PowSeven(k - 1);
    PowPositive(2, w);
    PowMonotone(2, 7 * k, w - 1);
    PowStep(2, w - 1);
    PowAdd(2, w - 7 * k, 7 * k);
    GroupBounds(low, byte % 128, p);
    if byte % 128 >= 64 {
      PowPositive(2, w - 7 * k);
      OrGroup(result, Pow(2, w) - 1, w, 7 * k);
      OnesBelow(d, q);
    }
  }

  lemma OnesBelow(d: nat, q: nat)
    requires d > 0 && d * q > 0
    ensures ((d * q - 1) % d) * q == d * q - q
  {
    assert d * q - 1 == (q - 1) * d + (d - 1);
    DivModUnique(d * q - 1, d, q - 1, d - 1);
    assert (d - 1) * q == d * q - q;
  }

  lemma GroupBounds(low: nat, x: nat, p: nat)
    requires low < p && x < 128
    ensures low + x * p < 128 * p
    ensures x < 64 ==> low + x * p < 64 * p
    ensures x >= 64 ==> low + x * p >= 64 * p && low + (x - 128) * p == low + x * p - 128 * p
  {
    if x < 64 {
      MulMonotone(x + 1, 64, p);
    } else {
      MulMonotone(64, x, p);
      MulMonotone(x + 1, 128, p);
    }
    assert (x + 1) * p == x * p + p;
  }

  /** The check of the last group passes exactly when the signed value fits, and then the pattern is that of the value. */
  lemma LastGroup(low: nat, byte: Byte, w: nat, k: nat)
    requires IsWidth(w) && k < MaximumLength(w) && 7 * k >= w - 7 && low < Pow(2, 7 * k)
    ensures var value := low + Signed7(byte) * Pow(2, 7 * k);
            var passes := SignAndUnused(byte, w - 7 * k) == 0 || SignAndUnused(byte, w - 7 * k) == -1;
            (passes <==> FitsSigned(value, w)) &&
            (passes ==> FromPattern(Or(low, ShiftLeftWord(w, byte % 0x80, 7 * k)), w) == value)
  {
    hide Pow, Or, ShiftLeftWord, SignAndUnused, Signed7;
    var bits := w - 7 * k;
    assert bits == 1 || bits == 2 || bits == 4;
    var p, half, s := Pow(2, 7 * k), Pow(2, bits - 1), Signed7(byte);
    SmallPowers();
    PowAdd(2, bits, 7 * k);
    PowAdd(2, bits - 1, 7 * k);
    OrGroup(low, byte % 128, w, 7 * k);
    CheckMeans(byte, bits, half);
    ScaledRange(low, s, p, half);
    if -half <= s < half {
      KeptBits(byte % 128, s, p, half);
    }
  }

  lemma KeptBits(x: nat, s: int, p: nat, half: int)
    requires half > 0 && -half <= s < half && x % (2 * half) == (if s >= 0 then s else s + 2 * half) % (2 * half)
    ensures (x % (2 * half)) * p == s * p + (if s < 0 then (2 * half) * p else 0)
  {
    SmallMod(if s >= 0 then s else s + 2 * half, 2 * half);
    assert (s + 2 * half) * p == s * p + (2 * half) * p;
  }

  lemma SmallPowers()
    ensures Pow(2, 0) == 1 && Pow(2, 1) == 2 && Pow(2, 2) == 4 && Pow(2, 3) == 8 && Pow(2, 4) == 16
  {
    PowStep(2, 0);
    PowStep(2, 1);
    PowStep(2, 2);
    PowStep(2, 3);
  }

  lemma CheckMeans(byte: Byte, bits: nat, half: int)
    requires (bits == 1 && half == 1) || (bits == 2 && half == 2) || (bits == 4 && half == 8)
    ensures (SignAndUnused(byte, bits) == 0 || SignAndUnused(byte, bits) == -1) <==> -half <= Signed7(byte) < half
    ensures Signed7(byte) >= 0 ==> (byte % 128) % (2 * half) == Signed7(byte) % (2 * half)
    ensures Signed7(byte) < 0 ==> (byte % 128) % (2 * half) == (Signed7(byte) + 2 * half) % (2 * half)
  {
    SmallPowers();
    DoubledSigned(byte);
    var d: int := 2 * Signed7(byte);
    if bits == 1 {
      assert SignAndUnused(byte, 1) == d / 2;
    } else if bits == 2 {
      assert SignAndUnused(byte, 2) == d / 4;
    } else {
      assert SignAndUnused(byte, 4) == d / 16;
    }
    hide SignAndUnused, Pow;
    SignedMod(byte, half);
  }

  lemma DoubledSigned(byte: Byte)
    ensures var doubled := (byte * 2) % 256;
            (if doubled < 128 then doubled else doubled - 256) == 2 * Signed7(byte)
  {}

  lemma SignedMod(byte: Byte, half: int)
    requires half == 1 || half == 2 || half == 8
    ensures Signed7(byte) >= 0 ==> (byte % 128) % (2 * half) == Signed7(byte) % (2 * half)
    ensures Signed7(byte) < 0 ==> (byte % 128) % (2 * half) == (Signed7(byte) + 2 * half) % (2 * half)
  {
    if Signed7(byte) < 0 {
      assert byte % 128 == Signed7(byte) + 2 * half + (128 / (2 * half) - 1) * (2 * half);
      ModPlusMultiple(Signed7(byte) + 2 * half, 128 / (2 * half) - 1, 2 * half);
    }
  }

  lemma ScaledRange(low: nat, s: int, p: nat, half: int)
    requires low < p && 0 <= half
    ensures -(half * p) <= low + s * p < half * p <==> -half <= s < half
    ensures s >= 0 && s < half ==> low + s * p >= 0
    ensures s < 0 && -half <= s ==> low + s * p < 0
  {
    if s >= half {
      MulMonotone(half, s, p);
    } else {
      MulMonotone(s + 1, half, p);
      assert (s + 1) * p == s * p + p;
    }
    if s < -half {
      MulMonotone(s + 1, -half, p);
      assert (s + 1) * p == s * p + p;
      assert -half * p == -(half * p);
    } else {
      MulMonotone(-half, s, p);
      assert -half * p == -(half * p);
    }
    if s >= 0 {
      MulMonotone(0, s, p);
    } else {
      MulMonotone(s + 1, 0, p);
    }
  }

  lemma EmptyPayload()
    ensures Payload([]) == 0
  {}

  method ReadSigned(stream: seq<Byte>, w: nat) returns (outcome: Outcome)
    requires IsWidth(w)
    ensures outcome.Read? ==>
              HoldsSigned(stream, w, outcome.consumed) && outcome.value == SignedPayload(stream[..outcome.consumed])
    ensures outcome.Failed? ==> forall n :: !HoldsSigned(stream, w, n)
  {
    hide Pow, Or, ShiftLeftWord, FromPattern, FitsSigned, SignAndUnused, Payload, SignedPayload;
    EmptyPayload();
    var result: nat, shift, k := 0, 0, 0;
    var byte: Byte := 0;
    while true
      invariant shift == 7 * k && k < MaximumLength(w) && k <= |stream|
      invariant forall i :: 0 <= i < k ==> stream[i] >= 128
      invariant result == Payload(stream[..k])
      decreases |stream| - k
    {
      if k == |stream| {
        return Failed("Stream reached end-of-file while reading LEB128 value");
      }
      byte := stream[k];
      PayloadSnoc(stream[..k], byte);
      assert stream[..k + 1] == stream[..k] + [byte];
      ghost var before := result;
      PayloadFits(stream[..k]);
      result := Or(result, ShiftLeftWord(w, byte % 0x80, shift));
      if shift >= w - 7 {
        outcome := LastGroupRead(stream, before, result, w, k);
        return;
      }
      EarlyGroup(before, byte, w, k);
      shift := shift + 7;
      k := k + 1;
      if byte < 0x80 {
        break;
      }
    }
    outcome := SignRead(stream, result, w, k);
  }

  /** The last group a value of w bits can have. */
  method LastGroupRead(stream: seq<Byte>, ghost before: nat, result: nat, w: nat, k: nat) returns (outcome: Outcome)
    requires IsWidth(w) && k < MaximumLength(w) && k < |stream| && 7 * k >= w - 7
    requires forall i :: 0 <= i < k ==> stream[i] >= 128
    requires before == Payload(stream[..k]) && result == Or(before, ShiftLeftWord(w, stream[k] % 0x80, 7 * k))
    ensures outcome.Read? ==>
              HoldsSigned(stream, w, outcome.consumed) && outcome.value == SignedPayload(stream[..outcome.consumed])
    ensures outcome.Failed? ==> forall n :: !HoldsSigned(stream, w, n)
  {
    hide Pow, Or, ShiftLeftWord, FromPattern, FitsSigned, SignAndUnused, Payload, SignedPayload;
    var byte := stream[k];
    var shift := 7 * k;
    if byte >= 0x80 {
      return Failed("Read value contains more bits than fit the chosen ValueType");
    }
    SignedPayloadSnoc(stream[..k], byte);
    PayloadFits(stream[..k]);
    assert stream[..k + 1] == stream[..k] + [byte];
    LastGroup(before, byte, w, k);
    if SignAndUnused(byte, w - shift) != 0 && SignAndUnused(byte, w - shift) != -1 {
      assert forall n :: Terminated(stream, n) ==> n == k + 1;
      return Failed("Read byte is too large to fit the chosen ValueType");
    }
    return Read(FromPattern(result, w), k + 1);
  }

  /** A shorter encoding: its sign fills the rest of the word. */
  method SignRead(stream: seq<Byte>, result0: nat, w: nat, k: nat) returns (outcome: Outcome)
    requires IsWidth(w) && k <= |stream| && 7 * k < w && Terminated(stream, k) && result0 == Payload(stream[..k])
    ensures outcome.Read? && HoldsSigned(stream, w, outcome.consumed)
    ensures outcome.value == SignedPayload(stream[..outcome.consumed])
  {
    hide Pow, Or, ShiftLeftWord, FromPattern, FitsSigned, SignAndUnused, Payload, SignedPayload;
    var result, byte, shift := result0, stream[k - 1], 7 * k;
    ghost var low := Payload(stream[..k - 1]);
    assert stream[..k] == stream[..k - 1] + [byte];
    PayloadFits(stream[..k - 1]);
    PayloadSnoc(stream[..k - 1], byte);
    SignedPayloadSnoc(stream[..k - 1], byte);
    SignExtended(low, byte, w, k);
    if shift < w && byte % 128 >= 0x40 {
      result := Or(result, ShiftLeftWord(w, Pow(2, w) - 1, shift));
    }
    return Read(FromPattern(result, w), k);
  }

  /** Reading what was written, with anything behind it, gives the value and stops behind the encoding. */
  method SignedRoundTrip(value: int, w: nat, rest: seq<Byte>) returns (outcome: Outcome)
    requires IsWidth(w) && FitsSigned(value, w)
    ensures outcome == Read(value, |EncodedSigned(value)|) && |EncodedSigned(value)| <= MaximumLength(w)
  {
    hide Pow, SignedPayload, FitsSigned;
    var bytes := WriteSigned(value);
    EncodedSignedMeans(value, w);
    var stream := bytes + rest;
    assert stream[..|bytes|] == bytes;
    assert HoldsSigned(stream, w, |bytes|);
    outcome := ReadSigned(stream, w);
    TerminatedOnce(stream, |bytes|, outcome.consumed);
  }
}
