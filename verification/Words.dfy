/**
 The number denoted by a little-endian sequence of machine words, in any base, and
 two's complement readings of it. The base is a parameter: the library is instantiated
 with 32-bit and with 64-bit words.
 */
module Words {
  import opened Basics
  import opened Powers

  predicate AreWords(b: nat, s: seq<nat>) {
    forall i :: 0 <= i < |s| ==> s[i] < b
  }

  /** The unsigned number denoted by s, least significant word first. */
  function Value(b: nat, s: seq<nat>): nat {
    if s == [] then 0 else Value(b, s[..|s| - 1]) + s[|s| - 1] * Pow(b, |s| - 1)
  }

  /** The sign of a storage: the top bit of its last word, if the storage is signed. */
  predicate IsNegative(b: nat, s: seq<nat>, isSigned: bool) {
    isSigned && s != [] && 2 * s[|s| - 1] >= b
  }

  /** The two's complement number denoted by s. */
  function Number(b: nat, s: seq<nat>, isSigned: bool): int {
    Value(b, s) - if IsNegative(b, s, isSigned) then Pow(b, |s|) else 0
  }

  /** The word a storage is extended with. */
  function Fill(b: nat, negative: bool): nat
    requires b > 0
  {
    if negative then b - 1 else 0
  }

  /** The i-th word of s, or its fill word past the end. */
  function WordAt(b: nat, s: seq<nat>, isSigned: bool, i: nat): nat
    requires b > 0
  {
    if i < |s| then s[i] else Fill(b, IsNegative(b, s, isSigned))
  }

  /** s brought to exactly n words: cut off, or continued with its fill word. */
  function Extended(b: nat, s: seq<nat>, isSigned: bool, n: nat): (r: seq<nat>)
    requires b > 0
    ensures |r| == n
    ensures forall i :: 0 <= i < n ==> r[i] == WordAt(b, s, isSigned, i)
  {
    seq(n, i requires 0 <= i < n => WordAt(b, s, isSigned, i))
  }

  lemma ValueSnoc(b: nat, s: seq<nat>, x: nat)
    ensures Value(b, s + [x]) == Value(b, s) + x * Pow(b, |s|)
  {
    assert (s + [x])[..|s|] == s;
  }

  lemma ValueTake(b: nat, s: seq<nat>, i: nat)
    requires i < |s|
    ensures Value(b, s[..i + 1]) == Value(b, s[..i]) + s[i] * Pow(b, i)
  {
    hide Value, Pow;
    assert s[..i + 1] == s[..i] + [s[i]];
    ValueSnoc(b, s[..i], s[i]);
  }

  lemma ValueEmpty(b: nat)
    ensures Value(b, []) == 0
  {}

  lemma ValueOfOne(b: nat, x: nat)
    ensures Value(b, [x]) == x
  {
    hide Value, Pow;
    assert [] + [x] == [x];
    ValueSnoc(b, [], x);
    ValueEmpty(b);
    PowStep(b, 0);
  }

  /** The number with its most significant word split off. */
  lemma ValueTop(b: nat, s: seq<nat>)
    requires s != []
    ensures Value(b, s) == Value(b, s[..|s| - 1]) + s[|s| - 1] * Pow(b, |s| - 1)
  {}

  lemma {:induction false} ValueSplit(b: nat, s: seq<nat>, t: seq<nat>)
    ensures Value(b, s + t) == Value(b, s) + Pow(b, |s|) * Value(b, t)
  {
    hide Value, Pow;
    ValueEmpty(b);
    if t == [] {
      assert s + t == s;
    } else {
      var n := |t| - 1;
      ValueSplit(b, s, t[..n]);
      ValueTop(b, t);
      ValueTop(b, s + t);
      assert (s + t)[..|s + t| - 1] == s + t[..n];
      PowAdd(b, |s|, n);
      Distribute(Pow(b, |s|), Value(b, t[..n]), t[n], Pow(b, n));
    }
  }

  lemma {:induction false} ValueBound(b: nat, s: seq<nat>)
    requires AreWords(b, s)
    ensures Value(b, s) < Pow(b, |s|)
  {
    hide Value, Pow;
    ValueEmpty(b);
    PowStep(b, 0);
    if s != [] {
      var n := |s| - 1;
      ValueBound(b, s[..n]);
      ValueTop(b, s);
      PowStep(b, n);
      BoundArithmetic(Value(b, s[..n]), s[n], b, Pow(b, n));
    }
  }

  lemma BoundArithmetic(v: nat, x: nat, b: nat, p: nat)
    requires v < p && x < b
    ensures v + x * p < b * p
  {
    MulMonotone(x + 1, b, p);
  }

  lemma {:induction false} ValueZeros(b: nat, s: seq<nat>)
    requires forall i :: 0 <= i < |s| ==> s[i] == 0
    ensures Value(b, s) == 0
  {
    hide Pow;
    if s != [] {
      ValueZeros(b, s[..|s| - 1]);
    }
  }

  /** High zero words do not contribute. */
  lemma ValueTrim(b: nat, s: seq<nat>, n: nat)
    requires n <= |s|
    requires forall i :: n <= i < |s| ==> s[i] == 0
    ensures Value(b, s) == Value(b, s[..n])
  {
    hide Value, Pow;
    assert s == s[..n] + s[n..];
    ValueSplit(b, s[..n], s[n..]);
    ValueZeros(b, s[n..]);
  }

  /** A run of n maximal words denotes b^n - 1. */
  lemma {:induction false} ValueOnes(b: nat, s: seq<nat>)
    requires b > 0
    requires forall i :: 0 <= i < |s| ==> s[i] == b - 1
    ensures Value(b, s) == Pow(b, |s|) - 1
  {
    hide Value, Pow;
    ValueEmpty(b);
    PowStep(b, 0);
    if s != [] {
      var n := |s| - 1;
      ValueOnes(b, s[..n]);
      ValueTop(b, s);
      PowStep(b, n);
      assert (b - 1) * Pow(b, n) == b * Pow(b, n) - Pow(b, n);
    }
  }

  /** The number an operand contributes to a result of n words: all of it, if it is no wider than that. */
  function Contribution(b: nat, s: seq<nat>, isSigned: bool, n: nat): int
    requires b > 0
  {
    Value(b, Extended(b, s, isSigned, n)) - if IsNegative(b, s, isSigned) then Pow(b, n) else 0
  }

  lemma ExtendedWords(b: nat, s: seq<nat>, isSigned: bool, n: nat)
    requires b > 0 && AreWords(b, s)
    ensures AreWords(b, Extended(b, s, isSigned, n))
  {}

  /** Sign extension to a wider storage keeps the number: as unsigned it adds a multiple of b^n. */
  lemma ValueExtended(b: nat, s: seq<nat>, isSigned: bool, n: nat)
    requires b > 0 && |s| <= n
    ensures Contribution(b, s, isSigned, n) == Number(b, s, isSigned)
  {
    hide Value, Pow;
    var neg := IsNegative(b, s, isSigned);
    var high := ExtendedSplit(b, s, isSigned, n);
    ValueSplit(b, s, high);
    HighPart(b, high, neg);
    PowAdd(b, |s|, n - |s|);
    ExtensionArithmetic(Value(b, high), Pow(b, |s|), Pow(b, n - |s|), neg);
  }

  lemma ExtendedSplit(b: nat, s: seq<nat>, isSigned: bool, n: nat) returns (high: seq<nat>)
    requires b > 0 && |s| <= n
    ensures |high| == n - |s|
    ensures Extended(b, s, isSigned, n) == s + high
    ensures forall i :: 0 <= i < |high| ==> high[i] == Fill(b, IsNegative(b, s, isSigned))
  {
    high := seq(n - |s|, _ => Fill(b, IsNegative(b, s, isSigned)));
  }

  lemma HighPart(b: nat, high: seq<nat>, neg: bool)
    requires b > 0
    requires forall i :: 0 <= i < |high| ==> high[i] == Fill(b, neg)
    ensures Value(b, high) == if neg then Pow(b, |high|) - 1 else 0
  {
    hide Value, Pow;
    if neg {
      ValueOnes(b, high);
    } else {
      ValueZeros(b, high);
    }
  }

  lemma ExtensionArithmetic(high: nat, p: nat, q: nat, neg: bool)
    requires high == if neg then q - 1 else 0
    ensures p * high == if neg then p * q - p else 0
  {}

  /** With an even base the two's complement number is the one in the range around zero that the words stand for. */
  lemma SignedRange(b: nat, s: seq<nat>)
    requires b >= 2 && b % 2 == 0 && AreWords(b, s) && s != []
    ensures 0 <= 2 * Number(b, s, true) + Pow(b, |s|) < 2 * Pow(b, |s|)
    ensures Number(b, s, true) == Value(b, s) || Number(b, s, true) == Value(b, s) - Pow(b, |s|)
    ensures Number(b, s, false) == Value(b, s)
  {
    hide Value, Pow;
    var n := |s| - 1;
    ValueTop(b, s);
    ValueBound(b, s[..n]);
    ValueBound(b, s);
    PowStep(b, n);
    HalfRange(Value(b, s[..n]), s[n], Pow(b, n), b);
  }

  lemma HalfRange(low: nat, top: nat, p: nat, b: nat)
    requires low < p && top < b && b % 2 == 0
    ensures 2 * top >= b ==> 2 * (low + top * p) >= b * p
    ensures 2 * top < b ==> 2 * (low + top * p) < b * p
  {
    if 2 * top >= b {
      MulMonotone(b, 2 * top, p);
    } else {
      MulMonotone(2 * top, b - 2, p);
    }
  }

  /** Words are determined by the value they denote. */
  lemma {:induction false} ValueInjective(b: nat, s: seq<nat>, t: seq<nat>)
    requires AreWords(b, s) && AreWords(b, t) && |s| == |t|
    requires Value(b, s) == Value(b, t)
    ensures s == t
  {
    hide Value, Pow;
    if s != [] {
      var n := |s| - 1;
      ValueTop(b, s);
      ValueTop(b, t);
      ValueBound(b, s[..n]);
      ValueBound(b, t[..n]);
      DivModUnique(Value(b, s), Pow(b, n), s[n], Value(b, s[..n]));
      DivModUnique(Value(b, t), Pow(b, n), t[n], Value(b, t[..n]));
      ValueInjective(b, s[..n], t[..n]);
      assert s == s[..n] + [s[n]];
      assert t == t[..n] + [t[n]];
    }
  }

  /** Storing no words changes nothing. */
  lemma SpliceNothing(memory: seq<nat>, at: nat)
    requires at <= |memory|
    ensures Splice(memory, at, []) == memory
  {}

  lemma SpliceSnoc(memory: seq<nat>, at: nat, zs: seq<nat>, z: nat)
    requires at + |zs| < |memory|
    ensures Splice(memory, at, zs)[at + |zs| := z] == Splice(memory, at, zs + [z])
  {}

  lemma SpliceUntouched(memory: seq<nat>, at: nat, zs: seq<nat>, k: nat)
    requires at + |zs| <= k < |memory|
    ensures |Splice(memory, at, zs)| == |memory| && Splice(memory, at, zs)[k] == memory[k]
  {}

  lemma SpliceParts(memory: seq<nat>, at: nat, zs: seq<nat>)
    requires at + |zs| <= |memory|
    ensures |Splice(memory, at, zs)| == |memory|
    ensures Splice(memory, at, zs)[at..at + |zs|] == zs
    ensures forall k :: 0 <= k < |memory| && !(at <= k < at + |zs|) ==> Splice(memory, at, zs)[k] == memory[k]
  {}

  /**
   cur is memory after storing, of the words t at position at, those before index done
   and those from index rest on.
   */
  ghost predicate Stored(cur: seq<nat>, memory: seq<nat>, at: nat, t: seq<nat>, done: nat, rest: nat) {
    at + |t| <= |memory| == |cur| && done <= rest <= |t| &&
    forall p :: 0 <= p < |cur| ==>
      cur[p] == if at <= p < at + |t| && (p < at + done || at + rest <= p) then t[p - at] else memory[p]
  }

  lemma StoredNone(memory: seq<nat>, at: nat, t: seq<nat>)
    requires at + |t| <= |memory|
    ensures Stored(memory, memory, at, t, 0, |t|)
  {}

  lemma StoredDown(cur: seq<nat>, memory: seq<nat>, at: nat, t: seq<nat>, done: nat, rest: nat)
    requires Stored(cur, memory, at, t, done, rest) && done < rest
    ensures at + rest <= |cur|
    ensures Stored(cur[at + rest - 1 := t[rest - 1]], memory, at, t, done, rest - 1)
  {}

  lemma StoredUp(cur: seq<nat>, memory: seq<nat>, at: nat, t: seq<nat>, done: nat, rest: nat)
    requires Stored(cur, memory, at, t, done, rest) && done < rest
    ensures at + done < |cur|
    ensures Stored(cur[at + done := t[done]], memory, at, t, done + 1, rest)
  {}

  lemma StoredUntouched(cur: seq<nat>, memory: seq<nat>, at: nat, t: seq<nat>, done: nat, rest: nat)
    requires Stored(cur, memory, at, t, done, rest)
    ensures |cur| == |memory|
    ensures forall p :: at + done <= p < at + rest && p < |cur| ==> cur[p] == memory[p]
  {}

  lemma StoredAll(cur: seq<nat>, memory: seq<nat>, at: nat, t: seq<nat>, done: nat)
    requires Stored(cur, memory, at, t, done, done)
    ensures cur[at..at + |t|] == t
    ensures cur == Splice(memory, at, t)
  {}
}
