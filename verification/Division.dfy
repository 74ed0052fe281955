/** Long division of word sequences in place: Knuth's Algorithm D. */
module Division {
  import opened Basics
  import opened Powers
  import opened Words
  import opened StorageOperations
  import opened QuotientDigit

  lemma ValueCons(b: nat, x: nat, s: seq<nat>)
    ensures Value(b, [x] + s) == x + b * Value(b, s)
  {
    hide Value, Pow;
    ValueSplit(b, [x], s);
    ValueTop(b, [x]);
    assert [x][..0] == [];
    ValueEmpty(b);
    PowStep(b, 0);
  }

  // ----- Step D4: multiply and subtract -----

  /** The words us with qhat times vs taken away are zs, up to a debt of owed units of weight b^|zs|. */
  ghost predicate Subtracted(b: nat, qhat: nat, us: seq<nat>, vs: seq<nat>, zs: seq<nat>, owed: nat) {
    Value(b, us) + owed * Pow(b, |zs|) == Value(b, zs) + qhat * Value(b, vs)
  }

  lemma SubtractedEmpty(b: nat, qhat: nat, us: seq<nat>, vs: seq<nat>)
    ensures Subtracted(b, qhat, us[..0], vs[..0], [], 0)
  {}

  lemma SubtractArithmetic(u: nat, v: nat, z: nat, owed: nat, p: nat, b: nat, qhat: nat, x: nat, y: nat, word: nat, owed': nat)
    requires u + owed * p == z + qhat * v
    requires x + owed' * b == word + qhat * y + owed
    ensures (u + x * p) + owed' * (b * p) == (z + word * p) + qhat * (v + y * p)
  {
    assert (x + owed' * b) * p == (word + qhat * y + owed) * p;
    assert owed' * (b * p) == (owed' * b) * p;
    assert qhat * (y * p) == (qhat * y) * p;
    assert qhat * (v + y * p) == qhat * v + qhat * (y * p);
  }

  lemma SubtractedStep(b: nat, qhat: nat, us: seq<nat>, vs: seq<nat>, zs: seq<nat>, owed: nat, j: nat, word: nat, owed': nat)
    requires |zs| == j < |us| && j < |vs|
    requires Subtracted(b, qhat, us[..j], vs[..j], zs, owed)
    requires us[j] + owed' * b == word + qhat * vs[j] + owed
    ensures Subtracted(b, qhat, us[..j + 1], vs[..j + 1], zs + [word], owed')
  {
    hide Value, Pow;
    ValueTake(b, us, j);
    ValueTake(b, vs, j);
    ValueSnoc(b, zs, word);
    PowStep(b, j);
    SubtractArithmetic(Value(b, us[..j]), Value(b, vs[..j]), Value(b, zs), owed, Pow(b, j), b, qhat, us[j], vs[j], word, owed');
  }

  /** The last word of the window has no divisor word above it; what is still owed is taken from it. */
  lemma SubtractedLast(b: nat, qhat: nat, us: seq<nat>, vs: seq<nat>, zs: seq<nat>, owed: nat, word: nat, owed': nat)
    requires |zs| == |vs| && |us| == |vs| + 1
    requires Subtracted(b, qhat, us[..|vs|], vs, zs, owed)
    requires us[|vs|] + owed' * b == word + owed
    ensures Subtracted(b, qhat, us, vs, zs + [word], owed')
  {
    hide Value, Pow;
    var j := |vs|;
    assert us[..j + 1] == us;
    ValueTake(b, us, j);
    ValueSnoc(b, zs, word);
    PowStep(b, j);
    SubtractArithmetic(Value(b, us[..j]), Value(b, vs), Value(b, zs), owed, Pow(b, j), b, qhat, us[j], 0, word, owed');
  }

  /** One round of the loop: the words of the product enter the debt, the word written pays for it. */
  lemma SubtractedWord(b: nat, qhat: nat, us: seq<nat>, vs: seq<nat>, zs: seq<nat>, mulCarry: nat, borrow: bool, j: nat)
    requires |zs| == j < |us| && j < |vs| && qhat < b && mulCarry < b && us[j] < b && vs[j] < b
    requires Subtracted(b, qhat, us[..j], vs[..j], zs, mulCarry + CarryOf(borrow))
    ensures var (low, high) := WideMultiply(b, qhat, vs[j], mulCarry);
            var (word, borrow') := AddWords(b, true, us[j], low, borrow);
            Subtracted(b, qhat, us[..j + 1], vs[..j + 1], zs + [word], high + CarryOf(borrow'))
  {
    hide Subtracted, WideMultiply;
    var (low, high) := WideMultiply(b, qhat, vs[j], mulCarry);
    var (word, borrow') := AddWords(b, true, us[j], low, borrow);
    SubtractedStep(b, qhat, us, vs, zs, mulCarry + CarryOf(borrow), j, word, high + CarryOf(borrow'));
  }

  /** Subtracts qhat times the first n divisor words from the n + 1 dividend words at position at. */
  method MultiplySubtract(b: nat, dividend: array<nat>, at: nat, divisor: array<nat>, n: nat, qhat: nat)
    returns (borrow: bool)
    requires b > 0 && qhat < b && dividend != divisor
    requires at + n < dividend.Length && n <= divisor.Length
    requires AreWords(b, dividend[..]) && AreWords(b, divisor[..])
    modifies dividend
    ensures dividend[..] == Splice(old(dividend[..]), at, dividend[at..at + n + 1])
    ensures AreWords(b, dividend[at..at + n + 1])
    ensures Subtracted(b, qhat, old(dividend[at..at + n + 1]), divisor[..n], dividend[at..at + n + 1], CarryOf(borrow))
  {
    hide Subtracted, Splice, Value, Pow, AddWords, WideMultiply;
    ghost var memory := dividend[..];
    ghost var us, vs := dividend[at..at + n + 1], divisor[..n];
    ghost var zs := [];
    var mulCarry: nat := 0;
    borrow := false;
    SpliceNothing(memory, at);
    SubtractedEmpty(b, qhat, us, vs);
    for j := 0 to n
      invariant |zs| == j && AreWords(b, zs) && mulCarry < b
      invariant dividend[..] == Splice(memory, at, zs)
      invariant Subtracted(b, qhat, us[..j], vs[..j], zs, mulCarry + CarryOf(borrow))
    {
      SpliceUntouched(memory, at, zs, at + j);
      assert dividend[at + j] == dividend[..][at + j] == us[j];
      assert divisor[j] == divisor[..][j] == vs[j];
      SubtractedWord(b, qhat, us, vs, zs, mulCarry, borrow, j);
      var (low, high) := WideMultiply(b, qhat, divisor[j], mulCarry);
      var (word, borrow') := AddWords(b, true, dividend[at + j], low, borrow);
      SpliceSnoc(memory, at, zs, word);
      dividend[at + j] := word;
      zs := zs + [word];
      borrow, mulCarry := borrow', high;
    }
    SpliceUntouched(memory, at, zs, at + n);
    assert dividend[at + n] == dividend[..][at + n] == us[n];
    var (word, borrow') := AddWords(b, true, dividend[at + n], mulCarry, borrow);
    assert vs[..n] == vs;
    SubtractedLast(b, qhat, us, vs, zs, mulCarry + CarryOf(borrow), word, CarryOf(borrow'));
    SpliceSnoc(memory, at, zs, word);
    dividend[at + n] := word;
    zs := zs + [word];
    borrow := borrow';
    SpliceParts(memory, at, zs);
    assert dividend[at..at + n + 1] == dividend[..][at..at + n + 1] == zs;
  }

  // ----- Step D3 on a window of the dividend -----

  /** The words from m on are the leading part of a number, the words below it the rest. */
  lemma LeadingWords(b: nat, s: seq<nat>, m: nat)
    requires m <= |s| && AreWords(b, s)
    ensures Leading(Value(b, s), Value(b, s[m..]), Pow(b, m))
  {
    hide Value, Pow;
    assert s == s[..m] + s[m..];
    ValueSplit(b, s[..m], s[m..]);
    ValueBound(b, s[..m]);
    assert (Value(b, s[m..]) + 1) * Pow(b, m) == Value(b, s[m..]) * Pow(b, m) + Pow(b, m);
  }

  lemma ValueOfTwo(b: nat, x: nat, y: nat)
    ensures Value(b, [x, y]) == Double(b, x, y)
  {
    hide Value;
    ValueCons(b, x, [y]);
    assert [x] + [y] == [x, y];
    ValueOfOne(b, y);
  }

  lemma ValueOfThree(b: nat, x: nat, y: nat, z: nat)
    ensures Value(b, [x, y, z]) == Double(b, x, Double(b, y, z))
  {
    hide Value;
    ValueCons(b, x, [y, z]);
    assert [x] + [y, z] == [x, y, z];
    ValueOfTwo(b, y, z);
  }

  /** A number below the divisor times b has a top word not above the divisor's: the first VERIFY. */
  lemma TopWordFits(b: nat, us: seq<nat>, vs: seq<nat>)
    requires |us| == |vs| + 1 && |vs| > 0 && AreWords(b, us) && AreWords(b, vs)
    requires Value(b, us) < b * Value(b, vs)
    ensures us[|vs|] <= vs[|vs| - 1]
  {
    hide Value, Pow;
    var n := |vs|;
    LeadingWords(b, us, n);
    assert us[n..] == [us[n]];
    ValueOfOne(b, us[n]);
    LeadingWords(b, vs, n - 1);
    assert vs[n - 1..] == [vs[n - 1]];
    ValueOfOne(b, vs[n - 1]);
    PowStep(b, n - 1);
    TopWordArithmetic(b, Value(b, us), Value(b, vs), us[n], vs[n - 1], Pow(b, n - 1));
  }

  lemma TopWordArithmetic(b: nat, u: nat, v: nat, u2: nat, v1: nat, p: nat)
    requires u < b * v && u2 * (b * p) <= u && v < (v1 + 1) * p
    ensures u2 <= v1
  {
    MulMonotone(v, (v1 + 1) * p, b);
    assert b * ((v1 + 1) * p) == (v1 + 1) * (b * p);
    MulCancelStrict(u2, v1 + 1, b * p);
  }

  /** The estimate is the true digit or one more. */
  ghost predicate WithinOne(u: nat, v: nat, qhat: nat) {
    v > 0 && u / v <= qhat <= u / v + 1
  }

  /** In either branch the estimate is the true digit or one more. */
  lemma EstimateWithinOne(b: nat, us: seq<nat>, vs: seq<nat>, qhat: nat)
    requires |us| == |vs| + 1 && |vs| >= 2 && AreWords(b, us) && AreWords(b, vs)
    requires b > 0 && 2 * vs[|vs| - 1] >= b && Value(b, us) < b * Value(b, vs)
    requires var n := |vs|;
             var u3, v2 := Double(b, us[n - 2], Double(b, us[n - 1], us[n])), Double(b, vs[n - 2], vs[n - 1]);
             v2 > 0 && qhat < b && (us[n] == vs[n - 1] ==> qhat == b - 1) && (us[n] < vs[n - 1] ==> qhat == u3 / v2)
    ensures WithinOne(Value(b, us), Value(b, vs), qhat)
  {
    hide Value, Pow, Leading, Double;
    var n := |vs|;
    var u, v := Value(b, us), Value(b, vs);
    var u3, v2 := Double(b, us[n - 2], Double(b, us[n - 1], us[n])), Double(b, vs[n - 2], vs[n - 1]);
    TopWordFits(b, us, vs);
    PowPositive(b, n - 2);
    PowPositive(b, n - 1);
    if us[n] < vs[n - 1] {
      LeadingWords(b, us, n - 2);
      assert us[n - 2..] == [us[n - 2], us[n - 1], us[n]];
      ValueOfThree(b, us[n - 2], us[n - 1], us[n]);
      LeadingWords(b, vs, n - 2);
      assert vs[n - 2..] == [vs[n - 2], vs[n - 1]];
      ValueOfTwo(b, vs[n - 2], vs[n - 1]);
      LeadingBelow(v, v2, Pow(b, n - 2));
      DoubleAtLeast(b, vs[n - 2], vs[n - 1]);
      EstimateNotBelow(u, v, u3, v2, Pow(b, n - 2));
      EstimateNotFarAbove(b, u, v, u3, v2, Pow(b, n - 2));
    } else {
      LeadingWords(b, vs, n - 1);
      assert vs[n - 1..] == [vs[n - 1]];
      ValueOfOne(b, vs[n - 1]);
      LeadingWords(b, us, n);
      assert us[n..] == [us[n]];
      ValueOfOne(b, us[n]);
      LeadingBelow(u, us[n], Pow(b, n));
      PowStep(b, n - 1);
      MulAssociative(us[n], b, Pow(b, n - 1));
      EstimateAtTop(b, u, v, vs[n - 1], Pow(b, n - 1));
    }
  }

  lemma LeadingBelow(u: nat, u3: nat, p: nat)
    requires Leading(u, u3, p)
    ensures u3 * p <= u
  {}

  lemma DoubleAtLeast(b: nat, low: nat, high: nat)
    requires high > 0
    ensures Double(b, low, high) >= b
  {
    MulAtLeast(b, high);
  }

  // ----- Steps D3 to D6 on one window -----

  /** A divisor storage whose words from n on are clear contributes exactly its first n words. */
  lemma DivisorContribution(b: nat, s: seq<nat>, n: nat)
    requires b > 0 && n <= |s| && forall i :: n <= i < |s| ==> s[i] == 0
    ensures Contribution(b, s, false, n + 1) == Value(b, s[..n])
  {
    hide Value, Pow;
    var e := Extended(b, s, false, n + 1);
    assert e[..n] == s[..n];
    ValueTrim(b, e, n);
  }

  /** After multiply-subtract without a borrow the estimate was the true digit. */
  lemma NoBorrow(u: nat, v: nat, z: nat, qhat: nat)
    requires u == z + qhat * v && WithinOne(u, v, qhat)
    ensures qhat == u / v && z == u % v && z < v
  {
    assert u == (u / v) * v + u % v;
    QuotientAtLeast(u, v, qhat);
  }

  /** After a borrow it was one too large; adding the divisor back once overflows exactly once. */
  lemma AddBack(u: nat, v: nat, z: nat, z': nat, qhat: nat, p: nat, overflow: int)
    requires u + p == z + qhat * v && z < p && z' < p
    requires WithinOne(u, v, qhat)
    requires z + v == z' + overflow * p && v <= p
    ensures overflow == 1 && qhat == u / v + 1 && z' == u % v
    ensures u == (qhat - 1) * v + z'
  {
    assert u == (u / v) * v + u % v;
    if qhat == u / v {
      assert false;
    }
    assert (u / v + 1) * v == (u / v) * v + v;
    assert z + v == u % v + p;
    if overflow <= 0 {
      MulMonotone(overflow, 0, p);
    } else if overflow >= 2 {
      MulMonotone(2, overflow, p);
    }
  }

  /** Step D6: adds the divisor to the window of n + 1 words at position at. */
  method AddDivisor(b: nat, dividend: array<nat>, at: nat, divisor: array<nat>, n: nat) returns (overflow: int)
    requires b >= 2 && n <= divisor.Length && at + n < dividend.Length && dividend != divisor
    requires AreWords(b, dividend[..]) && AreWords(b, divisor[..])
    requires forall j :: n <= j < divisor.Length ==> divisor[j] == 0
    modifies dividend
    ensures AreWords(b, dividend[at..at + n + 1])
    ensures dividend[..] == Splice(old(dividend[..]), at, dividend[at..at + n + 1])
    ensures Value(b, old(dividend[at..at + n + 1])) + Value(b, divisor[..n])
         == Value(b, dividend[at..at + n + 1]) + overflow * Pow(b, n + 1)
  {
    hide Value, Pow, Splice, Contribution;
    var part := StorageSpan(dividend, at, n + 1, false);
    var whole := StorageSpan(divisor, 0, divisor.Length, false);
    ghost var zs := part.Words();
    assert whole.Words() == divisor[..];
    DivisorContribution(b, divisor[..], n);
    ValueExtended(b, zs, false, n + 1);
    overflow := Add(b, false, part, whole, part, false);
  }

  /**
   One round of the main loop: replaces the window of n + 1 words below and at i by its remainder
   and returns its quotient digit. Neither VERIFY of the round can fail.
   */
  method DivideWindow(b: nat, dividend: array<nat>, i: nat, divisor: array<nat>, n: nat) returns (digit: nat)
    requires b >= 2 && 2 <= n <= divisor.Length && n <= i < dividend.Length && dividend != divisor
    requires AreWords(b, dividend[..]) && AreWords(b, divisor[..])
    requires forall j :: n <= j < divisor.Length ==> divisor[j] == 0
    requires 2 * divisor[n - 1] >= b
    requires Value(b, dividend[i - n..i + 1]) < b * Value(b, divisor[..n])
    modifies dividend
    ensures AreWords(b, dividend[..])
    ensures dividend[..] == Splice(old(dividend[..]), i - n, dividend[i - n..i + 1])
    ensures digit < b
    ensures old(Value(b, dividend[i - n..i + 1])) == digit * Value(b, divisor[..n]) + Value(b, dividend[i - n..i + 1])
    ensures Value(b, dividend[i - n..i + 1]) < Value(b, divisor[..n])
  {
    hide Value, Pow, Splice, Subtracted, Double, WithinOne;
    ghost var memory, us, vs := dividend[..], dividend[i - n..i + 1], divisor[..n];
    ghost var u, v := Value(b, us), Value(b, vs);
    var approx := divisor[n - 1];
    TopWordFits(b, us, vs);
    assert dividend[i] <= approx;  // VERIFY
    var qhat := EstimateDigit(b, dividend[i], dividend[i - 1], dividend[i - 2], approx, divisor[n - 2]);
    EstimateWithinOne(b, us, vs, qhat);
    var at := i - n;
    var borrow := MultiplySubtract(b, dividend, at, divisor, n, qhat);
    ghost var zs := dividend[at..at + n + 1];
    SpliceWords(b, memory, at, zs);
    assert divisor[..n] == vs;
    if borrow {
      var overflow := AddDivisor(b, dividend, at, divisor, n);
      assert divisor[..n] == vs;
      ghost var zs' := dividend[at..at + n + 1];
      AddBackNumbers(b, us, vs, zs, zs', overflow, qhat);
      assert overflow == 1;  // VERIFY
      SpliceTwice(memory, at, zs, zs');
      SpliceWords(b, memory, at, zs');
    } else {
      NoBorrowNumbers(b, us, vs, zs, qhat);
    }
    digit := qhat - CarryOf(borrow);
  }

  lemma AddBackNumbers(b: nat, us: seq<nat>, vs: seq<nat>, zs: seq<nat>, zs': seq<nat>, overflow: int, qhat: nat)
    requires b > 0 && |zs| == |vs| + 1 == |zs'|
    requires AreWords(b, zs) && AreWords(b, zs') && AreWords(b, vs)
    requires Subtracted(b, qhat, us, vs, zs, 1)
    requires Value(b, zs) + Value(b, vs) == Value(b, zs') + overflow * Pow(b, |zs|)
    requires WithinOne(Value(b, us), Value(b, vs), qhat)
    ensures overflow == 1 && qhat > 0
    ensures Value(b, us) == (qhat - 1) * Value(b, vs) + Value(b, zs') && Value(b, zs') < Value(b, vs)
  {
    hide Value, Pow;
    ValueBound(b, zs);
    ValueBound(b, zs');
    ValueBound(b, vs);
    PowMonotone(b, |vs|, |zs|);
    AddBack(Value(b, us), Value(b, vs), Value(b, zs), Value(b, zs'), qhat, Pow(b, |zs|), overflow);
  }

  lemma NoBorrowNumbers(b: nat, us: seq<nat>, vs: seq<nat>, zs: seq<nat>, qhat: nat)
    requires Subtracted(b, qhat, us, vs, zs, 0)
    requires WithinOne(Value(b, us), Value(b, vs), qhat)
    ensures Value(b, us) == qhat * Value(b, vs) + Value(b, zs) && Value(b, zs) < Value(b, vs)
  {
    hide Value, Pow;
    NoBorrow(Value(b, us), Value(b, vs), Value(b, zs), qhat);
  }

  lemma SpliceTwice(memory: seq<nat>, at: nat, s: seq<nat>, t: seq<nat>)
    requires |s| == |t| && at + |s| <= |memory|
    ensures |Splice(memory, at, s)| == |memory|
    ensures Splice(Splice(memory, at, s), at, t) == Splice(memory, at, t)
  {}

  lemma SpliceWords(b: nat, memory: seq<nat>, at: nat, s: seq<nat>)
    requires AreWords(b, memory) && AreWords(b, s) && at + |s| <= |memory|
    ensures AreWords(b, Splice(memory, at, s))
  {}

  // ----- The main loop -----

  /**
   With the digits from i - n on settled: the words from i on are used up, the n words below i are
   less than the divisor v, and digits and words still account for the whole dividend.
   */
  ghost predicate Progress(b: nat, d: seq<nat>, digits: seq<nat>, v: nat, n: nat, top: nat, i: nat, total: nat) {
    n <= i <= top <= |d| && top - n <= |digits| && AreWords(b, d) &&
    (forall j :: i <= j < |d| ==> d[j] == 0) &&
    Value(b, d[i - n..i]) < v &&
    total == Value(b, digits[i - n..top - n]) * (v * Pow(b, i - n)) + Value(b, d[..i])
  }

  /** A number below b^m has no words from m on. */
  lemma HighWordsClear(b: nat, s: seq<nat>, m: nat)
    requires AreWords(b, s) && m <= |s| && Value(b, s) < Pow(b, m)
    ensures forall j :: m <= j < |s| ==> s[j] == 0
  {
    hide Value, Pow;
    assert s == s[..m] + s[m..];
    ValueSplit(b, s[..m], s[m..]);
    MulCancelStrict(Value(b, s[m..]), 1, Pow(b, m));
    ZeroWords(b, s[m..]);
    assert forall j :: m <= j < |s| ==> s[j] == s[m..][j - m];
  }

  lemma {:induction false} ZeroWords(b: nat, s: seq<nat>)
    requires AreWords(b, s) && Value(b, s) == 0
    ensures forall j :: 0 <= j < |s| ==> s[j] == 0
  {
    hide Value, Pow;
    if s != [] {
      var n := |s| - 1;
      ValueTop(b, s);
      PowPositive(b, n);
      if s[n] > 0 {
        MulPositive(s[n], Pow(b, n));
        assert false;
      }
      assert s[n] * Pow(b, n) == 0;
      ZeroWords(b, s[..n]);
      assert forall j :: 0 <= j < n ==> s[j] == s[..n][j];
    }
  }

  lemma WindowBound(b: nat, d: seq<nat>, digits: seq<nat>, v: nat, n: nat, top: nat, i: nat, total: nat)
    requires Progress(b, d, digits, v, n, top, i, total) && i > n
    ensures Value(b, d[i - 1 - n..i]) < b * v
  {
    hide Value, Pow;
    assert d[i - 1 - n..i] == [d[i - 1 - n]] + d[i - n..i];
    ValueCons(b, d[i - 1 - n], d[i - n..i]);
    MulMonotone(Value(b, d[i - n..i]) + 1, v, b);
  }

  lemma StepArithmetic(q: nat, b: nat, v: nat, p: nat, digit: nat, low: nat, rest: nat, window: nat)
    requires window == digit * v + rest
    ensures q * (v * (b * p)) + (low + p * window) == (digit + b * q) * (v * p) + (low + p * rest)
  {
    assert q * (v * (b * p)) == (b * q) * (v * p);
    assert p * (digit * v + rest) == digit * (v * p) + p * rest;
    assert (digit + b * q) * (v * p) == digit * (v * p) + (b * q) * (v * p);
  }

  lemma ValueParts(b: nat, d: seq<nat>, at: nat, k: nat)
    requires at <= k <= |d|
    ensures Value(b, d[..k]) == Value(b, d[..at]) + Pow(b, at) * Value(b, d[at..k])
  {
    hide Value, Pow;
    assert d[..k] == d[..at] + d[at..k];
    ValueSplit(b, d[..at], d[at..k]);
  }

  /** The digit found takes over from the window what it is worth. */
  lemma StepEquation(b: nat, d: seq<nat>, qs: seq<nat>, v: nat, at: nat, i: nat, d': seq<nat>, digit: nat)
    requires at < i <= |d| && |d'| == |d| && d'[..at] == d[..at]
    requires Value(b, d[at..i]) == digit * v + Value(b, d'[at..i - 1])
    ensures Value(b, qs) * (v * Pow(b, at + 1)) + Value(b, d[..i])
         == Value(b, [digit] + qs) * (v * Pow(b, at)) + Value(b, d'[..i - 1])
  {
    hide Value, Pow;
    ValueParts(b, d, at, i);
    ValueParts(b, d', at, i - 1);
    ValueCons(b, digit, qs);
    PowStep(b, at);
    StepArithmetic(Value(b, qs), b, v, Pow(b, at), digit, Value(b, d[..at]), Value(b, d'[at..i - 1]), Value(b, d[at..i]));
  }

  /** The remainder of a window fits in n words: the storage after it. */
  lemma WindowStored(b: nat, d: seq<nat>, at: nat, window: seq<nat>, n: nat)
    requires |window| == n + 1 && at + n + 1 <= |d| && AreWords(b, window) && AreWords(b, d)
    requires Value(b, window) < Pow(b, n)
    requires forall j :: at + n + 1 <= j < |d| ==> d[j] == 0
    ensures var d' := Splice(d, at, window);
            |d'| == |d| && AreWords(b, d') && d'[..at] == d[..at] &&
            Value(b, d'[at..at + n]) == Value(b, window) && forall j :: at + n <= j < |d| ==> d'[j] == 0
  {
    hide Value, Pow;
    HighWordsClear(b, window, n);
    ValueTrim(b, window, n);
    var d' := Splice(d, at, window);
    assert d'[at..at + n] == window[..n];
  }

  lemma ProgressStep(b: nat, d: seq<nat>, digits: seq<nat>, v: nat, n: nat, top: nat, i: nat, total: nat,
                     window: seq<nat>, digit: nat)
    requires Progress(b, d, digits, v, n, top, i, total) && i > n && v <= Pow(b, n)
    requires |window| == n + 1 && AreWords(b, window)
    requires Value(b, d[i - 1 - n..i]) == digit * v + Value(b, window) && Value(b, window) < v
    ensures Progress(b, Splice(d, i - 1 - n, window), digits[i - 1 - n := digit], v, n, top, i - 1, total)
  {
    hide Value, Pow, Splice;
    var at := i - 1 - n;
    WindowStored(b, d, at, window, n);
    var digits' := digits[at := digit];
    assert digits'[at..top - n] == [digit] + digits[i - n..top - n];
    StepEquation(b, d, digits[i - n..top - n], v, at, i, Splice(d, at, window), digit);
  }

  lemma ProgressEnd(b: nat, d: seq<nat>, digits: seq<nat>, v: nat, n: nat, top: nat, total: nat)
    requires Progress(b, d, digits, v, n, top, n, total)
    ensures total == Value(b, digits[..top - n]) * v + Value(b, d) && Value(b, d) < v
  {
    hide Value;
    ValueTrim(b, d, n);
    assert d[0..n] == d[..n];
    assert digits[0..top - n] == digits[..top - n];
  }

  /** At the start the shifted dividend fits in one more word, whose top n words are below the divisor. */
  lemma ProgressStart(b: nat, d: seq<nat>, digits: seq<nat>, v: nat, n: nat, top: nat)
    requires b > 0 && AreWords(b, d) && n <= top <= |d| && top - n <= |digits|
    requires Value(b, d) < v * Pow(b, top - n) && v <= Pow(b, n)
    ensures Progress(b, d, digits, v, n, top, top, Value(b, d))
  {
    hide Value, Pow;
    PowAdd(b, n, top - n);
    MulMonotone(v, Pow(b, n), Pow(b, top - n));
    HighWordsClear(b, d, top);
    ValueTrim(b, d, top);
    assert d[..top] == d[..top - n] + d[top - n..top];
    ValueSplit(b, d[..top - n], d[top - n..top]);
    MulCancelStrict(Value(b, d[top - n..top]), v, Pow(b, top - n));
    assert digits[top - n..top - n] == [];
    ValueEmpty(b);
  }

  /** The digit loop: divides the storage in place, leaving the remainder there and the digits in the quotient. */
  method DivideDigits(b: nat, dividend: array<nat>, divisor: array<nat>, quotient: array<nat>, top: nat, n: nat)
    requires b >= 2 && 2 <= n <= divisor.Length && n < top <= dividend.Length && top - n <= quotient.Length
    requires dividend != divisor && dividend != quotient && divisor != quotient
    requires AreWords(b, dividend[..]) && AreWords(b, divisor[..]) && AreWords(b, quotient[..])
    requires forall j :: n <= j < divisor.Length ==> divisor[j] == 0
    requires 2 * divisor[n - 1] >= b
    requires Value(b, dividend[..]) < Value(b, divisor[..n]) * Pow(b, top - n)
    modifies dividend, quotient
    ensures AreWords(b, dividend[..]) && AreWords(b, quotient[..])
    ensures old(Value(b, dividend[..])) == Value(b, quotient[..]) * Value(b, divisor[..n]) + Value(b, dividend[..])
    ensures Value(b, dividend[..]) < Value(b, divisor[..n])
  {
    hide Value, Pow, Splice, Progress;
    ghost var total, vs := Value(b, dividend[..]), divisor[..n];
    ghost var v := Value(b, vs);
    ValueBound(b, vs);
    ProgressStart(b, dividend[..], quotient[..], v, n, top);
    var i := top;
    while i > n
      invariant n <= i <= top
      invariant AreWords(b, dividend[..]) && AreWords(b, quotient[..])
      invariant Progress(b, dividend[..], quotient[..], v, n, top, i, total)
    {
      assert divisor[..n] == vs;
      WindowBound(b, dividend[..], quotient[..], v, n, top, i, total);
      ghost var d, digits := dividend[..], quotient[..];
      i := i - 1;
      var digit := DivideWindow(b, dividend, i, divisor, n);
      ProgressStep(b, d, digits, v, n, top, i + 1, total, dividend[i - n..i + 1], digit);
      quotient[i - n] := digit;
      assert quotient[..] == digits[i - n := digit];
    }
    ProgressEnd(b, dividend[..], quotient[..], v, n, top, total);
    ghost var low, rest := quotient[..top - n], dividend[..];
    for j := top - n to quotient.Length
      invariant AreWords(b, quotient[..]) && quotient[..top - n] == low
      invariant forall k :: top - n <= k < j ==> quotient[k] == 0
      invariant dividend[..] == rest
    {
      quotient[j] := 0;
    }
    ValueTrim(b, quotient[..], top - n);
    assert quotient[..][..top - n] == low;
  }

  // ----- Steps D1 and D8: normalisation and its undoing -----

  /** How far a nonzero word can be shifted left without losing bits. */
  function CountLeadingZeroes(w: nat, x: nat): (s: nat)
    requires 0 < x < Pow(2, w)
    ensures Pow(2, s) * x < Pow(2, w) <= 2 * (Pow(2, s) * x)
    decreases Pow(2, w) - x
  {
    if 2 * x >= Pow(2, w) then
      0
    else
      var s := CountLeadingZeroes(w, 2 * x);
      assert Pow(2, s + 1) * x == Pow(2, s) * (2 * x);
      s + 1
  }

  lemma LeadingZeroesInWord(w: nat, x: nat, shift: nat)
    requires x > 0 && Pow(2, shift) * x < Pow(2, w)
    ensures shift < w && x + 1 <= Pow(2, w - shift)
  {
    hide Pow;
    if shift >= w {
      PowMonotone(2, w, shift);
      MulAtLeast(Pow(2, shift), x);
      assert false;
    }
    PowAdd(2, w - shift, shift);
    MulCancelStrict(x, Pow(2, w - shift), Pow(2, shift));
  }

  /** Normalising the divisor loses nothing. */
  lemma NormalizedFits(w: nat, s: seq<nat>, n: nat, shift: nat)
    requires w > 0 && 0 < n <= |s| && AreWords(Pow(2, w), s)
    requires forall j :: n <= j < |s| ==> s[j] == 0
    requires s[n - 1] > 0 && Pow(2, shift) * s[n - 1] < Pow(2, w)
    ensures Value(Pow(2, w), s) * Pow(2, shift) < Pow(Pow(2, w), n)
  {
    hide Value, Pow;
    var b, x := Pow(2, w), s[n - 1];
    LeadingZeroesInWord(w, x, shift);
    PowAdd(2, w - shift, shift);
    PowPositive(2, shift);
    ValueTrim(b, s, n);
    TopWordBounds(b, s[..n]);
    PowStep(b, n - 1);
    NormalizedBound(Value(b, s), x, Pow(2, shift), Pow(2, w - shift), Pow(b, n - 1));
  }

  /** A number that is the product of another and 2^shift has at least the shifted top word. */
  lemma NormalizedTop(b: nat, s: seq<nat>, n: nat, p: nat, t: seq<nat>)
    requires 0 < n <= |s| && n <= |t| && AreWords(b, s) && AreWords(b, t)
    requires forall j :: n <= j < |s| ==> s[j] == 0
    requires Value(b, t[..n]) == Value(b, s) * p
    ensures p * s[n - 1] <= t[n - 1]
  {
    hide Value, Pow;
    var x, q := s[n - 1], Pow(b, n - 1);
    ValueTrim(b, s, n);
    TopWordBounds(b, s[..n]);
    TopWordBounds(b, t[..n]);
    ScaledTop(x, q, Value(b, s), p, t[n - 1]);
  }

  lemma ScaledTop(x: nat, q: nat, c: nat, p: nat, y: nat)
    requires x * q <= c && c * p < (y + 1) * q
    ensures p * x <= y
  {
    MulMonotone(x * q, c, p);
    assert (x * q) * p == (p * x) * q;
    MulCancelStrict(p * x, y + 1, q);
  }

  /** The normalised divisor: the exact product, still n words, with the top bit set. */
  lemma NormalizedDivisor(w: nat, s: seq<nat>, n: nat, shift: nat, t: seq<nat>)
    requires w > 0 && 0 < n <= |s| == |t| && AreWords(Pow(2, w), s) && AreWords(Pow(2, w), t)
    requires forall j :: n <= j < |s| ==> s[j] == 0
    requires s[n - 1] > 0 && Pow(2, shift) * s[n - 1] < Pow(2, w) <= 2 * (Pow(2, shift) * s[n - 1])
    requires Pow(Pow(2, w), |s|) > 0
    requires Value(Pow(2, w), t) == (Value(Pow(2, w), s) * Pow(2, shift)) % Pow(Pow(2, w), |s|)
    ensures Value(Pow(2, w), t) == Value(Pow(2, w), s) * Pow(2, shift)
    ensures forall j :: n <= j < |t| ==> t[j] == 0
    ensures Value(Pow(2, w), t[..n]) == Value(Pow(2, w), t)
    ensures 2 * t[n - 1] >= Pow(2, w)
    ensures Pow(Pow(2, w), n - 1) <= Value(Pow(2, w), s)
  {
    hide Value, Pow;
    var b := Pow(2, w);
    NormalizedFits(w, s, n, shift);
    PowPositive(2, w);
    PowMonotone(b, n, |s|);
    SmallMod(Value(b, s) * Pow(2, shift), Pow(b, |s|));
    HighWordsClear(b, t, n);
    ValueTrim(b, t, n);
    NormalizedTop(b, s, n, Pow(2, shift), t);
    ValueTrim(b, s, n);
    TopWordBounds(b, s[..n]);
  }

  lemma TopWordBounds(b: nat, s: seq<nat>)
    requires s != [] && AreWords(b, s)
    ensures s[|s| - 1] * Pow(b, |s| - 1) <= Value(b, s) < (s[|s| - 1] + 1) * Pow(b, |s| - 1)
    ensures s[|s| - 1] > 0 ==> Pow(b, |s| - 1) <= Value(b, s)
  {
    hide Value, Pow;
    var n := |s| - 1;
    ValueTop(b, s);
    ValueBound(b, s[..n]);
    assert (s[n] + 1) * Pow(b, n) == s[n] * Pow(b, n) + Pow(b, n);
    if s[n] > 0 {
      MulMonotone(1, s[n], Pow(b, n));
    }
  }

  lemma NormalizedBound(c: nat, x: nat, p: nat, q: nat, pn1: nat)
    requires c < (x + 1) * pn1 && x + 1 <= q && p > 0
    ensures c * p < (q * p) * pn1
  {
    MulMonotone(x + 1, q, pn1);
    MulStrict(c, q * pn1, p);
    assert (q * pn1) * p == (q * p) * pn1;
  }

  /** The normalised dividend fits one more word and starts below the divisor. */
  lemma NormalizedDividend(w: nat, s: seq<nat>, top: nat, n: nat, shift: nat, t: seq<nat>, c: nat)
    requires w > 0 && 0 < n < top <= |s| == |t| && AreWords(Pow(2, w), s) && shift < w
    requires forall j :: top - 1 <= j < |s| ==> s[j] == 0
    requires Pow(Pow(2, w), |s|) > 0
    requires Value(Pow(2, w), t) == (Value(Pow(2, w), s) * Pow(2, shift)) % Pow(Pow(2, w), |s|)
    requires Pow(Pow(2, w), n - 1) <= c
    ensures Value(Pow(2, w), t) == Value(Pow(2, w), s) * Pow(2, shift)
    ensures Value(Pow(2, w), t) < (c * Pow(2, shift)) * Pow(Pow(2, w), top - n)
  {
    hide Value, Pow;
    var b, p, a := Pow(2, w), Pow(2, shift), Value(Pow(2, w), s);
    PowPositive(2, w);
    PowPositive(2, shift);
    ValueTrim(b, s, top - 1);
    ValueBound(b, s[..top - 1]);
    PowStep(b, top - 1);
    PowMonotone(b, top, |s|);
    PowMonotone(2, shift, w);
    MulStrict(a, Pow(b, top - 1), p);
    MulMonotone(p, b, Pow(b, top - 1));
    SmallMod(a * p, Pow(b, |s|));
    PowAdd(b, n - 1, top - n);
    MulMonotone(Pow(b, n - 1), c, Pow(b, top - n));
    MulMonotone(Pow(b, top - 1), c * Pow(b, top - n), p);
    assert (c * Pow(b, top - n)) * p == (c * p) * Pow(b, top - n);
  }

  /** Undoing the common factor of dividend, divisor and remainder. */
  lemma Unnormalized(a: nat, c: nat, q: nat, r: nat, p: nat)
    requires p > 0 && a * p == q * (c * p) + r && r < c * p
    ensures c > 0 && a / c == q && a % c == r / p
  {
    assert r == (a - q * c) * p;
    if a - q * c < 0 {
      MulMonotone(a - q * c, -1, p);
      assert false;
    }
    MulCancelStrict(a - q * c, c, p);
    DivModUnique(r, p, a - q * c, 0);
    DivModUnique(a, c, q, a - q * c);
  }

  lemma RemainderBelow(b: nat, s: seq<nat>, v: nat, n: nat, size: nat)
    requires AreWords(b, s) && n <= size <= |s| && Value(b, s) < v <= Pow(b, n)
    ensures Value(b, s[..size]) == Value(b, s)
  {
    hide Value, Pow;
    HighWordsClear(b, s, n);
    ValueTrim(b, s, size);
  }

  /**
   Divides the dividend by the divisor, both given with their numbers of significant words.
   Both storages are normalised and used up in place; the dividend has a spare word for that.
   */
  method DivModInternal(w: nat, restoreRemainder: bool, dividend: array<nat>, divisor: array<nat>, quotient: array<nat>,
                        remainder: array<nat>, dividendLen: nat, divisorLen: nat)
    requires w > 0
    requires dividend != divisor && dividend != quotient && dividend != remainder
    requires divisor != quotient && divisor != remainder && quotient != remainder
    requires AreWords(Pow(2, w), dividend[..]) && AreWords(Pow(2, w), divisor[..])
    requires AreWords(Pow(2, w), quotient[..]) && AreWords(Pow(2, w), remainder[..])
    requires 2 <= divisorLen <= dividendLen < dividend.Length && divisorLen <= divisor.Length
    requires forall j :: dividendLen <= j < dividend.Length ==> dividend[j] == 0
    requires forall j :: divisorLen <= j < divisor.Length ==> divisor[j] == 0
    requires divisor[divisorLen - 1] != 0
    requires dividendLen - divisorLen + 1 <= quotient.Length
    requires restoreRemainder ==> divisorLen <= remainder.Length <= dividend.Length
    modifies dividend, divisor, quotient, remainder
    ensures AreWords(Pow(2, w), quotient[..]) && AreWords(Pow(2, w), remainder[..])
    ensures old(Value(Pow(2, w), divisor[..])) > 0
    ensures Value(Pow(2, w), quotient[..]) == old(Value(Pow(2, w), dividend[..])) / old(Value(Pow(2, w), divisor[..]))
    ensures restoreRemainder ==>
        Value(Pow(2, w), remainder[..]) == old(Value(Pow(2, w), dividend[..])) % old(Value(Pow(2, w), divisor[..]))
    ensures !restoreRemainder ==> remainder[..] == old(remainder[..])
  {
    hide Value, Pow, Splice;
    ghost var b, a, c := Pow(2, w), Value(Pow(2, w), dividend[..]), Value(Pow(2, w), divisor[..]);
    ghost var us, vs := dividend[..], divisor[..];
    BaseAtLeastTwo(w);
    var shift := CountLeadingZeroes(w, divisor[divisorLen - 1]);
    LeadingZeroesInWord(w, divisor[divisorLen - 1], shift);
    ShiftWhole(w, dividend, shift);
    ShiftWhole(w, divisor, shift);
    NormalizedDivisor(w, vs, divisorLen, shift, divisor[..]);
    assert divisor[..divisorLen] == divisor[..][..divisorLen];
    NormalizedDividend(w, us, dividendLen + 1, divisorLen, shift, dividend[..], c);
    ghost var v := Value(b, divisor[..divisorLen]);
    ValueBound(b, divisor[..divisorLen]);
    DivideDigits(Pow(2, w), dividend, divisor, quotient, dividendLen + 1, divisorLen);
    PowPositive(2, shift);
    Unnormalized(a, c, Value(b, quotient[..]), Value(b, dividend[..]), Pow(2, shift));
    if restoreRemainder {
      RemainderBelow(b, dividend[..], v, divisorLen, remainder.Length);
      RestoreRemainder(w, dividend, shift, remainder);
    }
  }

  lemma BaseAtLeastTwo(w: nat)
    requires w > 0
    ensures Pow(2, w) >= 2
  {
    hide Pow;
    PowStep(2, 0);
    PowStep(2, w - 1);
    PowPositive(2, w - 1);
  }

  method ShiftWhole(w: nat, storage: array<nat>, shift: nat)
    requires w > 0 && AreWords(Pow(2, w), storage[..]) && shift < w && storage.Length > 0
    modifies storage
    ensures AreWords(Pow(2, w), storage[..])
    ensures Pow(Pow(2, w), storage.Length) > 0
    ensures Value(Pow(2, w), storage[..]) == (old(Value(Pow(2, w), storage[..])) * Pow(2, shift)) % Pow(Pow(2, w), storage.Length)
  {
    hide Value, Pow, Splice;
    var span := StorageSpan(storage, 0, storage.Length, false);
    assert span.Words() == storage[..];
    MulMonotone(1, storage.Length, w);
    ShiftLeft(w, span, shift, span);
    assert span.Words() == storage[..];
  }

  method RestoreRemainder(w: nat, dividend: array<nat>, shift: nat, remainder: array<nat>)
    requires w > 0 && dividend != remainder && 0 < remainder.Length <= dividend.Length && shift < w
    requires AreWords(Pow(2, w), dividend[..]) && AreWords(Pow(2, w), remainder[..])
    modifies remainder
    ensures AreWords(Pow(2, w), remainder[..]) && Pow(2, shift) > 0
    ensures Value(Pow(2, w), remainder[..]) == Value(Pow(2, w), dividend[..remainder.Length]) / Pow(2, shift)
  {
    hide Value, Pow, Splice;
    var trimmed := StorageSpan(dividend, 0, remainder.Length, false);
    var whole := StorageSpan(remainder, 0, remainder.Length, false);
    assert trimmed.Words() == dividend[..remainder.Length] && whole.Words() == remainder[..];
    MulMonotone(1, remainder.Length, w);
    ShiftRight(w, trimmed, shift, whole);
    assert whole.Words() == remainder[..];
  }
}
