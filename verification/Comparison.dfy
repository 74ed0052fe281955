/**
 Comparing, negating and stepping multi-word numbers by one.
 */
module Comparison {
  import opened Basics
  import opened Powers
  import opened Words
  import opened StorageOperations

  // ----- Comparing word by word from the top -----

  function Sign(x: int): int {
    if x > 0 then 1 else if x < 0 then -1 else 0
  }

  /** The highest word that differs decides. */
  lemma HigherWordDecides(b: nat, xs: seq<nat>, ys: seq<nat>, i: nat)
    requires |xs| == |ys| && i < |xs| && AreWords(b, xs) && AreWords(b, ys)
    requires xs[i + 1..] == ys[i + 1..] && xs[i] < ys[i]
    ensures Value(b, xs) < Value(b, ys)
  {
    hide Value, Pow;
    ValueSplit(b, xs[..i + 1], xs[i + 1..]);
    ValueSplit(b, ys[..i + 1], ys[i + 1..]);
    assert xs == xs[..i + 1] + xs[i + 1..] && ys == ys[..i + 1] + ys[i + 1..];
    ValueTake(b, xs, i);
    ValueTake(b, ys, i);
    ValueBound(b, xs[..i]);
    MulMonotone(xs[i] + 1, ys[i], Pow(b, i));
    assert (xs[i] + 1) * Pow(b, i) == xs[i] * Pow(b, i) + Pow(b, i);
  }

  /** High words that are not all zero make a number larger than one without them. */
  lemma HighNotZero(b: nat, low: seq<nat>, high: seq<nat>, other: seq<nat>, k: nat)
    requires b > 0 && AreWords(b, other) && |low| == |other| && k < |high| && high[k] != 0
    ensures Value(b, low + high) > Value(b, other)
  {
    hide Value, Pow;
    ValueSplit(b, low, high);
    ValueBound(b, other);
    ValueAtLeast(b, high, k);
    MulMonotone(1, Value(b, high), Pow(b, |low|));
  }

  lemma {:induction false} ValueAtLeast(b: nat, s: seq<nat>, k: nat)
    requires b > 0 && k < |s| && s[k] != 0
    ensures Value(b, s) >= 1
  {
    hide Value, Pow;
    ValueTop(b, s);
    PowPositive(b, |s| - 1);
    if k < |s| - 1 {
      ValueAtLeast(b, s[..|s| - 1], k);
    } else {
      MulPositive(s[k], Pow(b, |s| - 1));
    }
  }

  /** High words that are not all the largest make a number smaller than one where they are. */
  lemma HighNotOnes(b: nat, low: seq<nat>, high: seq<nat>, other: seq<nat>, ones: seq<nat>, k: nat)
    requires b > 0 && AreWords(b, low) && AreWords(b, high) && |low| == |other| && |high| == |ones|
    requires k < |high| && high[k] != b - 1 && forall i :: 0 <= i < |ones| ==> ones[i] == b - 1
    ensures Value(b, low + high) < Value(b, other + ones)
  {
    hide Value, Pow;
    ValueSplit(b, low, high);
    ValueSplit(b, other, ones);
    ValueBound(b, low);
    ValueBound(b, high);
    ValueOnes(b, ones);
    if Value(b, high) == Value(b, ones) {
      ValueInjective(b, high, ones);
    }
    var p := Pow(b, |low|);
    MulMonotone(Value(b, high) + 1, Value(b, ones), p);
    assert p * Value(b, high) + p == (Value(b, high) + 1) * p;
    assert p * Value(b, ones) == Value(b, ones) * p;
  }

  /** Numbers of one sign compare like their words, continued to the same length. */
  lemma SameSign(b: nat, s1: seq<nat>, signed1: bool, s2: seq<nat>, signed2: bool, n: nat)
    requires b > 0 && |s1| <= n && |s2| <= n && IsNegative(b, s1, signed1) == IsNegative(b, s2, signed2)
    ensures Number(b, s1, signed1) - Number(b, s2, signed2)
         == Value(b, Extended(b, s1, signed1, n)) - Value(b, Extended(b, s2, signed2, n))
  {
    hide Value, Pow, Extended, Number, IsNegative;
    ValueExtended(b, s1, signed1, n);
    ValueExtended(b, s2, signed2, n);
  }

  lemma NumberSign(b: nat, s: seq<nat>, isSigned: bool)
    requires AreWords(b, s)
    ensures Number(b, s, isSigned) < 0 <==> IsNegative(b, s, isSigned)
  {
    ValueBound(b, s);
  }

  /** Whether some word of the longer operand behind the other one's end is not the fill word. */
  method DiffersInHighBits(b: nat, longer: StorageSpan, size: nat, fill: nat) returns (differs: bool)
    requires longer.Valid(b) && size <= longer.size
    ensures differs <==> exists k :: size <= k < longer.size && longer.Words()[k] != fill
  {
    differs := false;
    var i := longer.size;
    while i > size
      invariant size <= i <= longer.size
      invariant differs <==> exists k :: i <= k < longer.size && longer.Words()[k] != fill
    {
      i := i - 1;
      assert longer.data[longer.start + i] == longer.Words()[i];
      if longer.data[longer.start + i] != fill {
        differs := true;
      }
    }
  }

  /** The longer one of two operands of one sign differs from the other behind its end. */
  lemma HighBitsDecide(b: nat, s1: seq<nat>, signed1: bool, s2: seq<nat>, signed2: bool, k: nat)
    requires b > 0 && |s2| <= k < |s1| && AreWords(b, s1) && AreWords(b, s2)
    requires IsNegative(b, s1, signed1) == IsNegative(b, s2, signed2)
    requires s1[k] != Fill(b, IsNegative(b, s1, signed1))
    ensures IsNegative(b, s1, signed1) ==> Number(b, s1, signed1) < Number(b, s2, signed2)
    ensures !IsNegative(b, s1, signed1) ==> Number(b, s1, signed1) > Number(b, s2, signed2)
  {
    hide Value, Pow, Number, IsNegative;
    var n := |s1|;
    SameSign(b, s1, signed1, s2, signed2, n);
    var e1, e2 := Extended(b, s1, signed1, n), Extended(b, s2, signed2, n);
    var low, high := s1[..|s2|], s1[|s2|..];
    assert e1 == low + high;
    var fills := ExtendedSplit(b, s2, signed2, n);
    assert high[k - |s2|] == s1[k];
    if IsNegative(b, s1, signed1) {
      HighNotOnes(b, low, high, s2, fills, k - |s2|);
    } else {
      HighNotZero(b, low, high, s2, k - |s2|);
      FillsAreNothing(b, s2, fills);
    }
  }

  lemma FillsAreNothing(b: nat, s: seq<nat>, fills: seq<nat>)
    requires forall i :: 0 <= i < |fills| ==> fills[i] == 0
    ensures Value(b, s + fills) == Value(b, s)
  {
    hide Value;
    ValueTrim(b, s + fills, |s|);
    assert (s + fills)[..|s|] == s;
  }

  /** The words from i on, of one as of the other, and behind them nothing but fill words. */
  ghost predicate AgreeFrom(b: nat, s1: seq<nat>, signed1: bool, s2: seq<nat>, signed2: bool, n: nat, i: nat)
    requires b > 0
  {
    i <= n && Extended(b, s1, signed1, n)[i..] == Extended(b, s2, signed2, n)[i..]
  }

  lemma AgreeDown(b: nat, s1: seq<nat>, signed1: bool, s2: seq<nat>, signed2: bool, n: nat, i: nat)
    requires b > 0 && i < n && AgreeFrom(b, s1, signed1, s2, signed2, n, i + 1)
    requires WordAt(b, s1, signed1, i) == WordAt(b, s2, signed2, i)
    ensures AgreeFrom(b, s1, signed1, s2, signed2, n, i)
  {
    var e1, e2 := Extended(b, s1, signed1, n), Extended(b, s2, signed2, n);
    assert e1[i..] == [e1[i]] + e1[i + 1..] && e2[i..] == [e2[i]] + e2[i + 1..];
  }

  lemma AgreeHigh(b: nat, s1: seq<nat>, signed1: bool, s2: seq<nat>, signed2: bool, n: nat, i: nat)
    requires b > 0 && i <= n && forall k :: i <= k < n ==> WordAt(b, s1, signed1, k) == WordAt(b, s2, signed2, k)
    ensures AgreeFrom(b, s1, signed1, s2, signed2, n, i)
  {
    var e1, e2 := Extended(b, s1, signed1, n), Extended(b, s2, signed2, n);
    assert forall k :: 0 <= k < n - i ==> e1[i..][k] == e1[i + k] && e2[i..][k] == e2[i + k];
  }

  /** Below words that agree, the first one that differs decides. */
  lemma LowWordDecides(b: nat, s1: seq<nat>, signed1: bool, s2: seq<nat>, signed2: bool, n: nat, i: nat)
    requires b > 0 && |s1| <= n && |s2| <= n && i < n && AreWords(b, s1) && AreWords(b, s2)
    requires IsNegative(b, s1, signed1) == IsNegative(b, s2, signed2)
    requires AgreeFrom(b, s1, signed1, s2, signed2, n, i + 1)
    requires WordAt(b, s1, signed1, i) < WordAt(b, s2, signed2, i)
    ensures Number(b, s1, signed1) < Number(b, s2, signed2)
  {
    hide Value, Pow, Number, IsNegative, WordAt;
    SameSign(b, s1, signed1, s2, signed2, n);
    ExtendedWords(b, s1, signed1, n);
    ExtendedWords(b, s2, signed2, n);
    HigherWordDecides(b, Extended(b, s1, signed1, n), Extended(b, s2, signed2, n), i);
  }

  lemma AllAgree(b: nat, s1: seq<nat>, signed1: bool, s2: seq<nat>, signed2: bool, n: nat)
    requires b > 0 && |s1| <= n && |s2| <= n
    requires IsNegative(b, s1, signed1) == IsNegative(b, s2, signed2) && AgreeFrom(b, s1, signed1, s2, signed2, n, 0)
    ensures Number(b, s1, signed1) == Number(b, s2, signed2)
  {
    hide Value, Pow, Number, IsNegative, WordAt;
    SameSign(b, s1, signed1, s2, signed2, n);
    var e1, e2 := Extended(b, s1, signed1, n), Extended(b, s2, signed2, n);
    assert e1[0..] == e1 && e2[0..] == e2;
  }

  /** The order of two numbers; the hint allows telling only whether they are equal. */
  method Compare(b: nat, operand1: StorageSpan, operand2: StorageSpan, isForInequality: bool) returns (r: int)
    requires b > 0 && operand1.Valid(b) && operand2.Valid(b)
    ensures var n1, n2 := Number(b, operand1.Words(), operand1.isSigned), Number(b, operand2.Words(), operand2.isSigned);
            (r != 0 <==> n1 != n2) && (!isForInequality ==> r == Sign(n1 - n2))
  {
    hide Value, Pow, Number, IsNegative, Extended, AgreeFrom;
    ghost var s1, s2 := operand1.Words(), operand2.Words();
    NumberSign(b, s1, operand1.isSigned);
    NumberSign(b, s2, operand2.isSigned);
    var sign1 := NegativeSign(b, operand1);
    var sign2 := NegativeSign(b, operand2);
    var size1, size2 := operand1.size, operand2.size;
    if sign1 != sign2 {
      if sign1 {
        return -1;
      }
      return 1;
    }
    var compareValue := Fill(b, sign1);
    var differInHighBits := false;
    if size1 > size2 {
      differInHighBits := DiffersInHighBits(b, operand1, size2, compareValue);
    } else if size1 < size2 {
      differInHighBits := DiffersInHighBits(b, operand2, size1, compareValue);
    }
    if differInHighBits {
      if size1 > size2 {
        ghost var k :| size2 <= k < size1 && s1[k] != compareValue;
        HighBitsDecide(b, s1, operand1.isSigned, s2, operand2.isSigned, k);
      } else {
        ghost var k :| size1 <= k < size2 && s2[k] != compareValue;
        HighBitsDecide(b, s2, operand2.isSigned, s1, operand1.isSigned, k);
      }
      return if (size1 > size2) != sign1 then 1 else -1;
    }
    r := CompareLowWords(b, operand1, operand2, isForInequality);
  }

  /** The words both operands have, from the top. */
  method CompareLowWords(b: nat, operand1: StorageSpan, operand2: StorageSpan, isForInequality: bool) returns (r: int)
    requires b > 0 && operand1.Valid(b) && operand2.Valid(b)
    requires IsNegative(b, operand1.Words(), operand1.isSigned) == IsNegative(b, operand2.Words(), operand2.isSigned)
    requires var fill := Fill(b, IsNegative(b, operand1.Words(), operand1.isSigned));
             (forall k :: operand2.size <= k < operand1.size ==> operand1.Words()[k] == fill) &&
             (forall k :: operand1.size <= k < operand2.size ==> operand2.Words()[k] == fill)
    ensures var n1, n2 := Number(b, operand1.Words(), operand1.isSigned), Number(b, operand2.Words(), operand2.isSigned);
            (r != 0 <==> n1 != n2) && (!isForInequality ==> r == Sign(n1 - n2))
  {
    hide Value, Pow, Number, IsNegative, Extended, AgreeFrom;
    ghost var s1, s2, n := operand1.Words(), operand2.Words(), Max(operand1.size, operand2.size);
    var i := if operand1.size > operand2.size then operand2.size else operand1.size;
    AgreeHigh(b, s1, operand1.isSigned, s2, operand2.isSigned, n, i);
    while i > 0
      invariant 0 <= i <= operand1.size && i <= operand2.size
      invariant AgreeFrom(b, s1, operand1.isSigned, s2, operand2.isSigned, n, i)
    {
      i := i - 1;
      var word1, word2 := operand1.data[operand1.start + i], operand2.data[operand2.start + i];
      assert word1 == s1[i] && word2 == s2[i];
      if word1 > word2 {
        AgreeBack(b, s1, operand1.isSigned, s2, operand2.isSigned, n, i + 1);
        LowWordDecides(b, s2, operand2.isSigned, s1, operand1.isSigned, n, i);
      } else if word1 < word2 {
        LowWordDecides(b, s1, operand1.isSigned, s2, operand2.isSigned, n, i);
      } else {
        AgreeDown(b, s1, operand1.isSigned, s2, operand2.isSigned, n, i);
      }
      if isForInequality {
        if word1 != word2 {
          return 1;
        }
      } else {
        if word1 > word2 {
          return 1;
        }
        if word1 < word2 {
          return -1;
        }
      }
    }
    AllAgree(b, s1, operand1.isSigned, s2, operand2.isSigned, n);
    return 0;
  }

  lemma AgreeBack(b: nat, s1: seq<nat>, signed1: bool, s2: seq<nat>, signed2: bool, n: nat, i: nat)
    requires b > 0 && AgreeFrom(b, s1, signed1, s2, signed2, n, i)
    ensures AgreeFrom(b, s2, signed2, s1, signed1, n, i)
  {}

  // ----- One more, one less, and the negative -----

  function Zeros(n: nat): (r: seq<nat>)
    ensures |r| == n && forall i :: 0 <= i < n ==> r[i] == 0
  {
    seq(n, _ => 0)
  }

  lemma WholeExtended(b: nat, s: seq<nat>, isSigned: bool)
    requires b > 0
    ensures Extended(b, s, isSigned, |s|) == s
  {}

  lemma ZerosNumber(b: nat, n: nat)
    requires b > 0
    ensures Number(b, Zeros(n), false) == 0 && Value(b, Zeros(n)) == 0 && AreWords(b, Zeros(n))
  {
    ValueZeros(b, Zeros(n));
  }

  /**
   Adds or subtracts one in place. With r the returned value, a + 1 or a - 1 is c + r * base^size for the numbers
   before and after.
   */
  method Increment(b: nat, subtract: bool, operand: StorageSpan) returns (overflow: int)
    requires b >= 2 && operand.Valid(b)
    modifies operand.data
    ensures operand.Valid(b)
    ensures operand.data[..] == Splice(old(operand.data[..]), operand.start, operand.Words())
    ensures old(Number(b, operand.Words(), operand.isSigned)) + Signed(subtract, 1)
         == Number(b, operand.Words(), operand.isSigned) + overflow * Pow(b, operand.size)
  {
    hide Value, Pow, Extended, Number, AddWords, Summed, Splice, IsNegative;
    var carry := true;
    var sign := NegativeSign(b, operand);
    var size := operand.size;
    ghost var memory, xs, ys, zs := operand.data[..], operand.Words(), Zeros(size), [];
    SpliceNothing(memory, operand.start);
    SumEmpty(b, subtract, xs, ys, true);
    for i := 0 to size
      invariant |zs| == i && AreWords(b, zs) && operand.data[..] == Splice(memory, operand.start, zs)
      invariant Summed(b, subtract, xs[..i], ys[..i], zs, true, carry)
    {
      SpliceUntouched(memory, operand.start, zs, operand.start + i);
      assert operand.data[..][operand.start + i] == memory[operand.start + i] == xs[i];
      SumStep(b, subtract, xs, ys, zs, true, carry, i);
      var (word, carryOut) := AddWords(b, subtract, operand.data[operand.start + i], 0, carry);
      SpliceSnoc(memory, operand.start, zs, word);
      operand.data[operand.start + i] := word;
      carry := carryOut;
      zs := zs + [word];
    }
    SpliceParts(memory, operand.start, zs);
    assert operand.Words() == zs;
    var after := NegativeSign(b, operand);
    overflow := OverflowCode(subtract, sign, false, carry, after);
    IncrementEquation(b, subtract, xs, operand.isSigned, zs, carry);
  }

  lemma IncrementEquation(b: nat, subtract: bool, xs: seq<nat>, isSigned: bool, zs: seq<nat>, carry: bool)
    requires b > 0 && |zs| == |xs| && Summed(b, subtract, xs[..|xs|], Zeros(|xs|)[..|xs|], zs, true, carry)
    ensures Number(b, xs, isSigned) + Signed(subtract, 1)
         == Number(b, zs, isSigned) +
            OverflowCode(subtract, IsNegative(b, xs, isSigned), false, carry, IsNegative(b, zs, isSigned)) * Pow(b, |zs|)
  {
    var n, zeros := |xs|, Zeros(|xs|);
    assert xs[..n] == xs && zeros[..n] == zeros;
    WholeExtended(b, xs, isSigned);
    WholeExtended(b, zeros, false);
    ZerosNumber(b, n);
    hide Value, Pow, Extended, Number, Summed, Contribution;
    OverflowEquation(b, subtract, xs, isSigned, zeros, false, zs, isSigned, true, carry);
    ValueExtended(b, xs, isSigned, n);
    ValueExtended(b, zeros, false, n);
  }

  /** Stores the two's complement negative, and tells whether the operand was not zero. */
  method Negate(b: nat, operand: StorageSpan, result: StorageSpan) returns (carry: bool)
    requires b >= 2 && operand.Valid(b) && result.Valid(b) && operand.size == result.size && operand.SafeWith(result)
    modifies result.data
    ensures result.Valid(b)
    ensures result.data[..] == Splice(old(result.data[..]), result.start, result.Words())
    ensures carry <==> old(Value(b, operand.Words())) != 0
    ensures Value(b, result.Words()) == if carry then Pow(b, result.size) - old(Value(b, operand.Words())) else 0
  {
    hide Value, Pow, AddWords, Summed, Splice;
    carry := false;
    var size := operand.size;
    ghost var memory, xs, ys, zs := result.data[..], Zeros(size), operand.Words(), [];
    SpliceNothing(memory, result.start);
    SumEmpty(b, true, xs, ys, false);
    for i := 0 to size
      invariant |zs| == i && AreWords(b, zs) && result.data[..] == Splice(memory, result.start, zs)
      invariant Summed(b, true, xs[..i], ys[..i], zs, false, carry)
    {
      SpliceUntouched(memory, result.start, zs, result.start + i);
      assert result.data[..][result.start + i] == memory[result.start + i];
      assert operand.data[operand.start + i] == ys[i];
      SumStep(b, true, xs, ys, zs, false, carry, i);
      var (word, carryOut) := AddWords(b, true, 0, operand.data[operand.start + i], carry);
      SpliceSnoc(memory, result.start, zs, word);
      result.data[result.start + i] := word;
      carry := carryOut;
      zs := zs + [word];
    }
    SpliceParts(memory, result.start, zs);
    assert result.Words() == zs;
    NegateEquation(b, ys, zs, carry);
  }

  lemma NegateEquation(b: nat, ys: seq<nat>, zs: seq<nat>, carry: bool)
    requires b >= 2 && |zs| == |ys| && AreWords(b, ys) && AreWords(b, zs)
    requires Summed(b, true, Zeros(|ys|)[..|ys|], ys[..|ys|], zs, false, carry)
    ensures carry <==> Value(b, ys) != 0
    ensures Value(b, zs) == if carry then Pow(b, |zs|) - Value(b, ys) else 0
  {
    var n := |ys|;
    assert Zeros(n)[..n] == Zeros(n) && ys[..n] == ys;
    ZerosNumber(b, n);
    ValueBound(b, ys);
    ValueBound(b, zs);
  }
}
