/**
 Schoolbook multiplication, column by column and truncated to the width of the result. Signs are taken off before and
 put back after; two single words take a path of their own.
 */
module Multiplication {
  import opened Basics
  import opened Powers
  import opened Words
  import opened StorageOperations
  import opened Comparison

  /** The contribution of word j of xs to column k of the product. */
  function Term(xs: seq<nat>, ys: seq<nat>, k: nat, j: nat): nat
    requires j < |xs|
  {
    if j <= k < j + |ys| then xs[j] * ys[k - j] else 0
  }

  /** Column k of the product of the first rows words of xs with ys. */
  function Column(xs: seq<nat>, ys: seq<nat>, k: nat, rows: nat): nat
    requires rows <= |xs|
  {
    if rows == 0 then 0 else Column(xs, ys, k, rows - 1) + Term(xs, ys, k, rows - 1)
  }

  /** The first n columns, each with its weight. */
  function Columns(b: nat, xs: seq<nat>, ys: seq<nat>, n: nat, rows: nat): nat
    requires rows <= |xs|
  {
    if n == 0 then 0 else Columns(b, xs, ys, n - 1, rows) + Column(xs, ys, n - 1, rows) * Pow(b, n - 1)
  }

  /** Row j of the product, up to column n. */
  function Row(b: nat, xs: seq<nat>, ys: seq<nat>, n: nat, j: nat): nat
    requires j < |xs|
  {
    if n == 0 then 0 else Row(b, xs, ys, n - 1, j) + Term(xs, ys, n - 1, j) * Pow(b, n - 1)
  }

  lemma {:induction false} ColumnsByRows(b: nat, xs: seq<nat>, ys: seq<nat>, n: nat, rows: nat)
    requires rows < |xs|
    ensures Columns(b, xs, ys, n, rows + 1) == Columns(b, xs, ys, n, rows) + Row(b, xs, ys, n, rows)
  {
    hide Pow, Term;
    if n > 0 {
      ColumnsByRows(b, xs, ys, n - 1, rows);
      assert Column(xs, ys, n - 1, rows + 1) == Column(xs, ys, n - 1, rows) + Term(xs, ys, n - 1, rows);
      SumTimes(Column(xs, ys, n - 1, rows), Term(xs, ys, n - 1, rows), Pow(b, n - 1));
    }
  }

  lemma SumTimes(x: nat, y: nat, p: nat)
    ensures (x + y) * p == x * p + y * p
  {}

  /** A row is the second factor, moved up to its column and cut off at column n. */
  lemma {:induction false} RowValue(b: nat, xs: seq<nat>, ys: seq<nat>, n: nat, j: nat)
    requires j < |xs|
    ensures Row(b, xs, ys, n, j)
         == if n < j then 0 else xs[j] * (Pow(b, j) * Value(b, ys[..Min(n - j, |ys|)]))
  {
    hide Pow, Value;
    ValueEmpty(b);
    if n == 0 {
      assert ys[..0] == [];
    } else {
      RowValue(b, xs, ys, n - 1, j);
      var c := n - 1 - j;
      if 0 <= c < |ys| {
        ValueTake(b, ys, c);
        PowAdd(b, j, c);
        RowArithmetic(xs[j], ys[c], Pow(b, j), Pow(b, c), Value(b, ys[..c]));
      } else if c < 0 {
        assert ys[..0] == [];
      }
    }
  }

  lemma RowArithmetic(x: nat, y: nat, pj: nat, pc: nat, v: nat)
    ensures x * (pj * v) + (x * y) * (pj * pc) == x * (pj * (v + y * pc))
  {
    assert (x * y) * (pj * pc) == x * (pj * (y * pc));
    assert pj * (v + y * pc) == pj * v + pj * (y * pc);
  }

  /** What a row loses by being cut off is a multiple of b^n. */
  lemma RowCutOff(b: nat, xs: seq<nat>, ys: seq<nat>, n: nat, j: nat) returns (q: nat)
    requires j < |xs|
    ensures (xs[j] * Pow(b, j)) * Value(b, ys) == Row(b, xs, ys, n, j) + q * Pow(b, n)
  {
    hide Pow, Value, Row;
    RowValue(b, xs, ys, n, j);
    if n < j {
      PowAdd(b, n, j - n);
      q := xs[j] * Pow(b, j - n) * Value(b, ys);
      RegroupShort(xs[j], Pow(b, n), Pow(b, j - n), Value(b, ys));
    } else if n - j < |ys| {
      var c := n - j;
      assert ys == ys[..c] + ys[c..];
      ValueSplit(b, ys[..c], ys[c..]);
      PowAdd(b, j, c);
      q := xs[j] * Value(b, ys[c..]);
      RegroupLong(xs[j], Pow(b, j), Pow(b, c), Value(b, ys[..c]), Value(b, ys[c..]));
    } else {
      assert ys[..|ys|] == ys;
      q := 0;
      MulAssociative(xs[j], Pow(b, j), Value(b, ys));
    }
  }

  lemma RegroupShort(x: nat, pn: nat, pr: nat, v: nat)
    ensures (x * (pn * pr)) * v == (x * pr * v) * pn
  {}

  lemma RegroupLong(x: nat, pj: nat, pc: nat, low: nat, high: nat)
    ensures (x * pj) * (low + pc * high) == x * (pj * low) + (x * high) * (pj * pc)
  {
    assert (x * pj) * (low + pc * high) == (x * pj) * low + (x * pj) * (pc * high);
    assert (x * pj) * (pc * high) == (x * high) * (pj * pc);
  }

  /** The first n columns are the product modulo b^n. */
  lemma {:induction false} ColumnsAreProduct(b: nat, xs: seq<nat>, ys: seq<nat>, n: nat, rows: nat) returns (q: nat)
    requires rows <= |xs|
    ensures Value(b, xs[..rows]) * Value(b, ys) == Columns(b, xs, ys, n, rows) + q * Pow(b, n)
  {
    hide Pow, Value, Columns;
    if rows == 0 {
      assert xs[..0] == [];
      ValueEmpty(b);
      NoRows(b, xs, ys, n);
      q := 0;
    } else {
      var q1 := ColumnsAreProduct(b, xs, ys, n, rows - 1);
      var q2 := RowCutOff(b, xs, ys, n, rows - 1);
      ValueTake(b, xs, rows - 1);
      ColumnsByRows(b, xs, ys, n, rows - 1);
      q := q1 + q2;
      SumTimes(Value(b, xs[..rows - 1]), xs[rows - 1] * Pow(b, rows - 1), Value(b, ys));
      SumTimes(q1, q2, Pow(b, n));
    }
  }

  lemma {:induction false} NoRows(b: nat, xs: seq<nat>, ys: seq<nat>, n: nat)
    ensures Columns(b, xs, ys, n, 0) == 0
  {
    if n > 0 {
      NoRows(b, xs, ys, n - 1);
    }
  }

  /** Words from n on do not matter modulo b^n. */
  lemma TrimmedValue(b: nat, s: seq<nat>, n: nat) returns (q: nat)
    ensures Value(b, s) == Value(b, s[..Min(n, |s|)]) + q * Pow(b, n)
  {
    hide Pow, Value;
    if n <= |s| {
      assert s == s[..n] + s[n..];
      ValueSplit(b, s[..n], s[n..]);
      q := Value(b, s[n..]);
    } else {
      assert s[..|s|] == s;
      q := 0;
    }
  }

  lemma TrimmedArithmetic(x: nat, q1: nat, y: nat, q2: nat, z: nat, q3: nat, p: nat) returns (q: nat)
    requires x * y == z + q3 * p
    ensures (x + q1 * p) * (y + q2 * p) == z + q * p
  {
    q := q3 + x * q2 + q1 * y + q1 * q2 * p;
    assert (x + q1 * p) * (y + q2 * p) == x * y + x * (q2 * p) + (q1 * p) * y + (q1 * p) * (q2 * p);
    assert q * p == q3 * p + (x * q2) * p + (q1 * y) * p + (q1 * q2 * p) * p;
  }

  /** Columns of the operands cut to n words, up to a carry, determine the product modulo b^n. */
  lemma ProductFromColumns(b: nat, xs: seq<nat>, ys: seq<nat>, n: nat, zs: seq<nat>, carry: nat)
    requires b > 0 && |zs| == n && AreWords(b, zs)
    requires var xt, yt := xs[..Min(n, |xs|)], ys[..Min(n, |ys|)];
             Value(b, zs) + carry * Pow(b, n) == Columns(b, xt, yt, n, |xt|)
    ensures Pow(b, n) > 0 && Value(b, zs) == (Value(b, xs) * Value(b, ys)) % Pow(b, n)
  {
    hide Pow, Value, Columns;
    var xt, yt := xs[..Min(n, |xs|)], ys[..Min(n, |ys|)];
    PowPositive(b, n);
    ValueBound(b, zs);
    var q1 := TrimmedValue(b, xs, n);
    var q2 := TrimmedValue(b, ys, n);
    var q3 := ColumnsAreProduct(b, xt, yt, n, |xt|);
    assert xt[..|xt|] == xt;
    SumTimes(carry, q3, Pow(b, n));
    var q := TrimmedArithmetic(Value(b, xt), q1, Value(b, yt), q2, Value(b, zs), carry + q3, Pow(b, n));
    DivModUnique(Value(b, xs) * Value(b, ys), Pow(b, n), q, Value(b, zs));
  }

  // ----- The column loops -----

  lemma {:induction false} ColumnBelow(xs: seq<nat>, ys: seq<nat>, k: nat, rows: nat)
    requires rows <= |xs| && (rows == 0 || rows + |ys| <= k + 1)
    ensures Column(xs, ys, k, rows) == 0
  {
    if rows > 0 {
      ColumnBelow(xs, ys, k, rows - 1);
    }
  }

  lemma {:induction false} ColumnAbove(xs: seq<nat>, ys: seq<nat>, k: nat, rows: nat, all: nat)
    requires k < rows <= all <= |xs|
    ensures Column(xs, ys, k, all) == Column(xs, ys, k, rows)
    decreases all
  {
    if rows < all {
      ColumnAbove(xs, ys, k, rows, all - 1);
    }
  }

  lemma {:induction false} ColumnBound(b: nat, xs: seq<nat>, ys: seq<nat>, k: nat, rows: nat)
    requires b > 0 && rows <= |xs| && AreWords(b, xs) && AreWords(b, ys)
    ensures Column(xs, ys, k, rows) <= Occupied(|ys|, k, rows) * ((b - 1) * (b - 1))
  {
    if rows > 0 {
      ColumnBound(b, xs, ys, k, rows - 1);
      var j, m := rows - 1, Occupied(|ys|, k, rows - 1);
      if j <= k < j + |ys| {
        MulMonotone(xs[j], b - 1, ys[k - j]);
        MulMonotone(ys[k - j], b - 1, b - 1);
        SumTimes(m, 1, (b - 1) * (b - 1));
      }
    }
  }

  /** How many of the first rows rows reach column k, when the second factor has m words. */
  function Occupied(m: nat, k: nat, rows: nat): (n: nat)
    ensures n <= m
    ensures rows + m <= k + 1 ==> n == 0
    ensures k + 1 < rows + m ==> n <= rows + m - k - 1
  {
    if rows == 0 then 0
    else if rows - 1 <= k < rows - 1 + m then 1 + Occupied(m, k, rows - 1)
    else Occupied(m, k, rows - 1)
  }

  /** The carry left by a column of a product whose smaller factor has m words. */
  ghost predicate CarryFits(b: nat, m: nat, carry: nat)
    requires b > 0
  {
    carry <= m * (b - 1)
  }

  predicate FitsDoubleWord(b: nat, n: nat) {
    n < b * b
  }

  /** The bound on the carry is kept from column to column, so the double word never overflows. */
  lemma CarryBound(b: nat, m: nat, carryIn: nat, column: nat, word: nat, carry: nat)
    requires b > 0 && m < b && carryIn <= m * (b - 1) && column <= m * ((b - 1) * (b - 1))
    requires word + carry * b == carryIn + column
    ensures carry <= m * (b - 1) < b * b
  {
    assert m * (b - 1) + m * ((b - 1) * (b - 1)) == (m * (b - 1)) * b by {
      MulAssociative(m, b - 1, b - 1);
      assert (m * (b - 1)) * b == m * (b - 1) + (m * (b - 1)) * (b - 1);
    }
    assert (m * (b - 1) + 1) * b == (m * (b - 1)) * b + b;
    MulCancelStrict(carry, m * (b - 1) + 1, b);
    MulMonotone(m, b, b - 1);
    assert b * (b - 1) < b * b;
  }

  lemma ColumnStep(b: nat, xs: seq<nat>, ys: seq<nat>, i: nat, zs: seq<nat>, carryIn: nat, word: nat, carry: nat)
    requires |zs| == i
    requires Value(b, zs) + carryIn * Pow(b, i) == Columns(b, xs, ys, i, |xs|)
    requires word + carry * b == carryIn + Column(xs, ys, i, |xs|)
    ensures Value(b, zs + [word]) + carry * Pow(b, i + 1) == Columns(b, xs, ys, i + 1, |xs|)
  {
    hide Pow, Value, Column;
    ValueSnoc(b, zs, word);
    PowStep(b, i);
    SumTimes(carryIn, Column(xs, ys, i, |xs|), Pow(b, i));
    SumTimes(word, carry * b, Pow(b, i));
    MulAssociative(carry, b, Pow(b, i));
  }

  /** Adding one product: its low word goes to the result word, its high word and the overflow to the carry. */
  lemma ProductStep(b: nat, word: nat, carry: nat, total: nat, x: nat, low: nat, high: nat, word': nat, overflow: bool)
    requires word + carry * b == total && x == high * b + low
    requires word + Signed(false, low + CarryOf(false)) == word' + Signed(false, CarryOf(overflow) * b)
    ensures word' + (carry + high + CarryOf(overflow)) * b == total + x
  {
    assert (carry + high + CarryOf(overflow)) * b == carry * b + high * b + CarryOf(overflow) * b;
  }

  /** What the inner loop keeps of word and carry after its first rows rows. */
  ghost predicate ColumnSum(b: nat, xs: seq<nat>, ys: seq<nat>, i: nat, rows: nat, carryIn: nat, word: nat, carry: nat) {
    rows <= |xs| && word < b && word + carry * b == carryIn + Column(xs, ys, i, rows)
  }

  lemma ColumnSumStep(b: nat, xs: seq<nat>, ys: seq<nat>, i: nat, j: nat, carryIn: nat, word: nat, carry: nat)
    requires j < |xs| && j <= i < j + |ys| && AreWords(b, xs) && AreWords(b, ys)
    requires ColumnSum(b, xs, ys, i, j, carryIn, word, carry)
    ensures word < b
    ensures var (low, high) := WideMultiply(b, xs[j], ys[i - j], 0);
            var (word', overflow) := AddWords(b, false, word, low, false);
            ColumnSum(b, xs, ys, i, j + 1, carryIn, word', carry + high + CarryOf(overflow))
  {
    hide WideMultiply, AddWords, Column;
    var (low, high) := WideMultiply(b, xs[j], ys[i - j], 0);
    var (word', overflow) := AddWords(b, false, word, low, false);
    ColumnNext(xs, ys, i, j);
    ProductStep(b, word, carry, carryIn + Column(xs, ys, i, j), xs[j] * ys[i - j], low, high, word', overflow);
  }

  lemma ColumnSumBound(b: nat, xs: seq<nat>, ys: seq<nat>, i: nat, rows: nat, carryIn: nat, word: nat, carry: nat)
    requires AreWords(b, xs) && AreWords(b, ys) && |ys| < b && CarryFits(b, |ys|, carryIn)
    requires ColumnSum(b, xs, ys, i, rows, carryIn, word, carry)
    ensures CarryFits(b, |ys|, carry) && FitsDoubleWord(b, carry)
  {
    hide Column;
    ColumnBound(b, xs, ys, i, rows);
    MulMonotone(Occupied(|ys|, i, rows), |ys|, (b - 1) * (b - 1));
    CarryBound(b, |ys|, carryIn, Column(xs, ys, i, rows), word, carry);
  }

  method ReadWord(operand: StorageSpan, size: nat, k: nat) returns (word: nat)
    requires operand.start + operand.size <= operand.data.Length && k < size <= operand.size
    ensures word == operand.Words()[..size][k]
  {
    word := operand.data[operand.start + k];
  }

  /** The inner loop: adds the products of column i into word i of the result and a double-word carry. */
  method AccumulateColumn(b: nat, operand1: StorageSpan, size1: nat, operand2: StorageSpan, size2: nat,
                          result: StorageSpan, i: nat, carryIn: nat)
    returns (carry: nat)
    requires b > 0 && operand1.Valid(b) && operand2.Valid(b) && result.Valid(b)
    requires operand1.data != result.data && operand2.data != result.data
    requires size1 <= operand1.size && size2 <= operand2.size && i < result.size
    requires size2 < b && CarryFits(b, size2, carryIn)
    modifies result.data
    ensures result.data[..] == old(result.data[..])[result.start + i := result.data[result.start + i]]
    ensures result.data[result.start + i] < b
    ensures CarryFits(b, size2, carry) && FitsDoubleWord(b, carry)
    ensures result.data[result.start + i] + carry * b
         == carryIn + Column(operand1.Words()[..size1], operand2.Words()[..size2], i, size1)
  {
    hide Column, AddWords, WideMultiply, ColumnSum, CarryFits, FitsDoubleWord;
    ghost var xs, ys, memory := operand1.Words()[..size1], operand2.Words()[..size2], result.data[..];
    ghost var at := result.start + i;
    result.data[result.start + i] := carryIn % b;
    carry := carryIn / b;
    var startIndex := if i >= size2 then i - size2 + 1 else 0;
    var endIndex := Min(i + 1, size1);
    var j := startIndex;
    ColumnSumStart(b, xs, ys, i, Min(j, size1), carryIn);
    while j < endIndex
      invariant startIndex <= j && (j <= endIndex || j == startIndex)
      invariant result.data[..] == memory[at := result.data[at]]
      invariant ColumnSum(b, xs, ys, i, Min(j, size1), carryIn, result.data[at], carry)
    {
      ColumnSumStep(b, xs, ys, i, j, carryIn, result.data[at], carry);
      var word1 := ReadWord(operand1, size1, j);
      var word2 := ReadWord(operand2, size2, i - j);
      var (low, high) := WideMultiply(b, word1, word2, 0);
      var (word, overflow) := AddWords(b, false, result.data[result.start + i], low, false);
      result.data[result.start + i] := word;
      carry := carry + high + CarryOf(overflow);
      j := j + 1;
      ColumnSumBound(b, xs, ys, i, j, carryIn, word, carry);
      assert FitsDoubleWord(b, carry);
    }
    ColumnSumEnd(b, xs, ys, i, j, endIndex, carryIn, result.data[at], carry);
    ColumnSumBound(b, xs, ys, i, size1, carryIn, result.data[at], carry);
  }

  lemma ColumnSumStart(b: nat, xs: seq<nat>, ys: seq<nat>, i: nat, rows: nat, carryIn: nat)
    requires b > 0 && rows <= |xs| && (rows == 0 || rows + |ys| <= i + 1)
    ensures ColumnSum(b, xs, ys, i, rows, carryIn, carryIn % b, carryIn / b)
  {
    hide Column;
    ColumnBelow(xs, ys, i, rows);
  }

  lemma ColumnSumEnd(b: nat, xs: seq<nat>, ys: seq<nat>, i: nat, j: nat, end: nat, carryIn: nat, word: nat, carry: nat)
    requires end == Min(i + 1, |xs|) && j >= end && (j == end || j == (if i >= |ys| then i - |ys| + 1 else 0))
    requires ColumnSum(b, xs, ys, i, Min(j, |xs|), carryIn, word, carry)
    ensures ColumnSum(b, xs, ys, i, |xs|, carryIn, word, carry)
    ensures word < b && word + carry * b == carryIn + Column(xs, ys, i, |xs|)
  {
    hide Column;
    ColumnRest(xs, ys, i, j, end);
  }

  lemma ColumnNext(xs: seq<nat>, ys: seq<nat>, k: nat, j: nat)
    requires j < |xs| && j <= k < j + |ys|
    ensures Column(xs, ys, k, j + 1) == Column(xs, ys, k, j) + xs[j] * ys[k - j]
  {}

  /** The rows after the last one visited do not reach the column. */
  lemma ColumnRest(xs: seq<nat>, ys: seq<nat>, k: nat, j: nat, end: nat)
    requires end == Min(k + 1, |xs|) && j >= end && (j == end || j == (if k >= |ys| then k - |ys| + 1 else 0))
    ensures Column(xs, ys, k, Min(j, |xs|)) == Column(xs, ys, k, |xs|)
  {
    if j < |xs| {
      ColumnAbove(xs, ys, k, j, |xs|);
    }
  }

  // ----- Signs -----

  /** The words of a span that denote the number without its sign, or all its words when the result is no wider. */
  method Magnitude(b: nat, operand: StorageSpan, negative: bool) returns (factor: StorageSpan)
    requires b >= 2 && operand.Valid(b) && negative == IsNegative(b, operand.Words(), operand.isSigned)
    ensures factor.Valid(b) && factor.size == operand.size && (factor.data == operand.data || fresh(factor.data))
    ensures Value(b, factor.Words()) ==
            if negative then -Number(b, operand.Words(), operand.isSigned) else Number(b, operand.Words(), operand.isSigned)
  {
    hide Value, Pow, Splice;
    if !negative {
      return operand;
    }
    var inverted := new nat[operand.size](_ => 0);
    factor := StorageSpan(inverted, 0, operand.size, false);
    NegativeIsNotZero(b, operand.Words());
    var carry := Negate(b, operand, factor);
  }

  lemma NegativeIsNotZero(b: nat, s: seq<nat>)
    requires b >= 2 && IsNegative(b, s, true)
    ensures Value(b, s) > 0
  {
    hide Value, Pow;
    ValueTop(b, s);
    PowPositive(b, |s| - 1);
    MulPositive(s[|s| - 1], Pow(b, |s| - 1));
  }

  /** Words that reach beyond the result contribute like the number they denote. */
  lemma RawFactor(b: nat, s: seq<nat>, isSigned: bool, size: nat) returns (k: int)
    requires b >= 2 && size <= |s|
    ensures Value(b, s) == Number(b, s, isSigned) + k * Pow(b, size)
  {
    hide Value, Pow;
    PowAdd(b, size, |s| - size);
    k := if IsNegative(b, s, isSigned) then Pow(b, |s| - size) else 0;
  }

  lemma RawProduct(v1: int, v2: int, n1: int, n2: int, k1: int, k2: int, m: nat)
    requires m > 0 && v1 == n1 + k1 * m && v2 == n2 + k2 * m
    ensures (v1 * v2) % m == (n1 * n2) % m
  {
    var k := k1 * n2 + k2 * n1 + k1 * k2 * m;
    assert v1 * v2 == n1 * n2 + k * m by {
      ProductOfSums(n1, k1, n2, k2, m);
    }
    ModPlusMultiple(n1 * n2, k, m);
  }

  lemma ProductOfSums(n1: int, k1: int, n2: int, k2: int, m: int)
    ensures (n1 + k1 * m) * (n2 + k2 * m) == n1 * n2 + (k1 * n2 + k2 * n1 + k1 * k2 * m) * m
  {
    assert (n1 + k1 * m) * (n2 + k2 * m) == n1 * (n2 + k2 * m) + (k1 * m) * (n2 + k2 * m);
    assert n1 * (n2 + k2 * m) == n1 * n2 + (k2 * n1) * m;
    assert (k1 * m) * (n2 + k2 * m) == (k1 * n2) * m + (k1 * k2 * m) * m;
    assert (k1 * n2 + k2 * n1 + k1 * k2 * m) * m == (k1 * n2) * m + (k2 * n1) * m + (k1 * k2 * m) * m;
  }

  /** Two numbers without their signs, multiplied, and the sign put back. */
  lemma SignedProduct(f1: int, f2: int, n1: int, n2: int, sign1: bool, sign2: bool, r: int, m: int)
    requires m > 0 && f1 * f2 >= 0 && n1 == (if sign1 then -f1 else f1) && n2 == (if sign2 then -f2 else f2) && r == (f1 * f2) % m
    ensures sign1 == sign2 ==> r == (n1 * n2) % m
    ensures sign1 != sign2 ==> (n1 * n2) % m == if r == 0 then 0 else m - r
  {
    MinusProduct(f1, f2);
    if sign1 != sign2 {
      assert n1 * n2 == -(f1 * f2);
      NegatedRemainder(f1 * f2, m);
    } else {
      assert n1 * n2 == f1 * f2;
    }
  }

  lemma ProductNotNegative(x: nat, y: nat)
    ensures x * y >= 0
  {}

  lemma MinusProduct(x: int, y: int)
    ensures (-x) * y == -(x * y) && x * (-y) == -(x * y) && (-x) * (-y) == x * y
  {}

  lemma NegatedRemainder(x: int, m: int)
    requires m > 0 && x >= 0
    ensures (-x) % m == if x % m == 0 then 0 else m - x % m
  {
    var q, r := x / m, x % m;
    assert x == q * m + r;
    if r == 0 {
      ModPlusMultiple(0, -q, m);
      assert (-q) * m == -x;
    } else {
      ModPlusMultiple(m - r, -q - 1, m);
      assert (-q - 1) * m == -(q * m) - m;
      SmallMod(m - r, m);
    }
  }

  /**
   The product of two spans modulo the size of the result, for all signs; of two single words exactly when OneWordRight
   holds, unless a product of signed words overflows. Operand lengths stay below the base: no storage has as many words
   as a word has values.
   */
  method BaselineMul(b: nat, operand1: StorageSpan, operand2: StorageSpan, result: StorageSpan)
    requires b >= 2 && operand1.Valid(b) && operand2.Valid(b) && result.Valid(b) && result.size > 0
    requires operand1.data != result.data && operand2.data != result.data
    requires operand1.size < b && operand2.size < b
    modifies result.data
    ensures result.Valid(b)
    ensures result.data[..] == Splice(old(result.data[..]), result.start, result.Words())
    ensures Pow(b, result.size) > 0
    ensures operand1.size != 1 || operand2.size != 1 ==> IsProduct(b, operand1, operand2, result)
    ensures operand1.size == 1 && operand2.size == 1 ==>
              var x, y := operand1.Words()[0], operand2.Words()[0];
              !SignedOverflow(b, x, y, operand1.isSigned, operand2.isSigned) ==>
                (IsProduct(b, operand1, operand2, result) <==>
                 OneWordRight(b, x, y, operand1.Negative(b), operand2.Negative(b), result.size))
    decreases operand1.size < operand2.size
  {
    hide Value, Pow, Splice, OneWordRight, OneWordValue, SignedOverflow;
    if operand1.size == 1 && operand2.size == 1 {
      MultiplySingleWords(b, operand1, operand2, result);
      ghost var x, y := operand1.Words()[0], operand2.Words()[0];
      OneWord(b, operand1.Words(), operand1.isSigned);
      OneWord(b, operand2.Words(), operand2.isSigned);
      OneWordExactly(b, x, y, operand1.Negative(b), operand2.Negative(b), result.size);
    } else if operand1.size < operand2.size {
      BaselineMul(b, operand2, operand1, result);
      Commute(Number(b, operand1.Words(), operand1.isSigned), Number(b, operand2.Words(), operand2.isSigned));
    } else {
      MultiplyWithSigns(b, operand1, operand2, result);
    }
  }

  /** The words of the result denote the product of the operands modulo the size of the result. */
  ghost predicate IsProduct(b: nat, operand1: StorageSpan, operand2: StorageSpan, result: StorageSpan)
    requires operand1.Valid(b) && operand2.Valid(b) && result.Valid(b) && Pow(b, result.size) > 0
    reads operand1.data, operand2.data, result.data
  {
    Value(b, result.Words()) ==
    (Number(b, operand1.Words(), operand1.isSigned) * Number(b, operand2.Words(), operand2.isSigned)) % Pow(b, result.size)
  }

  lemma OneWord(b: nat, s: seq<nat>, isSigned: bool)
    requires |s| == 1
    ensures Number(b, s, isSigned) == OneWordNumber(b, s[0], IsNegative(b, s, isSigned))
  {
    hide Value, Pow;
    assert s == [s[0]];
    ValueOfOne(b, s[0]);
    PowStep(b, 0);
  }

  lemma Commute(x: int, y: int)
    ensures x * y == y * x
  {}

  /** The general path: signs are taken off and put back only when the result is wider than an operand. */
  method MultiplyWithSigns(b: nat, operand1: StorageSpan, operand2: StorageSpan, result: StorageSpan)
    requires b >= 2 && operand1.Valid(b) && operand2.Valid(b) && result.Valid(b) && result.size > 0
    requires operand1.data != result.data && operand2.data != result.data
    requires operand2.size <= operand1.size < b
    modifies result.data
    ensures result.Valid(b)
    ensures result.data[..] == Splice(old(result.data[..]), result.start, result.Words())
    ensures Pow(b, result.size) > 0
    ensures Value(b, result.Words()) ==
            (Number(b, operand1.Words(), operand1.isSigned) * Number(b, operand2.Words(), operand2.isSigned)) % Pow(b, result.size)
  {
    hide Value, Pow, Splice, Number;
    var sign1 := NegativeSign(b, operand1);
    var sign2 := NegativeSign(b, operand2);
    ghost var n1, n2 := Number(b, operand1.Words(), operand1.isSigned), Number(b, operand2.Words(), operand2.isSigned);
    ghost var memory := result.data[..];
    PowPositive(b, result.size);
    if operand2.size < result.size {
      var factor1 := Magnitude(b, operand1, sign1);
      var factor2 := Magnitude(b, operand2, sign2);
      MultiplyColumns(b, factor1, factor2, result);
      ghost var first := result.Words();
      ProductNotNegative(Value(b, factor1.Words()), Value(b, factor2.Words()));
      SignedProduct(Value(b, factor1.Words()), Value(b, factor2.Words()), n1, n2, sign1, sign2, Value(b, first), Pow(b, result.size));
      if sign1 != sign2 {
        var carry := Negate(b, result, result);
        SpliceAgain(memory, result.start, first, result.Words());
      }
    } else {
      ghost var k1 := RawFactor(b, operand1.Words(), operand1.isSigned, result.size);
      ghost var k2 := RawFactor(b, operand2.Words(), operand2.isSigned, result.size);
      RawProduct(Value(b, operand1.Words()), Value(b, operand2.Words()), n1, n2, k1, k2, Pow(b, result.size));
      MultiplyColumns(b, operand1, operand2, result);
    }
  }

  lemma SpliceAgain(memory: seq<nat>, at: nat, zs: seq<nat>, zs': seq<nat>)
    requires |zs| == |zs'| && at + |zs| <= |memory|
    ensures |Splice(memory, at, zs)| == |memory| && Splice(Splice(memory, at, zs), at, zs') == Splice(memory, at, zs')
  {}

  // ----- One word times one word -----

  /** The product of two words that both come from signed spans does not fit in the signed double word. */
  predicate SignedOverflow(b: nat, x: nat, y: nat, signed1: bool, signed2: bool) {
    signed1 && signed2 && 2 * (x * y) >= b * b
  }

  /**
   Two single words are multiplied as words without signs; only the words above the second know of the signs. That is
   the product of the numbers in exactly these cases.
   */
  predicate OneWordRight(b: nat, x: nat, y: nat, negative1: bool, negative2: bool, size: nat) {
    size == 1 || (!negative1 && !negative2) ||
    if negative1 && negative2 then x + y == b else size == 2 && (if negative1 then y else x) == 0
  }

  /** What the words of the result denote, before it is cut off. */
  function OneWordValue(b: nat, x: nat, y: nat, negative: bool): int {
    x * y - if negative then b * b else 0
  }

  function OneWordNumber(b: nat, x: nat, negative: bool): int {
    x - if negative then b else 0
  }

  lemma SameRemainder(x: int, y: int, p: nat)
    requires p > 0
    ensures x % p == y % p <==> (x - y) % p == 0
  {
    ModPlusMultiple(x - y, y / p, p);
    if (x - y) % p == 0 {
      ModPlusMultiple(y, (x - y) / p, p);
    } else {
      DivisionOf(x, p);
      DivisionOf(y, p);
      RemainderOfDifference(x, y, x / p, y / p, p);
    }
  }

  lemma DivisionOf(x: int, p: nat)
    requires p > 0
    ensures x == x / p * p + x % p
  {}

  lemma RemainderOfDifference(x: int, y: int, q: int, r: int, p: nat)
    requires p > 0 && (x - y) % p != 0
    ensures x - q * p != y - r * p
  {
    if x - q * p == y - r * p {
      assert x - y == 0 + (q - r) * p;
      ModPlusMultiple(0, q - r, p);
    }
  }

  /** b^size divides b times t, for t up to b, only in these cases. */
  lemma DividedByPower(b: nat, t: nat, size: nat)
    requires b >= 2 && t <= b && size > 0
    ensures Pow(b, size) > 0
    ensures (b * t) % Pow(b, size) == 0 <==> size == 1 || t == 0 || (t == b && size == 2)
  {
    hide Pow;
    PowPositive(b, size);
    PowStep(b, 0);
    PowStep(b, 1);
    if size == 1 {
      ModPlusMultiple(0, t, b);
    } else if t == 0 {
      SmallMod(0, Pow(b, size));
    } else if size == 2 && t == b {
      ModPlusMultiple(0, 1, b * b);
    } else {
      MulPositive(b, t);
      BelowPower(b, t, size);
      SmallMod(b * t, Pow(b, size));
    }
  }

  lemma BelowPower(b: nat, t: nat, size: nat)
    requires b >= 2 && t <= b && size >= 2 && (size == 2 ==> t < b)
    ensures b * t < Pow(b, size)
  {
    hide Pow;
    PowStep(b, 0);
    PowStep(b, 1);
    if size == 2 {
      MulStrict(t, b, b);
    } else {
      PowMonotone(b, 3, size);
      PowStep(b, 2);
      MulMonotone(t, b, b);
      MulPositive(b, b);
      MulStrict(1, b, b * b);
    }
  }

  /** How far the words are from the product of the numbers. */
  function OneWordGap(b: nat, x: nat, y: nat, negative1: bool, negative2: bool): int {
    if negative1 && negative2 then b * (x + y - b)
    else if negative1 then -(b * (b - y))
    else if negative2 then -(b * (b - x))
    else 0
  }

  lemma OneWordDifference(b: nat, x: nat, y: nat, negative1: bool, negative2: bool)
    ensures OneWordValue(b, x, y, negative1 != negative2) - OneWordNumber(b, x, negative1) * OneWordNumber(b, y, negative2) ==
            OneWordGap(b, x, y, negative1, negative2)
  {
    if negative1 {
      Distribute(b, y, -1, b);
      assert (x - b) * y == x * y - b * y;
    }
    if negative2 {
      assert x * (y - b) == x * y - x * b;
    }
    if negative1 && negative2 {
      assert (x - b) * (y - b) == (x - b) * y - (x - b) * b;
    }
  }

  lemma GapDivided(b: nat, x: nat, y: nat, negative1: bool, negative2: bool, size: nat)
    requires b >= 2 && x < b && y < b && size > 0
    requires (negative1 ==> 2 * x >= b) && (negative2 ==> 2 * y >= b)
    ensures Pow(b, size) > 0
    ensures OneWordGap(b, x, y, negative1, negative2) % Pow(b, size) == 0 <==>
            OneWordRight(b, x, y, negative1, negative2, size)
  {
    hide Pow;
    PowPositive(b, size);
    if negative1 && negative2 {
      DividedByPower(b, x + y - b, size);
    } else if negative1 {
      DividedByPower(b, b - y, size);
      NegatedRemainder(b * (b - y), Pow(b, size));
    } else if negative2 {
      DividedByPower(b, b - x, size);
      NegatedRemainder(b * (b - x), Pow(b, size));
    } else {
      SmallMod(0, Pow(b, size));
    }
  }

  /** The words of the result denote the product of the numbers exactly when OneWordRight holds. */
  lemma OneWordExactly(b: nat, x: nat, y: nat, negative1: bool, negative2: bool, size: nat)
    requires b >= 2 && x < b && y < b && size > 0
    requires (negative1 ==> 2 * x >= b) && (negative2 ==> 2 * y >= b)
    ensures Pow(b, size) > 0
    ensures OneWordValue(b, x, y, negative1 != negative2) % Pow(b, size) ==
            (OneWordNumber(b, x, negative1) * OneWordNumber(b, y, negative2)) % Pow(b, size) <==>
            OneWordRight(b, x, y, negative1, negative2, size)
  {
    hide Pow, OneWordValue, OneWordNumber, OneWordGap, OneWordRight;
    GapDivided(b, x, y, negative1, negative2, size);
    OneWordDifference(b, x, y, negative1, negative2);
    SameRemainder(OneWordValue(b, x, y, negative1 != negative2),
                  OneWordNumber(b, x, negative1) * OneWordNumber(b, y, negative2), Pow(b, size));
  }

  /** Minus one times one in a result of three words: the middle word misses the sign. */
  lemma MinusOneTimesOne(b: nat)
    requires b >= 2
    ensures Number(b, [b - 1], true) == -1 && Number(b, [1], false) == 1
    ensures !SignedOverflow(b, b - 1, 1, true, false) && !OneWordRight(b, b - 1, 1, true, false, 3)
    ensures Pow(b, 3) > 0 && OneWordValue(b, b - 1, 1, true) % Pow(b, 3) == Value(b, [b - 1, 0, b - 1])
    ensures (-1) % Pow(b, 3) == Value(b, [b - 1, b - 1, b - 1])
  {
    hide Value, Pow, OneWordValue;
    ValueOfOne(b, b - 1);
    ValueOfOne(b, 1);
    PowStep(b, 0);
    SingleWordProduct(b, b - 1, 1, true, [b - 1, 0, b - 1]);
    ValueOnes(b, [b - 1, b - 1, b - 1]);
    PowPositive(b, 3);
    ModPlusMultiple(-1, 1, Pow(b, 3));
    SmallMod(Pow(b, 3) - 1, Pow(b, 3));
  }

  lemma SingleWordProduct(b: nat, x: nat, y: nat, negative: bool, zs: seq<nat>)
    requires b >= 2 && x < b && y < b && |zs| > 0
    requires var (low, high) := WideMultiply(b, x, y, 0);
             zs[0] == low && (|zs| > 1 ==> zs[1] == high) && forall k :: 2 <= k < |zs| ==> zs[k] == Fill(b, negative)
    ensures Pow(b, |zs|) > 0 && Value(b, zs) == OneWordValue(b, x, y, negative) % Pow(b, |zs|)
  {
    hide Value, Pow, WideMultiply;
    var n := |zs|;
    var (low, high) := WideMultiply(b, x, y, 0);
    PowPositive(b, n);
    PowStep(b, 0);
    if n > 1 {
      TwoWordsAndFill(b, zs, negative);
      ValueBound(b, zs);
      ModPlusMultiple(Value(b, zs), if negative then -1 else 0, Pow(b, n));
      SmallMod(Value(b, zs), Pow(b, n));
    } else {
      assert zs == [low];
      ValueOfOne(b, low);
      var q := if negative then high - b else high;
      assert OneWordValue(b, x, y, negative) == low + q * b;
      ModPlusMultiple(low, q, b);
      SmallMod(low, b);
    }
  }

  lemma TwoWordsAndFill(b: nat, zs: seq<nat>, negative: bool)
    requires b >= 2 && |zs| >= 2 && zs[0] < b && zs[1] < b && forall k :: 2 <= k < |zs| ==> zs[k] == Fill(b, negative)
    ensures AreWords(b, zs)
    ensures Value(b, zs) == zs[0] + zs[1] * b + if negative then Pow(b, |zs|) - b * b else 0
  {
    hide Value, Pow;
    var low, high := zs[..2], zs[2..];
    assert zs == low + high && low == [zs[0]] + [zs[1]];
    ValueSplit(b, low, high);
    ValueSplit(b, [zs[0]], [zs[1]]);
    ValueOfOne(b, zs[0]);
    ValueOfOne(b, zs[1]);
    HighPart(b, high, negative);
    PowStep(b, 0);
    PowStep(b, 1);
    PowAdd(b, 2, |high|);
    PowPositive(b, |high|);
    ExtensionArithmetic(Value(b, high), b * b, Pow(b, |high|), negative);
  }

  /** The double word of two single words. A product of signed words that overflows is left open by the language. */
  method WordProduct(b: nat, x: nat, y: nat, signed1: bool, signed2: bool) returns (low: nat, high: nat)
    requires x < b && y < b
    ensures low < b && high < b
    ensures !SignedOverflow(b, x, y, signed1, signed2) ==> (low, high) == WideMultiply(b, x, y, 0)
  {
    if SignedOverflow(b, x, y, signed1, signed2) {
      low, high :| low < b && high < b;
    } else {
      var product := WideMultiply(b, x, y, 0);
      low, high := product.0, product.1;
    }
  }

  /** The path for one word times one word. */
  method MultiplySingleWords(b: nat, operand1: StorageSpan, operand2: StorageSpan, result: StorageSpan)
    requires b >= 2 && operand1.Valid(b) && operand2.Valid(b) && result.Valid(b)
    requires operand1.size == 1 && operand2.size == 1 && result.size > 0
    requires operand1.data != result.data && operand2.data != result.data
    modifies result.data
    ensures result.Valid(b)
    ensures result.data[..] == Splice(old(result.data[..]), result.start, result.Words())
    ensures Pow(b, result.size) > 0
    ensures var x, y := operand1.Words()[0], operand2.Words()[0];
            !SignedOverflow(b, x, y, operand1.isSigned, operand2.isSigned) ==>
              Value(b, result.Words()) ==
              OneWordValue(b, x, y, operand1.Negative(b) != operand2.Negative(b)) % Pow(b, result.size)
  {
    hide Value, Pow, Splice, WideMultiply, Stored, SignedOverflow, OneWordValue;
    var sign1 := NegativeSign(b, operand1);
    var sign2 := NegativeSign(b, operand2);
    var x, y := operand1.data[operand1.start], operand2.data[operand2.start];
    var low, high := WordProduct(b, x, y, operand1.isSigned, operand2.isSigned);
    var fill := Fill(b, sign1 != sign2);
    ghost var memory := result.data[..];
    ghost var zs := [low] + (if result.size > 1 then [high] else []) + seq(Max0(result.size - 2), _ => fill);
    StoredNone(memory, result.start, zs);
    StoredUp(result.data[..], memory, result.start, zs, 0, result.size);
    result.data[result.start] := low;
    if result.size > 1 {
      StoredUp(result.data[..], memory, result.start, zs, 1, result.size);
      result.data[result.start + 1] := high;
      for i := 2 to result.size
        invariant Stored(result.data[..], memory, result.start, zs, i, result.size)
      {
        StoredUp(result.data[..], memory, result.start, zs, i, result.size);
        result.data[result.start + i] := fill;
      }
    }
    StoredAll(result.data[..], memory, result.start, zs, result.size);
    PowPositive(b, result.size);
    if !SignedOverflow(b, x, y, operand1.isSigned, operand2.isSigned) {
      SingleWordProduct(b, x, y, sign1 != sign2, zs);
    }
  }

  function Max0(n: int): nat {
    if n < 0 then 0 else n
  }

  /** The schoolbook loop over all columns of the result. */
  method MultiplyColumns(b: nat, operand1: StorageSpan, operand2: StorageSpan, result: StorageSpan)
    requires b >= 2 && operand1.Valid(b) && operand2.Valid(b) && result.Valid(b)
    requires operand2.size <= operand1.size < b
    requires operand1.data != result.data && operand2.data != result.data
    modifies result.data
    ensures result.Valid(b)
    ensures result.data[..] == Splice(old(result.data[..]), result.start, result.Words())
    ensures Pow(b, result.size) > 0
    ensures Value(b, result.Words()) == (Value(b, operand1.Words()) * Value(b, operand2.Words())) % Pow(b, result.size)
  {
    hide Value, Pow, Splice, Column, Columns, CarryFits, FitsDoubleWord;
    var size := result.size;
    var size1, size2 := Min(operand1.size, size), Min(operand2.size, size);
    ghost var memory := result.data[..];
    ghost var xs, ys := operand1.Words()[..size1], operand2.Words()[..size2];
    ghost var zs := [];
    var carry: nat := 0;
    SpliceNothing(memory, result.start);
    NoColumns(b, xs, ys, size2);
    for i := 0 to size
      invariant |zs| == i && AreWords(b, zs) && CarryFits(b, size2, carry)
      invariant result.data[..] == Splice(memory, result.start, zs)
      invariant Value(b, zs) + carry * Pow(b, i) == Columns(b, xs, ys, i, size1)
    {
      SpliceRoom(b, memory, result.start, zs, result.size);
      ghost var carryIn := carry;
      carry := AccumulateColumn(b, operand1, size1, operand2, size2, result, i, carry);
      ghost var word := result.data[result.start + i];
      ColumnStep(b, xs, ys, i, zs, carryIn, word, carry);
      SpliceSnoc(memory, result.start, zs, word);
      zs := zs + [word];
    }
    SpliceParts(memory, result.start, zs);
    assert result.Words() == zs;
    ProductFromColumns(b, operand1.Words(), operand2.Words(), size, zs, carry);
  }

  lemma NoColumns(b: nat, xs: seq<nat>, ys: seq<nat>, m: nat)
    requires b > 0
    ensures Columns(b, xs, ys, 0, |xs|) == 0 && Value(b, []) == 0 && CarryFits(b, m, 0)
  {}

  /** The words not yet written are still words. */
  lemma SpliceRoom(b: nat, memory: seq<nat>, at: nat, zs: seq<nat>, size: nat)
    requires |zs| < size && at + size <= |memory| && AreWords(b, memory[at..at + size]) && AreWords(b, zs)
    ensures |Splice(memory, at, zs)| == |memory| && AreWords(b, Splice(memory, at, zs)[at..at + size])
  {
    var r := Splice(memory, at, zs);
    var t := r[at..at + size];
    forall k | 0 <= k < |t| ensures t[k] < b {
      if k < |zs| {
        assert r[at + k] == zs[k];
      } else {
        assert r[at + k] == memory[at + k] == memory[at..at + size][k];
      }
    }
  }
}
