/**
 Spans of words, their addition and subtraction, and shifting them.
 Each method is specified by the numbers its spans denote before and after the call.
 */
module StorageOperations {
  import opened Basics
  import opened Powers
  import opened Bits
  import opened Words
  import opened WordShifts

  /** A view of size consecutive words of an array, read as unsigned or as two's complement. */
  datatype StorageSpan = StorageSpan(data: array<nat>, start: nat, size: nat, isSigned: bool) {

    ghost predicate Valid(b: nat)
      reads data
    {
      start + size <= data.Length && (isSigned ==> size > 0) && AreWords(b, data[start..start + size])
    }

    /** The words in view. */
    ghost function Words(): seq<nat>
      requires start + size <= data.Length
      reads data
    {
      data[start..start + size]
    }

    /** The number in view is below zero. */
    ghost predicate Negative(b: nat)
      requires start + size <= data.Length
      reads data
    {
      IsNegative(b, Words(), isSigned)
    }

    /** Element-wise in-place use of a result span is safe for this operand. */
    predicate SafeWith(result: StorageSpan) {
      data != result.data || start == result.start
    }
  }

  method NegativeSign(b: nat, s: StorageSpan) returns (sign: bool)
    requires s.Valid(b)
    ensures sign == IsNegative(b, s.Words(), s.isSigned)
  {
    sign := s.isSigned && 2 * s.data[s.start + s.size - 1] >= b;
  }

  function CarryOf(carry: bool): nat {
    if carry then 1 else 0
  }

  /** The number as the second operand contributes it. */
  function Signed(subtract: bool, n: int): int {
    if subtract then -n else n
  }

  /** Addition or subtraction of two words with carry or borrow, wrapping around at b. */
  function AddWords(b: nat, subtract: bool, word1: nat, word2: nat, carry: bool): (r: (nat, bool))
    requires word1 < b && word2 < b
    ensures r.0 < b
    ensures word1 + Signed(subtract, word2 + CarryOf(carry)) == r.0 + Signed(subtract, CarryOf(r.1) * b)
  {
    if subtract then
      var d := word1 - word2 - CarryOf(carry);
      if d < 0 then (d + b, true) else (d, false)
    else
      var t := word1 + word2 + CarryOf(carry);
      if t >= b then (t - b, true) else (t, false)
  }

  /** The double word x * y plus a carried word: its low and its high word. */
  function WideMultiply(b: nat, x: nat, y: nat, carried: nat): (r: (nat, nat))
    requires x < b && y < b && carried < b
    ensures r.0 < b && r.1 < b && x * y + carried == r.1 * b + r.0
  {
    DoubleWordProduct(b, x, y, carried);
    ((x * y + carried) % b, (x * y + carried) / b)
  }

  lemma DoubleWordProduct(b: nat, x: nat, y: nat, carried: nat)
    requires x < b && y < b && carried < b
    ensures (x * y + carried) / b < b
  {
    MulMonotone(x, b - 1, y);
    MulMonotone(y, b - 1, b - 1);
    assert (b - 1) * (b - 1) + (b - 1) == (b - 1) * b;
    QuotientBound(x * y + carried, b, b);
  }

  /** Word-by-word addition has been carried out on xs and ys, giving zs and a carry out. */
  ghost predicate Summed(b: nat, subtract: bool, xs: seq<nat>, ys: seq<nat>, zs: seq<nat>, carryIn: bool, carry: bool) {
    Value(b, xs) + Signed(subtract, Value(b, ys) + CarryOf(carryIn))
    == Value(b, zs) + Signed(subtract, CarryOf(carry) * Pow(b, |zs|))
  }

  lemma SumStepArithmetic(p: nat, b: nat, x: nat, y: nat, z: nat, c: nat, c': nat, subtract: bool)
    requires x + Signed(subtract, y + c) == z + Signed(subtract, c' * b)
    ensures x * p + Signed(subtract, y * p + c * p) == z * p + Signed(subtract, c' * (b * p))
  {
    assert (x + Signed(subtract, y + c)) * p == (z + Signed(subtract, c' * b)) * p;
    assert (c' * b) * p == c' * (b * p);
  }

  lemma SumEmpty(b: nat, subtract: bool, xs: seq<nat>, ys: seq<nat>, carryIn: bool)
    ensures Summed(b, subtract, xs[..0], ys[..0], [], carryIn, carryIn)
  {}

  lemma SumStep(b: nat, subtract: bool, xs: seq<nat>, ys: seq<nat>, zs: seq<nat>, carryIn: bool, carry: bool, i: nat)
    requires i == |zs| < |xs| == |ys| && xs[i] < b && ys[i] < b
    requires Summed(b, subtract, xs[..i], ys[..i], zs, carryIn, carry)
    ensures var r := AddWords(b, subtract, xs[i], ys[i], carry);
            Summed(b, subtract, xs[..i + 1], ys[..i + 1], zs + [r.0], carryIn, r.1)
  {
    var r := AddWords(b, subtract, xs[i], ys[i], carry);
    ValueTake(b, xs, i);
    ValueTake(b, ys, i);
    ValueSnoc(b, zs, r.0);
    SumStepArithmetic(Pow(b, i), b, xs[i], ys[i], r.0, CarryOf(carry), CarryOf(r.1), subtract);
  }

  function OverflowCode(subtract: bool, sign1: bool, sign2: bool, carry: bool, sign: bool): int {
    if subtract then
      CarryOf(sign2) - CarryOf(sign1) - CarryOf(carry) + CarryOf(sign)
    else
      CarryOf(carry) - CarryOf(sign1) - CarryOf(sign2) + CarryOf(sign)
  }

  /** The loop of an addition: each operand is continued with its fill word. */
  method AddAllWords(b: nat, subtract: bool, operand1: StorageSpan, fill1: nat, operand2: StorageSpan, fill2: nat,
                     result: StorageSpan, carryIn: bool)
    returns (carry: bool)
    requires b >= 2
    requires operand1.Valid(b) && operand2.Valid(b) && result.Valid(b)
    requires operand1.SafeWith(result) && operand2.SafeWith(result)
    requires fill1 == Fill(b, IsNegative(b, operand1.Words(), operand1.isSigned))
    requires fill2 == Fill(b, IsNegative(b, operand2.Words(), operand2.isSigned))
    modifies result.data
    ensures result.Valid(b)
    ensures result.data[..] == Splice(old(result.data[..]), result.start, result.Words())
    ensures Summed(b, subtract, old(Extended(b, operand1.Words(), operand1.isSigned, result.size)),
                   old(Extended(b, operand2.Words(), operand2.isSigned, result.size)), result.Words(), carryIn, carry)
  {
    hide Value, Pow, Extended, AddWords, Summed, Splice, IsNegative, Fill;
    var size := result.size;
    carry := carryIn;
    ghost var memory := result.data[..];
    ghost var xs := Extended(b, operand1.Words(), operand1.isSigned, size);
    ghost var ys := Extended(b, operand2.Words(), operand2.isSigned, size);
    ghost var zs := [];
    SpliceNothing(memory, result.start);
    SumEmpty(b, subtract, xs, ys, carry);
    ExtendedWords(b, operand1.Words(), operand1.isSigned, size);
    ExtendedWords(b, operand2.Words(), operand2.isSigned, size);
    for i := 0 to size
      invariant |zs| == i && AreWords(b, zs)
      invariant result.data[..] == Splice(memory, result.start, zs)
      invariant Summed(b, subtract, xs[..i], ys[..i], zs, carryIn, carry)
    {
      SpliceUntouched(memory, result.start, zs, result.start + i);
      assert result.data[..][result.start + i] == memory[result.start + i];
      var word1 := if i < operand1.size then operand1.data[operand1.start + i] else fill1;
      var word2 := if i < operand2.size then operand2.data[operand2.start + i] else fill2;
      assert word1 == xs[i] && word2 == ys[i];
      SumStep(b, subtract, xs, ys, zs, carryIn, carry, i);
      var (word, carryOut) := AddWords(b, subtract, word1, word2, carry);
      SpliceSnoc(memory, result.start, zs, word);
      result.data[result.start + i] := word;
      carry := carryOut;
      zs := zs + [word];
    }
    SpliceParts(memory, result.start, zs);
    assert result.Words() == zs;
    assert xs[..size] == xs && ys[..size] == ys;
  }

  /**
   Adds or subtracts with carry. With r the returned value,
   a + b = c + r * base^size holds for the numbers of the two operands and the result,
   so r is zero exactly when nothing overflowed. Of an operand wider than the result only
   the words that fit take part.
   */
  method Add(b: nat, subtract: bool, operand1: StorageSpan, operand2: StorageSpan, result: StorageSpan, carryIn: bool)
    returns (overflow: int)
    requires b >= 2
    requires operand1.Valid(b) && operand2.Valid(b) && result.Valid(b)
    requires operand1.SafeWith(result) && operand2.SafeWith(result)
    modifies result.data
    ensures result.Valid(b)
    ensures result.data[..] == Splice(old(result.data[..]), result.start, result.Words())
    ensures old(Contribution(b, operand1.Words(), operand1.isSigned, result.size))
          + Signed(subtract, old(Contribution(b, operand2.Words(), operand2.isSigned, result.size)) + CarryOf(carryIn))
         == Number(b, result.Words(), result.isSigned) + overflow * Pow(b, result.size)
    ensures operand1.size <= result.size && operand2.size <= result.size ==>
        old(Number(b, operand1.Words(), operand1.isSigned))
        + Signed(subtract, old(Number(b, operand2.Words(), operand2.isSigned)) + CarryOf(carryIn))
        == Number(b, result.Words(), result.isSigned) + overflow * Pow(b, result.size)
  {
    hide Value, Pow, Extended, Number, Contribution, AddWords, Summed, Splice, IsNegative, Fill;
    var sign1 := NegativeSign(b, operand1);
    var sign2 := NegativeSign(b, operand2);
    ghost var s1, s2 := operand1.Words(), operand2.Words();
    var carry := AddAllWords(b, subtract, operand1, Fill(b, sign1), operand2, Fill(b, sign2), result, carryIn);
    var sign := NegativeSign(b, result);
    overflow := OverflowCode(subtract, sign1, sign2, carry, sign);
    OverflowEquation(b, subtract, s1, operand1.isSigned, s2, operand2.isSigned, result.Words(), result.isSigned, carryIn, carry);
    if operand1.size <= result.size && operand2.size <= result.size {
      ValueExtended(b, s1, operand1.isSigned, result.size);
      ValueExtended(b, s2, operand2.isSigned, result.size);
    }
  }

  lemma OverflowEquation(b: nat, subtract: bool, s1: seq<nat>, signed1: bool, s2: seq<nat>, signed2: bool,
                         s: seq<nat>, signed: bool, carryIn: bool, carry: bool)
    requires b > 0
    requires Summed(b, subtract, Extended(b, s1, signed1, |s|), Extended(b, s2, signed2, |s|), s, carryIn, carry)
    ensures Contribution(b, s1, signed1, |s|) + Signed(subtract, Contribution(b, s2, signed2, |s|) + CarryOf(carryIn))
         == Number(b, s, signed) + OverflowCode(subtract, IsNegative(b, s1, signed1), IsNegative(b, s2, signed2),
                                                carry, IsNegative(b, s, signed)) * Pow(b, |s|)
  {
    hide Value, Pow, Extended;
    OverflowArithmetic(Contribution(b, s1, signed1, |s|), Contribution(b, s2, signed2, |s|), Number(b, s, signed), Pow(b, |s|),
                       subtract, IsNegative(b, s1, signed1), IsNegative(b, s2, signed2), IsNegative(b, s, signed),
                       CarryOf(carryIn), carry);
  }

  lemma OverflowArithmetic(n1: int, n2: int, n: int, p: nat, subtract: bool, s1: bool, s2: bool, s: bool, carryIn: nat, carry: bool)
    requires n1 + CarryOf(s1) * p + Signed(subtract, n2 + CarryOf(s2) * p + carryIn)
          == n + CarryOf(s) * p + Signed(subtract, CarryOf(carry) * p)
    ensures n1 + Signed(subtract, n2 + carryIn) == n + OverflowCode(subtract, s1, s2, carry, s) * p
  {}

  /** Shifting by no bits, or taking no carry, leaves a word alone. */
  lemma AlignedShift(w: nat, x: nat)
    requires w > 0 && x < Pow(2, w)
    ensures ShiftLeftWord(w, x, 0) == x && ShiftRightWord(x, w) == 0 && ShiftRightWord(x, 0) == x
    ensures ShiftLeftWord(w, x, w) == 0
    ensures Or(x, 0) == x && Or(0, x) == x
  {
    PowPositive(2, w);
    hide Pow;
    PowStep(2, 0);
    DivModUnique(x, Pow(2, w), 0, x);
    DivModUnique(x * Pow(2, w), Pow(2, w), x, 0);
  }

  lemma AlignedLeftShift(w: nat, s: seq<nat>, k: nat, i: nat)
    requires w > 0 && i < |s| && AreWords(Pow(2, w), s)
    ensures LeftShiftedWord(w, s, k, 0, i) == if i < k then 0 else s[i - k]
  {
    hide Pow, ShiftLeftWord, ShiftRightWord, Or;
    if i >= k {
      AlignedShift(w, s[i - k]);
      if i > k {
        AlignedShift(w, s[i - k - 1]);
      }
    }
  }

  lemma AlignedRightShift(w: nat, s: seq<nat>, k: nat, i: nat)
    requires w > 0 && i < |s| && AreWords(Pow(2, w), s)
    ensures RightShiftedWord(w, s, k, 0, i) == if i + k < |s| then s[i + k] else 0
  {
    hide Pow, ShiftLeftWord, ShiftRightWord, Or;
    var j := i + k;
    if j < |s| {
      AlignedShift(w, s[j]);
      if j + 1 < |s| {
        AlignedShift(w, s[j + 1]);
      }
    }
  }

  /** The first loop of a left shift by offset words and no bits. */
  method MoveWordsUp(w: nat, operand: StorageSpan, offset: nat, result: StorageSpan)
    requires w > 0 && operand.Valid(Pow(2, w)) && result.Valid(Pow(2, w))
    requires offset < operand.size == result.size && operand.SafeWith(result)
    modifies result.data
    ensures Stored(result.data[..], old(result.data[..]), result.start, LeftShifted(w, old(operand.Words()), offset, 0), 0, offset)
  {
    hide Value, Pow, LeftShiftedWord, LeftShifted, Stored;
    ghost var memory, s := result.data[..], operand.Words();
    ghost var t := LeftShifted(w, s, offset, 0);
    StoredNone(memory, result.start, t);
    var i := operand.size;
    while i > offset
      invariant offset <= i <= operand.size
      invariant Stored(result.data[..], memory, result.start, t, 0, i)
    {
      StoredUntouched(result.data[..], memory, result.start, t, 0, i);
      StoredDown(result.data[..], memory, result.start, t, 0, i);
      i := i - 1;
      AlignedLeftShift(w, s, offset, i);
      var word := operand.data[operand.start + i - offset];
      assert word == operand.data[..][operand.start + i - offset] == s[i - offset];
      result.data[result.start + i] := word;
    }
  }

  /** The first loop of a left shift by offset words and remainder bits. */
  method MoveBitsUp(w: nat, operand: StorageSpan, offset: nat, remainder: nat, result: StorageSpan)
    requires remainder < w && operand.Valid(Pow(2, w)) && result.Valid(Pow(2, w))
    requires offset < operand.size == result.size && operand.SafeWith(result)
    modifies result.data
    ensures Stored(result.data[..], old(result.data[..]), result.start, LeftShifted(w, old(operand.Words()), offset, remainder), 0, offset)
  {
    hide Value, Pow, LeftShiftedWord, LeftShifted, Stored, Or, ShiftLeftWord, ShiftRightWord;
    ghost var memory, s := result.data[..], operand.Words();
    ghost var t := LeftShifted(w, s, offset, remainder);
    StoredNone(memory, result.start, t);
    var i := operand.size - 1;
    while i > offset
      invariant offset <= i < operand.size
      invariant Stored(result.data[..], memory, result.start, t, 0, i + 1)
    {
      StoredUntouched(result.data[..], memory, result.start, t, 0, i + 1);
      StoredDown(result.data[..], memory, result.start, t, 0, i + 1);
      var from := operand.start + i - offset;
      var here, below := operand.data[from], operand.data[from - 1];
      assert here == operand.data[..][from] == s[i - offset];
      assert below == operand.data[..][from - 1] == s[i - offset - 1];
      ShiftedWordAt(w, s, offset, remainder, i);
      result.data[result.start + i] := Or(ShiftLeftWord(w, here, remainder), ShiftRightWord(below, w - remainder));
      i := i - 1;
    }
    StoredUntouched(result.data[..], memory, result.start, t, 0, i + 1);
    StoredDown(result.data[..], memory, result.start, t, 0, i + 1);
    var bottom := operand.data[operand.start];
    assert bottom == operand.data[..][operand.start] == s[0];
    ShiftedWordAt(w, s, offset, remainder, offset);
    result.data[result.start + offset] := ShiftLeftWord(w, bottom, remainder);
  }

  lemma ShiftedWordAt(w: nat, s: seq<nat>, k: nat, r: nat, i: nat)
    requires r < w && k <= i < |s|
    ensures LeftShiftedWord(w, s, k, r, i)
         == if i == k then ShiftLeftWord(w, s[0], r) else Or(ShiftLeftWord(w, s[i - k], r), ShiftRightWord(s[i - k - 1], w - r))
  {}

  /** Multiplies by 2^shift modulo the size of the storage; works in place, from the top word down. */
  method ShiftLeft(w: nat, operand: StorageSpan, shift: nat, result: StorageSpan)
    requires w > 0 && operand.Valid(Pow(2, w)) && result.Valid(Pow(2, w))
    requires operand.size == result.size && shift < result.size * w
    requires operand.SafeWith(result)
    modifies result.data
    ensures result.Valid(Pow(2, w))
    ensures result.data[..] == Splice(old(result.data[..]), result.start, result.Words())
    ensures Pow(Pow(2, w), result.size) > 0
    ensures Value(Pow(2, w), result.Words())
         == (Value(Pow(2, w), old(operand.Words())) * Pow(2, shift)) % Pow(Pow(2, w), result.size)
  {
    hide Value, Pow, LeftShiftedWord, LeftShifted, Splice, Stored;
    OffsetInRange(w, operand.size, shift);
    var offset, remainder := shift / w, shift % w;
    ghost var memory, s := result.data[..], operand.Words();
    ghost var t := LeftShifted(w, s, offset, remainder);
    if shift % w == 0 {
      MoveWordsUp(w, operand, offset, result);
    } else {
      MoveBitsUp(w, operand, offset, remainder, result);
    }
    LowWordsZero(w, s, offset, remainder);
    for j := 0 to offset
      invariant Stored(result.data[..], memory, result.start, t, j, offset)
    {
      StoredUp(result.data[..], memory, result.start, t, j, offset);
      result.data[result.start + j] := 0;
    }
    StoredAll(result.data[..], memory, result.start, t, offset);
    LeftShiftedWords(w, s, offset, remainder);
    LeftShiftedValue(w, s, offset, remainder, shift);
  }

  lemma LoweredWordAt(w: nat, s: seq<nat>, k: nat, r: nat, i: nat)
    requires r < w && i + k < |s|
    ensures RightShiftedWord(w, s, k, r, i)
         == Or(if i + k + 1 < |s| then ShiftLeftWord(w, s[i + k + 1], w - r) else 0, ShiftRightWord(s[i + k], r))
  {}

  /** The first loop of a right shift by offset words and no bits. */
  method MoveWordsDown(w: nat, operand: StorageSpan, offset: nat, result: StorageSpan)
    requires w > 0 && operand.Valid(Pow(2, w)) && result.Valid(Pow(2, w))
    requires offset < operand.size == result.size && operand.SafeWith(result)
    modifies result.data
    ensures Stored(result.data[..], old(result.data[..]), result.start,
                   RightShifted(w, old(operand.Words()), offset, 0), result.size - offset, result.size)
  {
    hide Value, Pow, RightShiftedWord, RightShifted, Stored;
    var size := operand.size;
    ghost var memory, s := result.data[..], operand.Words();
    ghost var t := RightShifted(w, s, offset, 0);
    StoredNone(memory, result.start, t);
    for i := 0 to size - offset
      invariant Stored(result.data[..], memory, result.start, t, i, size)
    {
      StoredUntouched(result.data[..], memory, result.start, t, i, size);
      StoredUp(result.data[..], memory, result.start, t, i, size);
      AlignedRightShift(w, s, offset, i);
      var word := operand.data[operand.start + i + offset];
      assert word == operand.data[..][operand.start + i + offset] == s[i + offset];
      result.data[result.start + i] := word;
    }
  }

  /** The first loop of a right shift by offset words and remainder bits. */
  method MoveBitsDown(w: nat, operand: StorageSpan, offset: nat, remainder: nat, result: StorageSpan)
    requires remainder < w && operand.Valid(Pow(2, w)) && result.Valid(Pow(2, w))
    requires offset < operand.size == result.size && operand.SafeWith(result)
    modifies result.data
    ensures Stored(result.data[..], old(result.data[..]), result.start,
                   RightShifted(w, old(operand.Words()), offset, remainder), result.size - offset, result.size)
  {
    hide Value, Pow, RightShiftedWord, RightShifted, Stored, Or, ShiftLeftWord, ShiftRightWord;
    var size := operand.size;
    ghost var memory, s := result.data[..], operand.Words();
    ghost var t := RightShifted(w, s, offset, remainder);
    StoredNone(memory, result.start, t);
    for i := 0 to size - offset - 1
      invariant Stored(result.data[..], memory, result.start, t, i, size)
    {
      StoredUntouched(result.data[..], memory, result.start, t, i, size);
      StoredUp(result.data[..], memory, result.start, t, i, size);
      var from := operand.start + i + offset;
      var here, above := operand.data[from], operand.data[from + 1];
      assert here == operand.data[..][from] == s[i + offset];
      assert above == operand.data[..][from + 1] == s[i + offset + 1];
      LoweredWordAt(w, s, offset, remainder, i);
      result.data[result.start + i] := Or(ShiftLeftWord(w, above, w - remainder), ShiftRightWord(here, remainder));
    }
    var last := size - offset - 1;
    StoredUntouched(result.data[..], memory, result.start, t, last, size);
    StoredUp(result.data[..], memory, result.start, t, last, size);
    var top := operand.data[operand.start + size - 1];
    assert top == operand.data[..][operand.start + size - 1] == s[size - 1];
    LoweredWordAt(w, s, offset, remainder, last);
    OrZero(ShiftRightWord(top, remainder));
    result.data[result.start + last] := ShiftRightWord(top, remainder);
  }

  lemma OrZero(x: nat)
    ensures Or(0, x) == x
  {}

  /** Divides by 2^shift, rounding down; works in place, from the bottom word up. */
  method ShiftRight(w: nat, operand: StorageSpan, shift: nat, result: StorageSpan)
    requires w > 0 && operand.Valid(Pow(2, w)) && result.Valid(Pow(2, w))
    requires operand.size == result.size && shift < result.size * w
    requires operand.SafeWith(result)
    modifies result.data
    ensures result.Valid(Pow(2, w))
    ensures result.data[..] == Splice(old(result.data[..]), result.start, result.Words())
    ensures Pow(2, shift) > 0
    ensures Value(Pow(2, w), result.Words()) == Value(Pow(2, w), old(operand.Words())) / Pow(2, shift)
  {
    hide Value, Pow, RightShiftedWord, RightShifted, Splice, Stored;
    OffsetInRange(w, operand.size, shift);
    var size := operand.size;
    var offset, remainder := shift / w, shift % w;
    ghost var memory, s := result.data[..], operand.Words();
    ghost var t := RightShifted(w, s, offset, remainder);
    if shift % w == 0 {
      MoveWordsDown(w, operand, offset, result);
    } else {
      MoveBitsDown(w, operand, offset, remainder, result);
    }
    HighWordsZero(w, s, offset, remainder);
    for i := size - offset to size
      invariant Stored(result.data[..], memory, result.start, t, i, size)
    {
      StoredUp(result.data[..], memory, result.start, t, i, size);
      result.data[result.start + i] := 0;
    }
    StoredAll(result.data[..], memory, result.start, t, size);
    RightShiftedWords(w, s, offset, remainder);
    RightShiftedValue(w, s, offset, remainder, shift);
  }
}
