/** Shifting a whole word sequence by any number of bits, and what that does to the number it denotes. */
module WordShifts {
  import opened Powers
  import opened Bits
  import opened Words

  /** The bits of the word below position i that a left shift by r moves up into it. */
  function CarryUp(w: nat, s: seq<nat>, i: int, r: nat): nat
    requires r <= w && i < |s|
  {
    if i < 0 then 0 else ShiftRightWord(s[i], w - r)
  }

  function LeftShiftedWord(w: nat, s: seq<nat>, k: nat, r: nat, i: nat): nat
    requires r < w && i < |s|
  {
    if i < k then 0
    else Or(ShiftLeftWord(w, s[i - k], r), CarryUp(w, s, i - k - 1, r))
  }

  /** s shifted left by k words and r bits, keeping its length. */
  function LeftShifted(w: nat, s: seq<nat>, k: nat, r: nat): (t: seq<nat>)
    requires r < w
    ensures |t| == |s|
    ensures forall i :: 0 <= i < |s| ==> t[i] == LeftShiftedWord(w, s, k, r, i)
  {
    seq(|s|, i requires 0 <= i < |s| => LeftShiftedWord(w, s, k, r, i))
  }

  lemma CarryUpBound(w: nat, s: seq<nat>, i: int, r: nat)
    requires r <= w && i < |s| && AreWords(Pow(2, w), s)
    ensures CarryUp(w, s, i, r) < Pow(2, r)
  {
    hide Pow;
    PowPositive(2, r);
    if i >= 0 {
      PowPositive(2, w - r);
      PowAdd(2, r, w - r);
      QuotientBound(s[i], Pow(2, r), Pow(2, w - r));
    }
  }

  lemma QuotientBound(x: nat, p: nat, q: nat)
    requires q > 0 && x < p * q
    ensures x / q < p
  {
    assert x == (x / q) * q + x % q;
    MulCancelStrict(x / q, p, q);
  }

  /** One word of the result: its own low bits moved up, plus the carry from below. */
  lemma LeftShiftedWordSum(w: nat, s: seq<nat>, k: nat, r: nat, i: nat)
    requires r < w && k <= i < |s| && AreWords(Pow(2, w), s)
    ensures Pow(2, w - r) > 0
    ensures LeftShiftedWord(w, s, k, r, i) == (s[i - k] % Pow(2, w - r)) * Pow(2, r) + CarryUp(w, s, i - k - 1, r)
  {
    hide Pow, Or, ShiftLeftWord, CarryUp;
    ShiftLeftKeepsLowBits(w, s[i - k], r);
    CarryUpBound(w, s, i - k - 1, r);
    OrDisjoint(s[i - k] % Pow(2, w - r), CarryUp(w, s, i - k - 1, r), r);
  }

  lemma LeftShiftedWords(w: nat, s: seq<nat>, k: nat, r: nat)
    requires r < w && AreWords(Pow(2, w), s)
    ensures AreWords(Pow(2, w), LeftShifted(w, s, k, r))
  {
    hide Pow, LeftShiftedWord;
    forall i | 0 <= i < |s| ensures LeftShiftedWord(w, s, k, r, i) < Pow(2, w) {
      LeftShiftedWordBound(w, s, k, r, i);
    }
  }

  lemma LeftShiftedWordBound(w: nat, s: seq<nat>, k: nat, r: nat, i: nat)
    requires r < w && i < |s| && AreWords(Pow(2, w), s)
    ensures LeftShiftedWord(w, s, k, r, i) < Pow(2, w)
  {
    hide Pow, CarryUp, Or, ShiftLeftWord;
    PowPositive(2, w);
    if i >= k {
      LeftShiftedWordSum(w, s, k, r, i);
      CarryUpBound(w, s, i - k - 1, r);
      PowAdd(2, w - r, r);
      var c, q := CarryUp(w, s, i - k - 1, r), Pow(2, w - r);
      BoundArithmetic(c, s[i - k] % q, q, Pow(2, r));
    }
  }

  lemma LeftStepArithmetic(t: nat, c: nat, v: nat, x: nat, hi: nat, lo: nat, p2r: nat, p2wr: nat, base: nat,
                           pk: nat, pm: nat, pmk: nat)
    requires t + c * pm == (v * p2r) * pk
    requires x == hi * p2wr + lo && base == p2wr * p2r && pm == pmk * pk
    ensures t + (lo * p2r + c) * pm + hi * (base * pm) == ((v + x * pmk) * p2r) * pk
  {
    assert (lo * p2r + c) * pm == lo * p2r * pm + c * pm;
    assert hi * (base * pm) == (hi * p2wr) * p2r * pm;
    assert ((v + x * pmk) * p2r) * pk == (v * p2r) * pk + (x * p2r) * (pmk * pk);
    assert (x * p2r) * pm == (hi * p2wr) * p2r * pm + lo * p2r * pm;
  }

  /** Up to word m, the shifted words and the pending carry denote the shifted prefix. */
  lemma {:induction false} LeftShiftedPrefix(w: nat, s: seq<nat>, k: nat, r: nat, m: nat)
    requires r < w && k <= m <= |s| && AreWords(Pow(2, w), s)
    ensures var b := Pow(2, w);
            Value(b, LeftShifted(w, s, k, r)[..m]) + CarryUp(w, s, m - k - 1, r) * Pow(b, m)
            == (Value(b, s[..m - k]) * Pow(2, r)) * Pow(b, k)
  {
    hide Pow, Value, LeftShiftedWord;
    var b := Pow(2, w);
    var t := LeftShifted(w, s, k, r);
    if m == k {
      assert s[..0] == [];
      ValueEmpty(b);
      assert forall i :: 0 <= i < k ==> t[i] == 0 by { LowWordsZero(w, s, k, r); }
      ValueZeros(b, t[..m]);
    } else {
      var i := m - 1;
      LeftShiftedPrefix(w, s, k, r, i);
      ValueTake(b, t, i);
      ValueTake(b, s, i - k);
      LeftShiftedWordSum(w, s, k, r, i);
      PowStep(b, i);
      PowAdd(b, i - k, k);
      PowAdd(2, w - r, r);
      var x, q := s[i - k], Pow(2, w - r);
      LeftStepArithmetic(Value(b, t[..i]), CarryUp(w, s, i - k - 1, r), Value(b, s[..i - k]), x, x / q, x % q,
                         Pow(2, r), q, b, Pow(b, k), Pow(b, i), Pow(b, i - k));
    }
  }

  lemma LowWordsZero(w: nat, s: seq<nat>, k: nat, r: nat)
    requires r < w
    ensures forall i :: 0 <= i < k && i < |s| ==> LeftShifted(w, s, k, r)[i] == 0
  {}

  lemma ShiftSplit(w: nat, k: nat, r: nat)
    ensures k * w + r >= 0
    ensures Pow(2, k * w + r) == Pow(2, r) * Pow(Pow(2, w), k)
  {
    hide Pow;
    PowPow(2, w, k);
    PowAdd(2, r, w * k);
  }

  lemma OffsetInRange(w: nat, n: nat, shift: nat)
    requires w > 0 && shift < n * w
    ensures shift / w < n
  {
    QuotientBound(shift, n, w);
  }

  /** The bits shifted out at the top are the quotient by the size of the storage. */
  lemma LeftShiftedSplit(w: nat, s: seq<nat>, k: nat, r: nat) returns (out: nat)
    requires r < w && k <= |s| && AreWords(Pow(2, w), s)
    ensures Value(Pow(2, w), s) * (Pow(2, r) * Pow(Pow(2, w), k))
         == out * Pow(Pow(2, w), |s|) + Value(Pow(2, w), LeftShifted(w, s, k, r))
  {
    hide Pow, Value, LeftShiftedWord, CarryUp, LeftShifted;
    var b, n := Pow(2, w), |s|;
    var t := LeftShifted(w, s, k, r);
    LeftShiftedPrefix(w, s, k, r, n);
    assert t[..n] == t;
    assert s == s[..n - k] + s[n - k..];
    ValueSplit(b, s[..n - k], s[n - k..]);
    PowAdd(b, n - k, k);
    out := WholeShiftArithmetic(Value(b, s[..n - k]), Value(b, s[n - k..]), Pow(2, r), Pow(b, k), Pow(b, n - k), Pow(b, n),
                                Value(b, t), CarryUp(w, s, n - k - 1, r));
  }

  lemma WholeShiftArithmetic(low: nat, high: nat, p2r: nat, pk: nat, pnk: nat, pn: nat, t: nat, c: nat) returns (q: nat)
    requires pn == pnk * pk
    requires t + c * pn == (low * p2r) * pk
    ensures (low + pnk * high) * (p2r * pk) == q * pn + t
  {
    q := c + high * p2r;
    assert (low + pnk * high) * (p2r * pk) == (low * p2r) * pk + (high * p2r) * (pnk * pk);
    assert q * pn == c * pn + (high * p2r) * pn;
  }

  /** Shifting left multiplies by 2^shift, modulo the size of the storage. */
  lemma LeftShiftedValue(w: nat, s: seq<nat>, k: nat, r: nat, shift: nat)
    requires r < w && k <= |s| && shift == k * w + r && AreWords(Pow(2, w), s)
    ensures Pow(Pow(2, w), |s|) > 0
    ensures Value(Pow(2, w), LeftShifted(w, s, k, r)) == (Value(Pow(2, w), s) * Pow(2, shift)) % Pow(Pow(2, w), |s|)
  {
    hide Pow, Value, LeftShifted;
    var t := LeftShifted(w, s, k, r);
    PowPositive(2, w);
    PowPositive(Pow(2, w), |s|);
    LeftShiftedWords(w, s, k, r);
    ValueBound(Pow(2, w), t);
    var out := LeftShiftedSplit(w, s, k, r);
    ShiftSplit(w, k, r);
    DivModUnique(Value(Pow(2, w), s) * Pow(2, shift), Pow(Pow(2, w), |s|), out, Value(Pow(2, w), t));
  }

  /** The low r bits of word i, moved to the top of the word below it by a right shift by r. */
  function CarryDown(w: nat, s: seq<nat>, i: nat, r: nat): nat
    requires r <= w
  {
    if i < |s| then ShiftLeftWord(w, s[i], w - r) else 0
  }

  function RightShiftedWord(w: nat, s: seq<nat>, k: nat, r: nat, i: nat): nat
    requires r < w
  {
    if i + k >= |s| then 0
    else Or(CarryDown(w, s, i + k + 1, r), ShiftRightWord(s[i + k], r))
  }

  /** s shifted right by k words and r bits, keeping its length. */
  function RightShifted(w: nat, s: seq<nat>, k: nat, r: nat): (t: seq<nat>)
    requires r < w
    ensures |t| == |s|
    ensures forall i :: 0 <= i < |s| ==> t[i] == RightShiftedWord(w, s, k, r, i)
  {
    seq(|s|, i requires 0 <= i < |s| => RightShiftedWord(w, s, k, r, i))
  }

  /** The low r bits of word i. */
  function LowBits(s: seq<nat>, i: nat, r: nat): nat {
    PowPositive(2, r);
    if i < |s| then s[i] % Pow(2, r) else 0
  }

  lemma RightShiftedWordSum(w: nat, s: seq<nat>, k: nat, r: nat, i: nat)
    requires r < w && i + k < |s| && AreWords(Pow(2, w), s)
    ensures var j := i + k;
            RightShiftedWord(w, s, k, r, i)
            == ShiftRightWord(s[j], r) + LowBits(s, j + 1, r) * Pow(2, w - r)
  {
    hide Pow, Or, ShiftLeftWord;
    var j := i + k;
    PowPositive(2, r);
    PowAdd(2, w - r, r);
    QuotientBound(s[j], Pow(2, w - r), Pow(2, r));
    if j + 1 < |s| {
      ShiftLeftKeepsLowBits(w, s[j + 1], w - r);
    }
    OrDisjoint(LowBits(s, j + 1, r), ShiftRightWord(s[j], r), w - r);
  }

  lemma RightShiftedWords(w: nat, s: seq<nat>, k: nat, r: nat)
    requires r < w && AreWords(Pow(2, w), s)
    ensures AreWords(Pow(2, w), RightShifted(w, s, k, r))
  {
    hide Pow, RightShiftedWord;
    PowPositive(2, w);
    forall i | 0 <= i < |s| ensures RightShiftedWord(w, s, k, r, i) < Pow(2, w) {
      RightShiftedWordBound(w, s, k, r, i);
    }
  }

  lemma RightShiftedWordBound(w: nat, s: seq<nat>, k: nat, r: nat, i: nat)
    requires r < w && i < |s| && AreWords(Pow(2, w), s)
    ensures RightShiftedWord(w, s, k, r, i) < Pow(2, w)
  {
    hide Pow, Or, CarryDown;
    PowPositive(2, w);
    var j := i + k;
    if j < |s| {
      RightShiftedWordSum(w, s, k, r, i);
      PowPositive(2, r);
      PowAdd(2, w - r, r);
      QuotientBound(s[j], Pow(2, w - r), Pow(2, r));
      BoundArithmetic(ShiftRightWord(s[j], r), LowBits(s, j + 1, r), Pow(2, r), Pow(2, w - r));
    }
  }

  lemma WordSplit(s: seq<nat>, i: nat, r: nat)
    ensures LowBits(s, i, r) < Pow(2, r)
    ensures i < |s| ==> s[i] == ShiftRightWord(s[i], r) * Pow(2, r) + LowBits(s, i, r)
    ensures i == |s| ==> LowBits(s, i, r) == 0
  {
    PowPositive(2, r);
  }

  lemma RightStepArithmetic(v: nat, low: nat, t: nat, l0: nat, x: nat, hi: nat, p2r: nat, p2wr: nat, base: nat, pm: nat, next: nat)
    requires v + low * pm == p2r * t + l0
    requires x == hi * p2r + low && base == p2r * p2wr
    ensures (v + x * pm) + next * (base * pm) == p2r * (t + (hi + next * p2wr) * pm) + l0
  {
    assert x * pm == p2r * (hi * pm) + low * pm;
    assert next * (base * pm) == p2r * (next * p2wr * pm);
    assert (hi + next * p2wr) * pm == hi * pm + next * p2wr * pm;
    assert p2r * (t + (hi + next * p2wr) * pm) == p2r * t + p2r * (hi * pm) + p2r * (next * p2wr * pm);
  }

  /** Up to word m, the shifted words times 2^r give back the source words, apart from the bits dropped. */
  lemma {:induction false} RightShiftedPrefix(w: nat, s: seq<nat>, k: nat, r: nat, m: nat)
    requires r < w && k + m <= |s| && AreWords(Pow(2, w), s)
    ensures var b := Pow(2, w);
            Value(b, s[k..k + m]) + LowBits(s, k + m, r) * Pow(b, m)
            == Pow(2, r) * Value(b, RightShifted(w, s, k, r)[..m]) + LowBits(s, k, r)
  {
    hide Pow, Value, RightShifted, RightShiftedWord, LowBits, ShiftRightWord;
    var b := Pow(2, w);
    var t := RightShifted(w, s, k, r);
    ValueEmpty(b);
    PowStep(b, 0);
    if m == 0 {
      assert s[k..k] == [] && t[..0] == [];
    } else {
      var i := m - 1;
      RightShiftedPrefix(w, s, k, r, i);
      ValueTake(b, t, i);
      ValueTake(b, s[k..], i);
      assert s[k..][..m] == s[k..k + m] && s[k..][..i] == s[k..k + i];
      RightShiftedWordSum(w, s, k, r, i);
      PowStep(b, i);
      PowAdd(2, r, w - r);
      WordSplit(s, k + i, r);
      RightStepArithmetic(Value(b, s[k..k + i]), LowBits(s, k + i, r), Value(b, t[..i]), LowBits(s, k, r), s[k + i],
                          ShiftRightWord(s[k + i], r), Pow(2, r), Pow(2, w - r), b, Pow(b, i), LowBits(s, k + m, r));
    }
  }

  lemma RightWholeArithmetic(low: nat, pk: nat, t: nat, l0: nat, p2r: nat) returns (dropped: nat)
    requires low < pk && l0 < p2r
    ensures dropped < p2r * pk
    ensures low + pk * (p2r * t + l0) == t * (p2r * pk) + dropped
  {
    dropped := low + l0 * pk;
    BoundArithmetic(low, l0, p2r, pk);
    assert pk * (p2r * t + l0) == t * (p2r * pk) + l0 * pk;
  }

  /** The bits shifted out at the bottom are the remainder by 2^shift. */
  lemma RightShiftedSplit(w: nat, s: seq<nat>, k: nat, r: nat) returns (dropped: nat)
    requires r < w && k <= |s| && AreWords(Pow(2, w), s)
    ensures dropped < Pow(2, r) * Pow(Pow(2, w), k)
    ensures Value(Pow(2, w), s) == Value(Pow(2, w), RightShifted(w, s, k, r)) * (Pow(2, r) * Pow(Pow(2, w), k)) + dropped
  {
    hide Pow, Value, RightShifted, RightShiftedWord, LowBits;
    var b, n := Pow(2, w), |s|;
    var t := RightShifted(w, s, k, r);
    WordSplit(s, k, r);
    WordSplit(s, n, r);
    RightShiftedPrefix(w, s, k, r, n - k);
    assert s[k..k + (n - k)] == s[k..];
    HighWordsZero(w, s, k, r);
    ValueTrim(b, t, n - k);
    assert s == s[..k] + s[k..];
    ValueSplit(b, s[..k], s[k..]);
    ValueBound(b, s[..k]);
    dropped := RightWholeArithmetic(Value(b, s[..k]), Pow(b, k), Value(b, t), LowBits(s, k, r), Pow(2, r));
  }

  /** Shifting right divides by 2^shift, rounding down. */
  lemma RightShiftedValue(w: nat, s: seq<nat>, k: nat, r: nat, shift: nat)
    requires r < w && k <= |s| && shift == k * w + r && AreWords(Pow(2, w), s)
    ensures Pow(2, shift) > 0
    ensures Value(Pow(2, w), RightShifted(w, s, k, r)) == Value(Pow(2, w), s) / Pow(2, shift)
  {
    hide Pow, Value, RightShifted;
    PowPositive(2, shift);
    ShiftSplit(w, k, r);
    var t := RightShifted(w, s, k, r);
    var dropped := RightShiftedSplit(w, s, k, r);
    DivModUnique(Value(Pow(2, w), s), Pow(2, shift), Value(Pow(2, w), t), dropped);
  }

  lemma HighWordsZero(w: nat, s: seq<nat>, k: nat, r: nat)
    requires r < w
    ensures forall i :: 0 <= i < |s| && |s| - k <= i ==> RightShifted(w, s, k, r)[i] == 0
  {}
}
