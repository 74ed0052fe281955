/**
 One quotient digit of Knuth's Algorithm D: the estimate from the leading words, its two-step
 correction, and the bound on how far it can be from the true digit.
 */
module QuotientDigit {
  import opened Powers
  import opened StorageOperations

  /** The correction test: a product of two words against two words. */
  predicate TooLarge(b: nat, v0: nat, u0: nat, qhat: nat, rhat: nat) {
    qhat * v0 > rhat * b + u0
  }

  ghost predicate Fits(q: nat, v: nat, u: nat) {
    q * v <= u
  }

  /** qhat and the unbounded rhat are a quotient and a remainder of d by v1, the latter possibly too large. */
  ghost predicate Partial(d: nat, v1: nat, qhat: nat, rhat: nat) {
    d == qhat * v1 + rhat
  }

  /** The number made of a high and a low part; with words, a double word. */
  function Double(b: nat, low: nat, high: nat): nat {
    high * b + low
  }

  /** A double word divided by a word: quotient and remainder. */
  function DivModWords(b: nat, low: nat, high: nat, divisor: nat): (r: (nat, nat))
    requires divisor > 0
    ensures Partial(Double(b, low, high), divisor, r.0, r.1) && r.1 < divisor
  {
    (Double(b, low, high) / divisor, Double(b, low, high) % divisor)
  }

  /** The correction test decides whether qhat is too large for the three leading words. */
  lemma TestMeaning(b: nat, d: nat, v1: nat, v0: nat, u0: nat, qhat: nat, rhat: nat)
    requires Partial(d, v1, qhat, rhat)
    ensures TooLarge(b, v0, u0, qhat, rhat) <==> !Fits(qhat, Double(b, v0, v1), Double(b, u0, d))
  {
    assert qhat * (v1 * b + v0) == (qhat * v1) * b + qhat * v0;
    assert d * b == (qhat * v1) * b + rhat * b;
  }

  lemma Decrement(b: nat, d: nat, v1: nat, v0: nat, u0: nat, qhat: nat, rhat: nat)
    requires Partial(d, v1, qhat, rhat) && TooLarge(b, v0, u0, qhat, rhat)
    ensures qhat > 0 && Partial(d, v1, qhat - 1, rhat + v1)
  {
    assert qhat != 0;
    assert (qhat - 1) * v1 == qhat * v1 - v1;
  }

  /** Once the partial remainder has left the word range, the estimate is small enough. */
  lemma LargeRemainder(b: nat, v0: nat, u0: nat, qhat: nat, rhat: nat)
    requires b <= rhat && qhat < b && v0 < b
    ensures !TooLarge(b, v0, u0, qhat, rhat)
  {
    MulMonotone(qhat, rhat, v0);
    MulMonotone(v0, b, rhat);
  }

  /** A quotient of two words by one fits in a word when the top word is below the divisor. */
  lemma FirstQuotient(b: nat, u2: nat, u1: nat, v1: nat, q: nat, r: nat)
    requires u1 < b && u2 < v1 && Partial(Double(b, u1, u2), v1, q, r)
    ensures q < b
  {
    MulMonotone(u2 + 1, v1, b);
    MulCancelStrict(q, b, v1);
  }

  lemma FirstEstimate(b: nat, d: nat, u0: nat, v1: nat, v0: nat, q: nat, r: nat)
    requires u0 < b && Partial(d, v1, q, r) && r < v1
    ensures !Fits(q + 1, Double(b, v0, v1), Double(b, u0, d))
  {
    assert d + 1 <= (q + 1) * v1;
    MulMonotone(d + 1, (q + 1) * v1, b);
    MulAssociative(q + 1, v1, b);
    assert (q + 1) * (v1 * b + v0) == (q + 1) * (v1 * b) + (q + 1) * v0;
    assert (q + 1) * v0 >= 0;
  }

  lemma QuotientFromBounds(u: nat, v: nat, q: nat)
    requires v > 0 && Fits(q, v, u) && !Fits(q + 1, v, u)
    ensures u / v == q
  {
    DivModUnique(u, v, q, u - q * v);
  }

  lemma DoublePositive(b: nat, low: nat, high: nat)
    requires b > 0 && high > 0
    ensures Double(b, low, high) > 0
  {
    MulPositive(high, b);
  }

  /** Steps D3: qhat is the exact quotient of the three leading words by the divisor's two leading words. */
  method EstimateDigit(b: nat, u2: nat, u1: nat, u0: nat, v1: nat, v0: nat) returns (qhat: nat)
    requires u1 < b && u0 < b && v1 < b && v0 < b && 2 * v1 >= b && u2 <= v1 && v1 > 0
    ensures qhat < b
    ensures u2 == v1 ==> qhat == b - 1
    ensures Double(b, v0, v1) > 0
    ensures u2 < v1 ==> qhat == Double(b, u0, Double(b, u1, u2)) / Double(b, v0, v1)
  {
    hide TooLarge, Fits, Partial, Double, DivModWords;
    DoublePositive(b, v0, v1);
    if u2 == v1 {
      qhat := b - 1;
    } else {
      var (q, rhat) := DivModWords(b, u1, u2, v1);
      qhat := q;
      ghost var d := Double(b, u1, u2);
      FirstQuotient(b, u2, u1, v1, qhat, rhat);
      FirstEstimate(b, d, u0, v1, v0, qhat, rhat);
      TestMeaning(b, d, v1, v0, u0, qhat, rhat);
      if TooLarge(b, v0, u0, qhat, rhat) {
        Decrement(b, d, v1, v0, u0, qhat, rhat);
        qhat := qhat - 1;
        ghost var remainder := rhat + v1;
        TestMeaning(b, d, v1, v0, u0, qhat, remainder);
        var (sum, carry) := AddWords(b, false, rhat, v1, false);
        rhat := sum;
        if carry {
          LargeRemainder(b, v0, u0, qhat, remainder);
        } else if TooLarge(b, v0, u0, qhat, rhat) {
          Decrement(b, d, v1, v0, u0, qhat, rhat);
          qhat := qhat - 1;
          TestMeaning(b, d, v1, v0, u0, qhat, remainder + v1);
          LargeRemainder(b, v0, u0, qhat, remainder + v1);
        }
      }
      QuotientFromBounds(Double(b, u0, d), Double(b, v0, v1), qhat);
    }
  }

  /** Three leading words of the dividend window, and what is below them. */
  ghost predicate Leading(u: nat, u3: nat, p: nat) {
    u3 * p <= u < (u3 + 1) * p
  }

  lemma QuotientAtMost(u: nat, v: nat, q: nat)
    requires v > 0 && u < (q + 1) * v
    ensures u / v <= q
  {
    assert (u / v) * v <= u;
    MulCancelStrict(u / v, q + 1, v);
  }

  lemma QuotientAtLeast(u: nat, v: nat, q: int)
    requires v > 0 && q * v <= u
    ensures u / v >= q
  {
    assert u < (u / v + 1) * v;
    MulCancelStrict(q, u / v + 1, v);
  }

  /** Leading parts bound the quotient of the whole from above by the quotient of the parts. */
  lemma EstimateNotBelow(u: nat, v: nat, u3: nat, v2: nat, p: nat)
    requires v2 > 0 && p > 0 && Leading(u, u3, p) && v2 * p <= v
    ensures v > 0 && u / v <= u3 / v2
  {
    MulPositive(v2, p);
    var q := u3 / v2;
    assert u3 + 1 <= (q + 1) * v2;
    MulMonotone(u3 + 1, (q + 1) * v2, p);
    assert ((q + 1) * v2) * p == (q + 1) * (v2 * p);
    MulMonotone(v2 * p, v, q + 1);
    QuotientAtMost(u, v, q);
  }

  /** With a normalised divisor the estimate is at most one too large. */
  lemma EstimateNotFarAbove(b: nat, u: nat, v: nat, u3: nat, v2: nat, p: nat)
    requires v2 > 0 && p > 0 && Leading(u, u3, p) && Leading(v, v2, p)
    requires u3 / v2 <= v2
    ensures v > 0 && u3 / v2 <= u / v + 1
  {
    MulPositive(v2, p);
    var q := u3 / v2;
    if q > 0 {
      var m := q - 1;
      assert m * (v2 + 1) == q * v2 + q - v2 - 1 <= u3;
      MulMonotone(m * (v2 + 1), u3, p);
      MulMonotone(v, (v2 + 1) * p, m);
      assert m * ((v2 + 1) * p) == (m * (v2 + 1)) * p;
      QuotientAtLeast(u, v, m);
    }
  }

  /** The uncorrected branch: equal top words make the largest digit at most one too large. */
  lemma EstimateAtTop(b: nat, u: nat, v: nat, v1: nat, p: nat)
    requires b > 0 && p > 0 && 2 * v1 >= b && v1 > 0
    requires Leading(v, v1, p) && (v1 * b) * p <= u < b * v
    ensures v > 0 && u / v <= b - 1 <= u / v + 1
  {
    MulPositive(v1, p);
    QuotientAtMost(u, v, b - 1);
    if b >= 2 {
      var m := b - 2;
      assert m * (v1 + 1) == v1 * b + b - 2 * v1 - 2 <= v1 * b;
      MulMonotone(m * (v1 + 1), v1 * b, p);
      MulMonotone(v, (v1 + 1) * p, m);
      assert m * ((v1 + 1) * p) == (m * (v1 + 1)) * p;
      QuotientAtLeast(u, v, m);
    }
  }
}
