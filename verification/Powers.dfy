/** Exponentiation of naturals and the few facts about it that word arithmetic needs. */
module Powers {

  function Pow(b: nat, e: nat): nat {
    if e == 0 then 1 else b * Pow(b, e - 1)
  }

  lemma PowStep(b: nat, e: nat)
    ensures Pow(b, 0) == 1
    ensures Pow(b, e + 1) == b * Pow(b, e)
  {}

  lemma {:induction false} PowAdd(b: nat, m: nat, n: nat)
    ensures Pow(b, m + n) == Pow(b, m) * Pow(b, n)
  {
    hide Pow;
    PowStep(b, 0);
    if m > 0 {
      PowAdd(b, m - 1, n);
      PowStep(b, m - 1);
      PowStep(b, m - 1 + n);
      MulAssociative(b, Pow(b, m - 1), Pow(b, n));
    }
  }

  lemma {:induction false} PowPositive(b: nat, e: nat)
    requires b > 0
    ensures Pow(b, e) > 0
  {
    hide Pow;
    PowStep(b, 0);
    if e > 0 {
      PowPositive(b, e - 1);
      PowStep(b, e - 1);
      MulPositive(b, Pow(b, e - 1));
    }
  }

  lemma PowMonotone(b: nat, m: nat, n: nat)
    requires b > 0 && m <= n
    ensures Pow(b, m) <= Pow(b, n)
  {
    hide Pow;
    PowAdd(b, m, n - m);
    PowPositive(b, n - m);
    MulAtLeast(Pow(b, m), Pow(b, n - m));
  }

  lemma {:induction false} PowPow(b: nat, m: nat, n: nat)
    ensures Pow(Pow(b, m), n) == Pow(b, m * n)
  {
    hide Pow;
    PowStep(b, 0);
    PowStep(Pow(b, m), 0);
    if n > 0 {
      PowPow(b, m, n - 1);
      PowStep(Pow(b, m), n - 1);
      PowAdd(b, m, m * (n - 1));
      assert m + m * (n - 1) == m * n;
    }
  }

  lemma MulPositive(x: nat, y: nat)
    requires x > 0 && y > 0
    ensures x * y > 0
  {}

  lemma Distribute(p: int, x: int, t: int, q: int)
    ensures p * (x + t * q) == p * x + t * (p * q)
  {}

  lemma MulAssociative(x: int, y: int, z: int)
    ensures x * (y * z) == (x * y) * z
  {}

  lemma MulAtLeast(x: nat, y: nat)
    requires y > 0
    ensures x <= x * y
  {}

  lemma MulMonotone(x: int, y: int, z: nat)
    requires x <= y
    ensures x * z <= y * z
  {}

  lemma MulStrict(x: int, y: int, z: nat)
    requires x < y && z > 0
    ensures x * z < y * z
  {}

  /** Cancelling a positive common factor in an inequality. */
  lemma MulCancelStrict(x: int, y: int, z: nat)
    requires x * z < y * z
    ensures x < y
  {
    if y <= x {
      MulMonotone(y, x, z);
    }
  }

  /** Quotient and remainder are determined by the division equation. */
  lemma DivModUnique(a: int, d: nat, q: int, r: nat)
    requires d > 0 && r < d && a == q * d + r
    ensures a / d == q && a % d == r
  {
    var q', r' := a / d, a % d;
    assert (q - q') * d == r' - r;
    if q > q' {
      MulMonotone(1, q - q', d);
    } else if q < q' {
      MulMonotone(q - q', -1, d);
    }
  }

  /** The remainder is unchanged by adding a multiple of the divisor. */
  lemma ModPlusMultiple(a: int, k: int, d: nat)
    requires d > 0
    ensures (a + k * d) % d == a % d
  {
    DivModUnique(a + k * d, d, a / d + k, a % d);
  }

  lemma SmallMod(x: nat, d: nat)
    requires x < d
    ensures x % d == x
  {
    DivModUnique(x, d, 0, x);
  }

  /** The logarithm to base two, rounded down. */
  function FloorLog2(n: nat): (e: nat)
    requires n >= 1
    ensures Pow(2, e) <= n < Pow(2, e + 1)
  {
    PowStep(2, 0);
    if n == 1 then 0
    else
      var half := FloorLog2(n / 2);
      TwiceBetween(n, half);
      half + 1
  }

  lemma TwiceBetween(n: nat, e: nat)
    requires Pow(2, e) <= n / 2 < Pow(2, e + 1)
    ensures Pow(2, e + 1) <= n < Pow(2, e + 1 + 1)
  {
    hide Pow;
    PowStep(2, e);
    PowStep(2, e + 1);
  }
}
