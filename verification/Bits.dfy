/** Bitwise operators on naturals, read bit by bit, and their arithmetic meaning on aligned operands. */
module Bits {
  import opened Powers

  function Or(x: nat, y: nat): nat {
    if x == 0 then y
    else if y == 0 then x
    else (if x % 2 == 1 || y % 2 == 1 then 1 else 0) + 2 * Or(x / 2, y / 2)
  }

  function And(x: nat, y: nat): nat {
    if x == 0 || y == 0 then 0
    else (if x % 2 == 1 && y % 2 == 1 then 1 else 0) + 2 * And(x / 2, y / 2)
  }

  lemma AndHalves(x: nat, y: nat)
    ensures And(x, y) % 2 == 1 <==> x % 2 == 1 && y % 2 == 1
    ensures And(x, y) / 2 == And(x / 2, y / 2)
  {}

  lemma {:induction false} AndAtMost(x: nat, y: nat)
    ensures And(x, y) <= x && And(x, y) <= y
  {
    if x != 0 && y != 0 {
      AndAtMost(x / 2, y / 2);
      AndHalves(x, y);
    }
  }

  /** Shifting left within words of w bits drops the bits that do not fit. */
  function ShiftLeftWord(w: nat, x: nat, k: nat): nat {
    PowPositive(2, w);
    (x * Pow(2, k)) % Pow(2, w)
  }

  function ShiftRightWord(x: nat, k: nat): nat {
    PowPositive(2, k);
    x / Pow(2, k)
  }

  /** Combining a number whose low r bits are clear with one of at most r bits is addition. */
  lemma {:induction false} OrDisjoint(x: nat, y: nat, r: nat)
    requires y < Pow(2, r)
    ensures Or(x * Pow(2, r), y) == x * Pow(2, r) + y
  {
    hide Pow;
    PowStep(2, 0);
    if r > 0 {
      PowStep(2, r - 1);
      PowPositive(2, r - 1);
      var p := Pow(2, r - 1);
      OrDisjoint(x, y / 2, r - 1);
      assert x * (2 * p) == 2 * (x * p);
      if x * p == 0 {
        assert Or(0, y) == y;
      } else if y == 0 {
      } else {
        assert (2 * (x * p)) / 2 == x * p;
      }
    } else {
      assert y == 0;
    }
  }

  /** Masking with r low ones keeps the remainder modulo 2^r. */
  lemma {:induction false} AndMask(x: nat, r: nat)
    ensures Pow(2, r) > 0 && And(x, Pow(2, r) - 1) == x % Pow(2, r)
  {
    hide Pow;
    PowStep(2, 0);
    PowPositive(2, r);
    if r > 0 {
      PowStep(2, r - 1);
      PowPositive(2, r - 1);
      var p := Pow(2, r - 1);
      AndMask(x / 2, r - 1);
      assert (2 * p - 1) / 2 == p - 1;
      ModHalves(x, p);
      if p == 1 {
        assert And(x / 2, 0) == 0;
      }
    }
  }

  lemma ModHalves(x: nat, p: nat)
    requires p > 0
    ensures x % (2 * p) == 2 * ((x / 2) % p) + x % 2
  {
    var q, r := (x / 2) / p, (x / 2) % p;
    assert x / 2 == q * p + r;
    assert x == q * (2 * p) + (2 * r + x % 2);
    DivModUnique(x, 2 * p, q, 2 * r + x % 2);
  }

  /** What survives a left shift are the low w - k bits. */
  lemma ShiftLeftKeepsLowBits(w: nat, x: nat, k: nat)
    requires k <= w
    ensures Pow(2, w - k) > 0
    ensures ShiftLeftWord(w, x, k) == (x % Pow(2, w - k)) * Pow(2, k)
  {
    hide Pow;
    PowPositive(2, w);
    PowPositive(2, w - k);
    PowPositive(2, k);
    PowAdd(2, w - k, k);
    ScaledMod(x, Pow(2, w - k), Pow(2, k));
  }

  lemma ScaledMod(x: nat, p: nat, q: nat)
    requires p > 0 && q > 0
    ensures p * q > 0 && (x * q) % (p * q) == (x % p) * q
  {
    MulPositive(p, q);
    var d, m := x / p, x % p;
    MulStrict(m, p, q);
    assert x * q == (d * p + m) * q == d * (p * q) + m * q;
    DivModUnique(x * q, p * q, d, m * q);
  }
}
