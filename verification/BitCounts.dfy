/** Counting and masking the bits of bytes and words. */
module BitCounts {
  import opened Basics
  import opened Powers
  import opened Bits
  import opened BitSequences

  const BITMASK_FIRST_BYTE: seq<Byte> := [0xFF, 0xFE, 0xFC, 0xF8, 0xF0, 0xE0, 0xC0, 0x80]
  const BITMASK_LAST_BYTE: seq<Byte> := [0x00, 0x1, 0x3, 0x7, 0xF, 0x1F, 0x3F, 0x7F]

  // ----- Counting -----

  /** How many of the bits have this value. */
  function CountOf(bits: seq<bool>, value: bool): nat {
    if bits == [] then 0 else (if bits[0] == value then 1 else 0) + CountOf(bits[1..], value)
  }

  lemma {:induction false} CountJoin(a: seq<bool>, b: seq<bool>, value: bool)
    ensures CountOf(a + b, value) == CountOf(a, value) + CountOf(b, value)
  {
    if a == [] {
      assert a + b == b;
    } else {
      CountJoin(a[1..], b, value);
      assert (a + b)[0] == a[0] && (a + b)[1..] == a[1..] + b;
    }
  }

  lemma {:induction false} CountBoth(bits: seq<bool>)
    ensures CountOf(bits, true) + CountOf(bits, false) == |bits|
  {
    if bits != [] {
      CountBoth(bits[1..]);
    }
  }

  lemma {:induction false} CountZeros(n: nat)
    ensures CountOf(Zeros(n), true) == 0
  {
    if n > 0 {
      CountZeros(n - 1);
      assert Zeros(n)[1..] == Zeros(n - 1);
    }
  }

  /** The number of set bits of a number. */
  function Popcount(x: nat): nat {
    if x == 0 then 0 else x % 2 + Popcount(x / 2)
  }

  lemma {:induction false} PopcountBits(x: nat, m: nat)
    requires x < Pow(2, m)
    ensures Popcount(x) == CountOf(BitsOf(x, m), true)
  {
    if m == 0 {
      assert Pow(2, 0) == 1;
    } else {
      PopcountBits(x / 2, m - 1);
      assert BitsOf(x, m)[1..] == BitsOf(x / 2, m - 1);
      assert x == 0 ==> Popcount(x / 2) == 0;
    }
  }

  /** The set bits of some bytes, counted in the word they make. */
  lemma WordCount(bytes: seq<Byte>)
    ensures Popcount(WordOf(bytes)) == CountOf(BytesBits(bytes), true)
  {
    WordBits(bytes);
    PopcountBits(WordOf(bytes), 8 * |bytes|);
  }

  // ----- Masks -----

  lemma {:induction false} AndBits(x: nat, y: nat, n: nat, i: nat)
    requires i < n
    ensures BitsOf(And(x, y), n)[i] == (BitsOf(x, n)[i] && BitsOf(y, n)[i])
  {
    AndHalves(x, y);
    assert BitsOf(And(x, y), n) == [And(x, y) % 2 == 1] + BitsOf(And(x, y) / 2, n - 1);
    assert BitsOf(x, n) == [x % 2 == 1] + BitsOf(x / 2, n - 1);
    assert BitsOf(y, n) == [y % 2 == 1] + BitsOf(y / 2, n - 1);
    if i > 0 {
      AndBits(x / 2, y / 2, n - 1, i - 1);
    }
  }

  /** A byte that has exactly the bits from lo up to hi set. */
  ghost predicate IsMask(mask: nat, lo: nat, hi: nat) {
    mask < 256 && forall i :: 0 <= i < 8 ==> BitsOf(mask, 8)[i] == (lo <= i < hi)
  }

  lemma SmallPowers(k: nat)
    requires k < 8
    ensures Pow(2, k) == [1, 2, 4, 8, 16, 32, 64, 128][k]
  {
    PowStep(2, 0);
    PowStep(2, 1);
    PowStep(2, 2);
    PowStep(2, 3);
    PowStep(2, 4);
    PowStep(2, 5);
    PowStep(2, 6);
  }

  lemma LastMask(k: nat)
    requires k < 8
    ensures IsMask(BITMASK_LAST_BYTE[k], 0, k)
  {
    hide BitsOf, Pow;
    SmallPowers(k);
    var x := BITMASK_LAST_BYTE[k];
    assert x == Pow(2, k) - 1;
    AllOnes(x, k);
    BitsSplit(x, k, 8 - k);
    assert x / Pow(2, k) == 0;
    BitsOfZero(8 - k);
    forall i | 0 <= i < 8 ensures BitsOf(x, 8)[i] == (0 <= i < k) {
      assert BitsOf(x, 8)[i] == (BitsOf(x, k) + Zeros(8 - k))[i];
    }
  }

  lemma FirstMask(k: nat)
    requires k < 8
    ensures IsMask(BITMASK_FIRST_BYTE[k], k, 8)
  {
    hide BitsOf, Pow;
    LastMask(k);
    TwoToTheEighth();
    var x, y := BITMASK_LAST_BYTE[k], BITMASK_FIRST_BYTE[k];
    assert Pow(2, 8) - 1 - x == y;
    InvertedBits(x, 8);
    forall i | 0 <= i < 8 ensures BitsOf(y, 8)[i] == (k <= i < 8) {
      assert BitsOf(Pow(2, 8) - 1 - x, 8)[i] == !BitsOf(x, 8)[i];
    }
  }

  lemma BothMasks(m1: nat, lo: nat, m2: nat, hi: nat)
    requires IsMask(m1, lo, 8) && IsMask(m2, 0, hi) && hi <= 8
    ensures IsMask(And(m1, m2), lo, hi)
  {
    hide BitsOf, And;
    AndAtMost(m1, m2);
    forall i | 0 <= i < 8 ensures BitsOf(And(m1, m2), 8)[i] == (lo <= i < hi) {
      AndBits(m1, m2, 8, i);
    }
  }

  /** What a mask leaves of a byte. */
  lemma Masked(x: nat, mask: nat, lo: nat, hi: nat)
    requires x < 256 && IsMask(mask, lo, hi) && lo <= hi <= 8
    ensures And(x, mask) < 256 && BitsOf(And(x, mask), 8) == Zeros(lo) + BitsOf(x, 8)[lo..hi] + Zeros(8 - hi)
  {
    hide BitsOf, And;
    AndAtMost(x, mask);
    var bits, all := BitsOf(And(x, mask), 8), BitsOf(x, 8);
    forall i | 0 <= i < 8 ensures bits[i] == (Zeros(lo) + all[lo..hi] + Zeros(8 - hi))[i] {
      AndBits(x, mask, 8, i);
    }
  }

  lemma MaskedCount(x: nat, mask: nat, lo: nat, hi: nat)
    requires x < 256 && IsMask(mask, lo, hi) && lo <= hi <= 8
    ensures Popcount(And(x, mask)) == CountOf(BitsOf(x, 8)[lo..hi], true)
  {
    hide BitsOf, And, Popcount;
    Masked(x, mask, lo, hi);
    TwoToTheEighth();
    PopcountBits(And(x, mask), 8);
    CountJoin(Zeros(lo) + BitsOf(x, 8)[lo..hi], Zeros(8 - hi), true);
    CountJoin(Zeros(lo), BitsOf(x, 8)[lo..hi], true);
    CountZeros(lo);
    CountZeros(8 - hi);
  }

  /** Masked from both sides, one after the other. */
  lemma MaskedTwice(x: nat, m1: nat, lo: nat, m2: nat, hi: nat)
    requires x < 256 && IsMask(m1, lo, 8) && IsMask(m2, 0, hi) && lo <= hi <= 8
    ensures Popcount(And(And(x, m1), m2)) == CountOf(BitsOf(x, 8)[lo..hi], true)
  {
    hide BitsOf, And, Popcount;
    Masked(x, m1, lo, 8);
    MaskedCount(And(x, m1), m2, 0, hi);
    assert BitsOf(And(x, m1), 8)[0..hi] == Zeros(lo) + BitsOf(x, 8)[lo..hi];
    CountJoin(Zeros(lo), BitsOf(x, 8)[lo..hi], true);
    CountZeros(lo);
  }
}
