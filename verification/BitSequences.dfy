/** Numbers as sequences of bits, the lowest bit first, and what word operations do to them. */
module BitSequences {
  import opened Basics
  import opened Powers
  import opened Bits

  /** A value and the number of bits it is written with. */
  datatype Field = Field(value: nat, count: nat)

  /** The n lowest bits of a number. */
  function BitsOf(x: nat, n: nat): (bits: seq<bool>)
    ensures |bits| == n
  {
    if n == 0 then [] else [x % 2 == 1] + BitsOf(x / 2, n - 1)
  }

  /** The bits of a run of bytes, each byte lowest bit first. */
  function BytesBits(bytes: seq<Byte>): (bits: seq<bool>)
    ensures |bits| == 8 * |bytes|
  {
    if bytes == [] then [] else BitsOf(bytes[0], 8) + BytesBits(bytes[1..])
  }

  function Zeros(n: nat): (bits: seq<bool>)
    ensures |bits| == n
  {
    seq(n, _ => false)
  }

  lemma {:induction false} BitsOfZero(n: nat)
    ensures BitsOf(0, n) == Zeros(n)
  {
    if n > 0 {
      BitsOfZero(n - 1);
      assert Zeros(n) == [false] + Zeros(n - 1);
    }
  }

  lemma {:induction false} BitsInjective(x: nat, y: nat, n: nat)
    requires x < Pow(2, n) && y < Pow(2, n) && BitsOf(x, n) == BitsOf(y, n)
    ensures x == y
  {
    if n > 0 {
      assert BitsOf(x, n)[0] == BitsOf(y, n)[0];
      assert BitsOf(x, n)[1..] == BitsOf(x / 2, n - 1) && BitsOf(y, n)[1..] == BitsOf(y / 2, n - 1);
      BitsInjective(x / 2, y / 2, n - 1);
    }
  }

  lemma {:induction false} InvertedBits(x: nat, m: nat)
    requires x < Pow(2, m)
    ensures forall i :: 0 <= i < m ==> BitsOf(Pow(2, m) - 1 - x, m)[i] == !BitsOf(x, m)[i]
  {
    if m > 0 {
      var y, p := Pow(2, m) - 1 - x, Pow(2, m - 1);
      InvertedBits(x / 2, m - 1);
      assert y / 2 == p - 1 - x / 2 && y % 2 != x % 2;
      assert BitsOf(y, m) == [y % 2 == 1] + BitsOf(y / 2, m - 1);
      assert BitsOf(x, m) == [x % 2 == 1] + BitsOf(x / 2, m - 1);
    }
  }

  lemma {:induction false} AllOnes(x: nat, m: nat)
    requires x < Pow(2, m)
    ensures x == Pow(2, m) - 1 ==> forall i :: 0 <= i < m ==> BitsOf(x, m)[i]
    ensures x == 0 ==> forall i :: 0 <= i < m ==> !BitsOf(x, m)[i]
  {
    BitsOfZero(m);
    if x == Pow(2, m) - 1 {
      InvertedBits(x, m);
      assert Pow(2, m) - 1 - x == 0;
      forall i | 0 <= i < m ensures BitsOf(x, m)[i] {
        assert BitsOf(0, m)[i] == !BitsOf(x, m)[i];
      }
    }
  }

  lemma {:induction false} BitsSplit(x: nat, m: nat, n: nat)
    ensures Pow(2, m) > 0
    ensures BitsOf(x, m + n) == BitsOf(x, m) + BitsOf(x / Pow(2, m), n)
  {
    hide Pow;
    PowStep(2, 0);
    PowPositive(2, m);
    if m > 0 {
      PowPositive(2, m - 1);
      PowStep(2, m - 1);
      var rest := BitsOf((x / 2) / Pow(2, m - 1), n);
      BitsSplit(x / 2, m - 1, n);
      DivTwice(x, Pow(2, m - 1));
      assert BitsOf(x, m + n) == [x % 2 == 1] + (BitsOf(x / 2, m - 1) + rest);
    } else {
      assert BitsOf(x, 0) == [];
    }
  }

  lemma DivTwice(x: nat, p: nat)
    requires p > 0
    ensures x / (2 * p) == (x / 2) / p
  {
    var q, r := (x / 2) / p, (x / 2) % p;
    assert x / 2 == q * p + r;
    assert x == q * (2 * p) + (2 * r + x % 2);
    DivModUnique(x, 2 * p, q, 2 * r + x % 2);
  }

  lemma {:induction false} BitsOfMod(x: nat, n: nat)
    ensures Pow(2, n) > 0
    ensures BitsOf(x % Pow(2, n), n) == BitsOf(x, n)
  {
    PowPositive(2, n);
    if n > 0 {
      BitsOfMod(x / 2, n - 1);
      ModHalves(x, Pow(2, n - 1));
    }
  }

  /** Combining a number of m bits with another one shifted left by m. */
  lemma {:induction false} OrShifted(x: nat, m: nat, y: nat)
    requires x < Pow(2, m)
    ensures Or(x, y * Pow(2, m)) == x + y * Pow(2, m)
  {
    if m > 0 {
      var p := Pow(2, m - 1);
      OrShifted(x / 2, m - 1, y);
      Doubled(y, p);
      if x > 0 && y * p > 0 {
        assert (y * (2 * p)) / 2 == y * p;
      }
    }
  }

  lemma Doubled(y: nat, p: nat)
    ensures y * (2 * p) == 2 * (y * p)
  {}

  lemma BitsAppend(x: nat, m: nat, y: nat, n: nat)
    requires x < Pow(2, m)
    ensures BitsOf(x + y * Pow(2, m), m + n) == BitsOf(x, m) + BitsOf(y, n)
  {
    var p := Pow(2, m);
    BitsSplit(x + y * p, m, n);
    DivModUnique(x + y * p, p, y, x);
    BitsOfMod(x + y * p, m);
  }

  lemma NumberFits(x: nat, m: nat, y: nat, n: nat)
    requires x < Pow(2, m) && y < Pow(2, n)
    ensures x + y * Pow(2, m) < Pow(2, m + n)
  {
    PowAdd(2, m, n);
    var p, q := Pow(2, m), Pow(2, n);
    hide Pow;
    MulMonotone(y + 1, q, p);
    assert (y + 1) * p == y * p + p;
    assert q * p == p * q;
  }

  lemma QuotientFits(x: nat, m: nat, n: nat)
    requires x < Pow(2, m + n)
    ensures Pow(2, m) > 0 && x / Pow(2, m) < Pow(2, n)
  {
    PowPositive(2, m);
    PowAdd(2, m, n);
    var p, q := Pow(2, m), Pow(2, n);
    hide Pow;
    assert x == (x / p) * p + x % p;
    assert q * p == p * q;
    MulCancelStrict(x / p, q, p);
  }

  // ----- The operations of the streams -----

  /** The n lowest bits set, of at most `digits`. */
  function LsbMask(digits: nat, n: nat): nat
    requires n <= digits
  {
    PowPositive(2, digits);
    if n == 0 then 0 else ShiftRightWord(Pow(2, digits) - 1, digits - n)
  }

  lemma MaskValue(digits: nat, n: nat)
    requires n <= digits
    ensures Pow(2, n) > 0 && LsbMask(digits, n) == Pow(2, n) - 1
  {
    hide Pow;
    PowStep(2, 0);
    PowPositive(2, n);
    PowPositive(2, digits - n);
    PowAdd(2, n, digits - n);
    OnesShifted(Pow(2, n), Pow(2, digits - n));
  }

  lemma OnesShifted(p: nat, q: nat)
    requires p > 0 && q > 0
    ensures p * q > 0 && (p * q - 1) / q == p - 1
  {
    MulPositive(p, q);
    assert p * q - 1 == (p - 1) * q + (q - 1);
    DivModUnique(p * q - 1, q, p - 1, q - 1);
  }

  /** Masking keeps the lowest bits. */
  lemma MaskedBits(digits: nat, x: nat, n: nat, m: nat)
    requires n <= digits && n <= m
    ensures And(x, LsbMask(digits, n)) < Pow(2, n)
    ensures BitsOf(And(x, LsbMask(digits, n)), n) == BitsOf(x, m)[..n]
  {
    MaskValue(digits, n);
    AndMask(x, n);
    PowPositive(2, n);
    BitsOfMod(x, n);
    BitsSplit(x, n, m - n);
  }

  /** Adding n bits above the m bits of a word of `digits` bits. */
  lemma OrBits(digits: nat, x: nat, m: nat, y: nat, n: nat)
    requires x < Pow(2, m) && y < Pow(2, n) && m + n <= digits
    ensures Or(x, ShiftLeftWord(digits, y, m)) < Pow(2, m + n)
    ensures BitsOf(Or(x, ShiftLeftWord(digits, y, m)), m + n) == BitsOf(x, m) + BitsOf(y, n)
  {
    PowPositive(2, digits);
    var shifted := y * Pow(2, m);
    PowPositive(2, m);
    NumberFits(0, m, y, n);
    PowMonotone(2, m + n, digits);
    assert ShiftLeftWord(digits, y, m) == shifted by {
      hide Pow;
      DivModUnique(shifted, Pow(2, digits), 0, shifted);
    }
    OrShifted(x, m, y);
    NumberFits(x, m, y, n);
    BitsAppend(x, m, y, n);
  }

  /** Shifting right drops the lowest bits. */
  lemma ShiftedBits(x: nat, m: nat, n: nat)
    requires x < Pow(2, m + n)
    ensures ShiftRightWord(x, m) < Pow(2, n)
    ensures BitsOf(ShiftRightWord(x, m), n) == BitsOf(x, m + n)[m..]
  {
    QuotientFits(x, m, n);
    BitsSplit(x, m, n);
  }

  /** The first k bytes of a word in memory, on a little-endian host. */
  function MemoryBytes(x: nat, k: nat): (bytes: seq<Byte>)
    ensures |bytes| == k
  {
    if k == 0 then [] else [x % 256] + MemoryBytes(x / 256, k - 1)
  }

  lemma {:induction false} MemoryBits(x: nat, k: nat)
    ensures BytesBits(MemoryBytes(x, k)) == BitsOf(x, 8 * k)
  {
    if k > 0 {
      MemoryBits(x / 256, k - 1);
      TwoToTheEighth();
      BitsSplit(x, 8, 8 * (k - 1));
      BitsOfMod(x, 8);
      assert MemoryBytes(x, k)[1..] == MemoryBytes(x / 256, k - 1);
    }
  }

  lemma TwoToTheEighth()
    ensures Pow(2, 8) == 256
  {
    PowStep(2, 0);
    PowStep(2, 1);
    PowStep(2, 2);
    PowStep(2, 3);
    PowStep(2, 4);
    PowStep(2, 5);
    PowStep(2, 6);
    PowStep(2, 7);
  }

  /** The word whose bytes in memory these are. */
  function WordOf(bytes: seq<Byte>): nat {
    if bytes == [] then 0 else bytes[0] + 256 * WordOf(bytes[1..])
  }

  lemma {:induction false} WordBits(bytes: seq<Byte>)
    ensures WordOf(bytes) < Pow(2, 8 * |bytes|)
    ensures BitsOf(WordOf(bytes), 8 * |bytes|) == BytesBits(bytes)
  {
    if bytes == [] {
      assert Pow(2, 0) == 1;
    } else {
      WordBits(bytes[1..]);
      TwoToTheEighth();
      hide Pow;
      NumberFits(bytes[0], 8, WordOf(bytes[1..]), 8 * |bytes[1..]|);
      BitsAppend(bytes[0], 8, WordOf(bytes[1..]), 8 * |bytes[1..]|);
    }
  }

  lemma {:induction false} BytesBitsJoin(a: seq<Byte>, b: seq<Byte>)
    ensures BytesBits(a + b) == BytesBits(a) + BytesBits(b)
  {
    hide BitsOf;
    if a == [] {
      assert a + b == b;
    } else {
      BytesBitsJoin(a[1..], b);
      assert (a + b)[0] == a[0] && (a + b)[1..] == a[1..] + b;
      Associate(BitsOf(a[0], 8), BytesBits(a[1..]), BytesBits(b));
    }
  }
}
