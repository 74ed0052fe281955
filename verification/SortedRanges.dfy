/**
 Order and permutation of ranges of a sequence, for any strict weak order: what the sorting algorithms share.
 */
module SortedRanges {

  ghost predicate StrictWeak<T(!new)>(less: (T, T) -> bool) {
    (forall x :: !less(x, x)) &&
    (forall x, y, z :: less(x, y) && less(y, z) ==> less(x, z)) &&
    (forall x, y, z :: less(x, z) ==> less(x, y) || less(y, z))
  }

  lemma Asymmetric<T(!new)>(less: (T, T) -> bool, x: T, y: T)
    requires StrictWeak(less) && less(x, y)
    ensures !less(y, x)
  {}

  /** The range [lo, hi) is in order: no later element is less than an earlier one. */
  ghost predicate Sorted<T>(s: seq<T>, less: (T, T) -> bool, lo: int, hi: int) {
    0 <= lo && hi <= |s| && forall i, j :: lo <= i < j < hi ==> !less(s[j], s[i])
  }

  /** Only the range [lo, hi) has been rearranged. */
  ghost predicate Permuted<T>(s: seq<T>, s': seq<T>, lo: int, hi: int) {
    0 <= lo <= hi <= |s| && |s'| == |s| && s'[..lo] == s[..lo] && s'[hi..] == s[hi..] &&
    multiset(s'[lo..hi]) == multiset(s[lo..hi])
  }

  lemma PermutedSame<T>(s: seq<T>, lo: int, hi: int)
    requires 0 <= lo <= hi <= |s|
    ensures Permuted(s, s, lo, hi)
  {}

  lemma PermutedTwice<T>(s: seq<T>, s': seq<T>, s'': seq<T>, lo: int, hi: int)
    requires Permuted(s, s', lo, hi) && Permuted(s', s'', lo, hi)
    ensures Permuted(s, s'', lo, hi)
  {}

  lemma PermutedWider<T>(s: seq<T>, s': seq<T>, lo: int, hi: int, lo': int, hi': int)
    requires Permuted(s, s', lo, hi) && 0 <= lo' <= lo && hi <= hi' <= |s|
    ensures Permuted(s, s', lo', hi')
  {
    assert s'[..lo'] == s'[..lo][..lo'] && s[..lo'] == s[..lo][..lo'];
    assert s'[hi'..] == s'[hi..][hi' - hi..] && s[hi'..] == s[hi..][hi' - hi..];
    assert s'[lo'..lo] == s'[..lo][lo'..] && s[lo'..lo] == s[..lo][lo'..];
    assert s'[hi..hi'] == s'[hi..][..hi' - hi] && s[hi..hi'] == s[hi..][..hi' - hi];
    assert s'[lo'..hi'] == s'[lo'..lo] + s'[lo..hi] + s'[hi..hi'];
    assert s[lo'..hi'] == s[lo'..lo] + s[lo..hi] + s[hi..hi'];
  }

  lemma SwapPermutes<T>(s: seq<T>, i: int, j: int, lo: int, hi: int)
    requires 0 <= lo <= i < hi <= |s| && lo <= j < hi
    ensures Permuted(s, s[i := s[j]][j := s[i]], lo, hi)
  {
    var s' := s[i := s[j]][j := s[i]];
    assert s'[lo..hi] == s[lo..hi][i - lo := s[j]][j - lo := s[i]];
    assert s[lo..hi][j - lo] == s[j] && s[lo..hi][i - lo] == s[i];
  }

  /** What stands in a rearranged range has come from that range. */
  lemma PermutedFrom<T>(s: seq<T>, s': seq<T>, lo: int, hi: int, k: int) returns (k': int)
    requires Permuted(s, s', lo, hi) && 0 <= k < |s|
    ensures 0 <= k' < |s| && s'[k] == s[k'] && (lo <= k < hi ==> lo <= k' < hi) && (!(lo <= k < hi) ==> k' == k)
  {
    if lo <= k < hi {
      assert s'[lo..hi][k - lo] == s'[k];
      assert s'[k] in multiset(s'[lo..hi]);
      assert s'[k] in s[lo..hi];
      var m :| 0 <= m < |s[lo..hi]| && s[lo..hi][m] == s'[k];
      k' := lo + m;
    } else {
      k' := k;
      assert k < lo ==> s'[k] == s'[..lo][k] && s[k] == s[..lo][k];
      assert k >= hi ==> s'[k] == s'[hi..][k - hi] && s[k] == s[hi..][k - hi];
    }
  }

  // ----- Ranges in order but for parts still to be sorted -----

  predicate Both(lo: int, hi: int, i: int, j: int) {
    lo <= i < hi && lo <= j < hi
  }

  datatype Parts = Parts(lo1: int, hi1: int, lo2: int, hi2: int, lo3: int, hi3: int)

  /** The pair lies in one of the parts. */
  predicate Excused(p: Parts, i: int, j: int) {
    Both(p.lo1, p.hi1, i, j) || Both(p.lo2, p.hi2, i, j) || Both(p.lo3, p.hi3, i, j)
  }

  ghost predicate OrderedBut<T>(s: seq<T>, less: (T, T) -> bool, lo: int, hi: int, p: Parts) {
    0 <= lo && hi <= |s| && forall i, j :: lo <= i < j < hi ==> Excused(p, i, j) || !less(s[j], s[i])
  }

  predicate Separated(p: Parts) {
    p.hi1 <= p.lo2 && p.hi2 <= p.lo3 && p.lo1 <= p.hi1 && p.lo2 <= p.hi2 && p.lo3 <= p.hi3
  }

  predicate IsPart(p: Parts, a: int, b: int) {
    (a, b) == (p.lo1, p.hi1) || (a, b) == (p.lo2, p.hi2) || (a, b) == (p.lo3, p.hi3)
  }

  /** Rearranging one of the parts leaves everything else in order. */
  lemma PermutingPart<T>(s: seq<T>, s': seq<T>, less: (T, T) -> bool, lo: int, hi: int, p: Parts, a: int, b: int)
    requires OrderedBut(s, less, lo, hi, p) && Separated(p) && IsPart(p, a, b) && lo <= a <= b <= hi && Permuted(s, s', a, b)
    ensures OrderedBut(s', less, lo, hi, p)
  {
    forall i, j | lo <= i < j < hi && !Excused(p, i, j) ensures !less(s'[j], s'[i]) {
      hide Permuted;
      var i' := PermutedFrom(s, s', a, b, i);
      var j' := PermutedFrom(s, s', a, b, j);
      assert lo <= i' < j' < hi && !Excused(p, i', j');
    }
  }
}
