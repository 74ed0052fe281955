/**
 Bitmaps: counting bits, finding one and finding a run of unset ones. The forms that go through whole bytes and
 words, with masks and trailing-zero counts, give what looking at one bit after the other gives.
 */
module BitmapViews {
  import opened Basics
  import opened Powers
  import opened Bits
  import opened BitSequences
  import opened BitCounts

  // ----- Runs of unset bits -----

  /** The n bits from s on exist and are unset. */
  ghost predicate Unset(bits: seq<bool>, s: int, n: nat) {
    0 <= s && s + n <= |bits| && forall i :: s <= i < s + n ==> !bits[i]
  }

  /** The least offset from lo on at which n unset bits follow each other. */
  ghost predicate FirstFit(bits: seq<bool>, n: nat, lo: nat, s: nat) {
    lo <= s && Unset(bits, s, n) && forall s' :: lo <= s' < s ==> !Unset(bits, s', n)
  }

  ghost predicate NoFit(bits: seq<bool>, n: nat, lo: nat) {
    forall s :: lo <= s ==> !Unset(bits, s, n)
  }

  /** Between lo and p stand exactly `free` unset bits before p, and no run of n bits lies further ahead. */
  ghost predicate Scanned(bits: seq<bool>, n: nat, lo: nat, p: nat, free: nat) {
    lo + free <= p <= |bits| && Unset(bits, p - free, free) && (lo + free < p ==> bits[p - free - 1]) &&
    forall s :: lo <= s && Unset(bits, s, n) && s + n <= p ==> p - free <= s
  }

  lemma ScanUnset(bits: seq<bool>, n: nat, lo: nat, p: nat, free: nat, t: nat)
    requires Scanned(bits, n, lo, p, free) && Unset(bits, p, t)
    ensures Scanned(bits, n, lo, p + t, free + t)
  {
    forall s | lo <= s && s + n <= p + t && s < p - free ensures !Unset(bits, s, n) {
      if p < s + n {
        assert bits[p - free - 1];
      }
    }
  }

  lemma ScanSet(bits: seq<bool>, n: nat, lo: nat, p: nat, free: nat, t: nat)
    requires Scanned(bits, n, lo, p, free) && free < n && t > 0
    requires p + t <= |bits| && forall i :: p <= i < p + t ==> bits[i]
    ensures Scanned(bits, n, lo, p + t, 0)
  {
    forall s | lo <= s && s + n <= p + t && s < p + t ensures !Unset(bits, s, n) {
      if p < s + n {
        assert bits[s + n - 1];
      }
    }
  }

  lemma ScanFound(bits: seq<bool>, n: nat, lo: nat, p: nat, free: nat)
    requires Scanned(bits, n, lo, p, free) && n <= free
    ensures FirstFit(bits, n, lo, p - free)
  {
    forall s | lo <= s < p - free ensures !Unset(bits, s, n) {
      assert s + n <= p;
    }
  }

  lemma ScanFailed(bits: seq<bool>, n: nat, lo: nat, free: nat)
    requires Scanned(bits, n, lo, |bits|, free) && free < n
    ensures NoFit(bits, n, lo)
  {}

  /** The bits of the whole buckets of 64. */
  function Whole(size: nat): (whole: nat)
    ensures whole <= size < whole + 64 && whole % 64 == 0
  {
    64 * (size / 64)
  }

  /**
   Where a search that is asked to start at `from` starts: an unset bucket is taken from its first bit on, and the bits
   behind the last bucket are too.
   */
  ghost function SearchStart(bits: seq<bool>, from: nat): (lo: nat)
    ensures lo <= |bits|
  {
    var at := 64 * (from / 64);
    if at >= Whole(|bits|) then Whole(|bits|) else if Unset(bits, at, 64) then at else from
  }

  /**
   The length reported for a run of at least n bits that starts at s: up to its end within the whole buckets and at most
   `most`, or only n when it has to reach into the bits behind them.
   */
  ghost predicate IsLength(bits: seq<bool>, n: nat, most: nat, s: nat, length: nat) {
    n <= length <= most && Unset(bits, s, length) &&
    if s + n > Whole(|bits|) then length == n
    else s + length <= Whole(|bits|) && (length == most || s + length == Whole(|bits|) || bits[s + length])
  }

  /** A search leaves out what lies before the place it is asked to start at exactly when nothing there is unset. */
  lemma SearchesFromThere(bits: seq<bool>, from: nat)
    requires from <= |bits|
    ensures (forall n, s :: n > 0 ==> (FirstFit(bits, n, SearchStart(bits, from), s) <==> FirstFit(bits, n, from, s))) <==>
            forall i :: SearchStart(bits, from) <= i < from ==> bits[i]
  {
    var lo := SearchStart(bits, from);
    if i :| lo <= i < from && !bits[i] {
      var first := FirstUnset(bits, lo, i);
      assert FirstFit(bits, 1, lo, first) && !FirstFit(bits, 1, from, first);
    } else {
      forall n: nat, s: nat | n > 0 ensures FirstFit(bits, n, lo, s) <==> FirstFit(bits, n, from, s) {
        forall s' | lo <= s' < from ensures !Unset(bits, s', n) {
          assert bits[s'];
        }
      }
    }
  }

  lemma FirstUnset(bits: seq<bool>, lo: nat, i: nat) returns (first: nat)
    requires lo <= i < |bits| && !bits[i]
    ensures FirstFit(bits, 1, lo, first) && first <= i
  {
    first := lo;
    while bits[first]
      invariant lo <= first <= i && forall k :: lo <= k < first ==> bits[k]
      decreases i - first
    {
      first := first + 1;
    }
    forall s' | lo <= s' < first ensures !Unset(bits, s', 1) {
      assert bits[s'];
    }
  }

  /** From the sixth of 64 unset bits on the first one is found. */
  lemma FiveIntoABucket(bits: seq<bool>)
    requires Unset(bits, 0, 64)
    ensures SearchStart(bits, 5) == 0 && FirstFit(bits, 1, SearchStart(bits, 5), 0)
  {}

  // ----- The longest run -----

  ghost predicate HasRun(bits: seq<bool>, lo: nat, hi: nat, n: nat) {
    exists s :: lo <= s && s + n <= hi && Unset(bits, s, n)
  }

  lemma ShorterRun(bits: seq<bool>, lo: nat, hi: nat, n: nat, k: nat)
    requires HasRun(bits, lo, hi, n) && k <= n
    ensures HasRun(bits, lo, hi, k)
  {
    var s :| lo <= s && s + n <= hi && Unset(bits, s, n);
    assert Unset(bits, s, k);
  }

  /** The length of the longest run between two places. */
  ghost function LongestIn(bits: seq<bool>, lo: nat, hi: nat): (n: nat)
    requires lo <= hi <= |bits|
    ensures HasRun(bits, lo, hi, n) && !HasRun(bits, lo, hi, n + 1)
    decreases hi
  {
    if lo == hi then
      assert Unset(bits, lo, 0);
      0
    else
      var before := LongestIn(bits, lo, hi - 1);
      OneMore(bits, lo, hi, before);
      if HasRun(bits, lo, hi, before + 1) then before + 1 else before
  }

  lemma OneMore(bits: seq<bool>, lo: nat, hi: nat, n: nat)
    requires lo < hi <= |bits| && HasRun(bits, lo, hi - 1, n) && !HasRun(bits, lo, hi - 1, n + 1)
    ensures HasRun(bits, lo, hi, n) && !HasRun(bits, lo, hi, n + 2)
  {
    var s :| lo <= s && s + n <= hi - 1 && Unset(bits, s, n);
    var k := n + 2;
    forall t | lo <= t && t + k <= hi ensures !Unset(bits, t, k) {
      assert !Unset(bits, t, n + 1);
    }
  }

  lemma LongestIs(bits: seq<bool>, lo: nat, hi: nat, n: nat)
    requires lo <= hi <= |bits| && HasRun(bits, lo, hi, n)
    ensures n <= LongestIn(bits, lo, hi)
    ensures !HasRun(bits, lo, hi, n + 1) ==> n == LongestIn(bits, lo, hi)
  {
    hide LongestIn;
    var m := LongestIn(bits, lo, hi);
    if m < n {
      ShorterRun(bits, lo, hi, n, m + 1);
    } else if n < m && !HasRun(bits, lo, hi, n + 1) {
      ShorterRun(bits, lo, hi, m, n + 1);
    }
  }

  /** How many unset bits stand right before a place. */
  ghost function RunBefore(bits: seq<bool>, p: nat): (n: nat)
    requires p <= |bits|
    ensures n <= p && Unset(bits, p - n, n) && (n < p ==> bits[p - n - 1])
  {
    if p == 0 || bits[p - 1] then 0 else 1 + RunBefore(bits, p - 1)
  }

  /** How many unset bits stand right behind a place. */
  ghost function RunAfter(bits: seq<bool>, p: nat): (n: nat)
    requires p <= |bits|
    ensures p + n <= |bits| && Unset(bits, p, n) && (p + n < |bits| ==> bits[p + n])
    decreases |bits| - p
  {
    if p == |bits| || bits[p] then 0 else 1 + RunAfter(bits, p + 1)
  }

  /**
   The search for the longest run cuts runs at the end of the whole buckets. That finds the longest one, or as much as is
   wanted, exactly when the run across this place is not longer than those on either side, or as much as is wanted stands
   on one side, or the run is only to be one bit longer than the longest one before and does not come to an end at this
   place as the longest one so far.
   */
  ghost predicate FindsLongest(bits: seq<bool>, most: nat) {
    var whole := Whole(|bits|);
    var before, after := RunBefore(bits, whole), RunAfter(bits, whole);
    var inside := Max(LongestIn(bits, 0, whole), LongestIn(bits, whole, |bits|));
    before + after <= inside || most <= inside ||
    (before <= LongestIn(bits, 0, whole - before) && Min(before + after, most) == LongestIn(bits, 0, whole) + 1)
  }

  lemma LongestParts(bits: seq<bool>, p: nat)
    requires p <= |bits|
    ensures LongestIn(bits, 0, |bits|) ==
            Max(Max(LongestIn(bits, 0, p), LongestIn(bits, p, |bits|)), RunBefore(bits, p) + RunAfter(bits, p))
  {
    hide LongestIn, RunBefore, RunAfter, Unset;
    var s :| 0 <= s && s + LongestIn(bits, 0, |bits|) <= |bits| && Unset(bits, s, LongestIn(bits, 0, |bits|));
    RunSomewhere(bits, p, s, LongestIn(bits, 0, |bits|));
    WiderRun(bits, 0, p, 0, |bits|, LongestIn(bits, 0, p));
    WiderRun(bits, p, |bits|, 0, |bits|, LongestIn(bits, p, |bits|));
    RunAcross(bits, p);
  }

  lemma RunSomewhere(bits: seq<bool>, p: nat, s: nat, n: nat)
    requires p <= |bits| && Unset(bits, s, n)
    ensures n <= LongestIn(bits, 0, p) || n <= LongestIn(bits, p, |bits|) || n <= RunBefore(bits, p) + RunAfter(bits, p)
  {
    hide LongestIn, RunBefore, RunAfter;
    if s + n <= p {
      LongestIs(bits, 0, p, n);
    } else if p <= s {
      LongestIs(bits, p, |bits|, n);
    } else {
      assert s >= p - RunBefore(bits, p) && s + n <= p + RunAfter(bits, p);
    }
  }

  lemma WiderRun(bits: seq<bool>, lo: nat, hi: nat, lo': nat, hi': nat, n: nat)
    requires lo' <= lo && hi <= hi' <= |bits| && lo' <= hi' && HasRun(bits, lo, hi, n)
    ensures n <= LongestIn(bits, lo', hi')
  {
    hide LongestIn, Unset;
    LongestIs(bits, lo', hi', n);
  }

  lemma RunAcross(bits: seq<bool>, p: nat)
    requires p <= |bits|
    ensures RunBefore(bits, p) + RunAfter(bits, p) <= LongestIn(bits, 0, |bits|)
  {
    hide LongestIn, RunBefore, RunAfter;
    var n := RunBefore(bits, p) + RunAfter(bits, p);
    assert Unset(bits, p - RunBefore(bits, p), n);
    LongestIs(bits, 0, |bits|, n);
  }

  /** No run of n bits from the start to hi, when none ends before the set bit at from, and none begins from there on. */
  lemma NoRunBelow(bits: seq<bool>, from: nat, n: nat, hi: nat)
    requires from < |bits| && (from > 0 ==> bits[from]) && !HasRun(bits, 0, from, n) && hi <= |bits|
    requires forall t :: from <= t && t + n <= hi ==> !Unset(bits, t, n)
    ensures !HasRun(bits, 0, hi, n)
  {
    forall t | 0 <= t && t + n <= hi ensures !Unset(bits, t, n) {
      if t < from && t + n > from {
        assert bits[from];
      }
    }
  }

  /** The first run longer than all before it begins behind a set bit, or at the start. */
  lemma BehindSetBit(bits: seq<bool>, from: nat, n: nat, s: nat)
    requires from < |bits| && (from > 0 ==> bits[from]) && n > 0 && FirstFit(bits, n, from, s)
    ensures s > 0 ==> bits[s - 1]
  {
    if s > from {
      assert !Unset(bits, s - 1, n);
    }
  }

  lemma FirstLonger(bits: seq<bool>, from: nat, m: nat, s: nat, hi: nat)
    requires from < |bits| && (from > 0 ==> bits[from]) && m == LongestIn(bits, 0, from) && FirstFit(bits, m + 1, from, s)
    requires from <= hi < s + m + 1
    ensures hi <= |bits| && LongestIn(bits, 0, hi) == m && (s > 0 ==> bits[s - 1])
  {
    hide LongestIn, Unset;
    BehindSetBit(bits, from, m + 1, s);
    FitsInside(bits, s, m + 1);
    NoRunBelow(bits, from, m + 1, hi);
    assert HasRun(bits, 0, hi, m);
    LongestIs(bits, 0, hi, m);
  }

  lemma FitsInside(bits: seq<bool>, s: nat, n: nat)
    requires Unset(bits, s, n)
    ensures s + n <= |bits|
  {}

  /** No longer run follows. */
  lemma NoneLonger(bits: seq<bool>, from: nat, m: nat)
    requires from < |bits| && (from > 0 ==> bits[from]) && m == LongestIn(bits, 0, from) && NoFit(bits, m + 1, from)
    ensures LongestIn(bits, 0, |bits|) == m
  {
    hide LongestIn, Unset;
    NoRunBelow(bits, from, m + 1, |bits|);
    assert HasRun(bits, 0, |bits|, m);
    LongestIs(bits, 0, |bits|, m);
  }

  /**
   How far the search for the longest run has come: among the whole buckets; done with a run of the wanted length; or
   behind the buckets, where it began with the length `base`.
   */
  datatype Stage = Among | Done | Behind(base: nat)

  ghost predicate AtStage(bits: seq<bool>, most: nat, stage: Stage, from: nat, size: nat) {
    var whole := Whole(|bits|);
    size <= most &&
    match stage
    case Among => from < whole && (from > 0 ==> bits[from]) && size == LongestIn(bits, 0, from)
    case Done => size == most <= LongestIn(bits, 0, whole)
    case Behind(base) => from >= whole && base <= size && IsBase(bits, base) && (size > base ==> HasRun(bits, whole, |bits|, size))
  }

  /**
   The search leaves the whole buckets with the longest run there, or with one bit more when it has met a run across
   their end.
   */
  ghost predicate IsBase(bits: seq<bool>, base: nat) {
    var whole := Whole(|bits|);
    var before, across, longest := RunBefore(bits, whole), RunBefore(bits, whole) + RunAfter(bits, whole), LongestIn(bits, 0, whole);
    if base == longest then before == 0 || across <= longest || before > LongestIn(bits, 0, whole - before)
    else base == longest + 1 <= across && before <= LongestIn(bits, 0, whole - before)
  }

  lemma StageStarts(bits: seq<bool>, most: nat)
    ensures AtStage(bits, most, if Whole(|bits|) == 0 then Behind(0) else Among, 0, 0)
  {
    assert Unset(bits, 0, 0);
    LongestIs(bits, 0, 0, 0);
  }

  /** What a run found among the whole buckets, or across or behind their end, leads to. */
  lemma NextFromBuckets(bits: seq<bool>, most: nat, from: nat, m: nat, s: nat, length: nat) returns (stage: Stage)
    requires AtStage(bits, most, Among, from, m) && m < most
    requires FirstFit(bits, m + 1, from, s) && IsLength(bits, m + 1, most, s, length)
    ensures AtStage(bits, most, stage, s + length, length)
  {
    hide LongestIn, RunBefore, RunAfter;
    var whole := Whole(|bits|);
    FirstLonger(bits, from, m, s, s);
    if s + (m + 1) > whole {
      FirstLonger(bits, from, m, s, whole);
      if s < whole {
        stage := Behind(m + 1);
        assert RunBefore(bits, whole) == whole - s;
      } else {
        stage := Behind(m);
        NothingAcross(bits, from, m, s);
      }
    } else if length == most {
      stage := Done;
      LongestIs(bits, 0, whole, length);
    } else {
      LongestToHere(bits, s, m, length);
      if s + length == whole {
        stage := Behind(length);
        assert RunBefore(bits, whole) == length;
      } else {
        stage := Among;
      }
    }
  }

  /** A run found behind the buckets shows that none across their end is as long. */
  lemma NothingAcross(bits: seq<bool>, from: nat, m: nat, s: nat)
    requires FirstFit(bits, m + 1, from, s) && from < Whole(|bits|) <= s && (from > 0 ==> bits[from])
    ensures var whole := Whole(|bits|);
            RunBefore(bits, whole) == 0 || RunBefore(bits, whole) + RunAfter(bits, whole) <= m
  {
    hide RunBefore, RunAfter;
    var whole := Whole(|bits|);
    var first := whole - RunBefore(bits, whole);
    if RunBefore(bits, whole) > 0 {
      assert Unset(bits, first, RunBefore(bits, whole) + RunAfter(bits, whole));
      assert from <= first;
      assert !Unset(bits, first, m + 1);
    }
  }

  /** A run behind a set bit, longer than all before, is the longest up to its end. */
  lemma LongestToHere(bits: seq<bool>, s: nat, m: nat, length: nat)
    requires s + length <= |bits| && Unset(bits, s, length) && m < length && LongestIn(bits, 0, s) == m && (s > 0 ==> bits[s - 1])
    ensures LongestIn(bits, 0, s + length) == length
  {
    hide LongestIn, RunBefore, RunAfter;
    hide Unset;
    assert HasRun(bits, 0, s + length, length);
    if HasRun(bits, 0, s + length, length + 1) {
      var t :| 0 <= t && t + (length + 1) <= s + length && Unset(bits, t, length + 1);
      EndsBefore(bits, t, length + 1, s);
      assert HasRun(bits, 0, s, length + 1);
      LongestIs(bits, 0, s, length + 1);
    }
    LongestIs(bits, 0, s + length, length);
  }

  /** A run that begins before a set bit ends before it. */
  lemma EndsBefore(bits: seq<bool>, t: nat, n: nat, s: nat)
    requires Unset(bits, t, n) && t < s <= |bits| && bits[s - 1]
    ensures t + n <= s
  {}

  lemma NextStage(bits: seq<bool>, most: nat, stage: Stage, from: nat, m: nat, s: nat, length: nat) returns (next: Stage)
    requires AtStage(bits, most, stage, from, m) && m < most
    requires FirstFit(bits, m + 1, SearchStart(bits, from), s) && IsLength(bits, m + 1, most, s, length)
    ensures AtStage(bits, most, next, s + length, length) && m < length <= most && Unset(bits, s, length)
  {
    hide LongestIn, RunBefore, RunAfter;
    match stage
    case Among =>
      StartsThere(bits, from);
      next := NextFromBuckets(bits, most, from, m, s, length);
    case Done =>
    case Behind(_) =>
      next := stage;
      assert HasRun(bits, Whole(|bits|), |bits|, m + 1);
  }

  lemma StartsThere(bits: seq<bool>, from: nat)
    requires from < Whole(|bits|) && (from > 0 ==> bits[from])
    ensures SearchStart(bits, from) == from
  {}

  /** At the end of the search. */
  lemma StageEnds(bits: seq<bool>, most: nat, stage: Stage, from: nat, m: nat)
    requires AtStage(bits, most, stage, from, m) && (m < most ==> NoFit(bits, m + 1, SearchStart(bits, from)))
    ensures m == Min(most, LongestIn(bits, 0, |bits|)) <==> FindsLongest(bits, most)
  {
    hide LongestIn, RunBefore, RunAfter, FindsLongest, IsBase, Unset, NoFit, SearchStart;
    match stage
    case Among =>
      if m < most {
        StartsThere(bits, from);
      }
      EndAmong(bits, most, from, m);
    case Done =>
      EndDone(bits, most);
    case Behind(base) =>
      StartsBehind(bits, from);
      EndBehind(bits, most, base, m);
  }

  lemma StartsBehind(bits: seq<bool>, from: nat)
    requires from >= Whole(|bits|)
    ensures SearchStart(bits, from) == Whole(|bits|)
  {}

  lemma EndAmong(bits: seq<bool>, most: nat, from: nat, m: nat)
    requires from < Whole(|bits|) && (from > 0 ==> bits[from]) && m == LongestIn(bits, 0, from) <= most
    requires m < most ==> NoFit(bits, m + 1, from)
    ensures m == Min(most, LongestIn(bits, 0, |bits|)) && FindsLongest(bits, most)
  {
    hide LongestIn, RunBefore, RunAfter, Unset, Whole, NoFit;
    var whole := Whole(|bits|);
    LongestParts(bits, whole);
    assert HasRun(bits, 0, whole, m);
    LongestIs(bits, 0, whole, m);
    if m < most {
      NoneLonger(bits, from, m);
    }
  }

  lemma EndDone(bits: seq<bool>, most: nat)
    requires most <= LongestIn(bits, 0, Whole(|bits|))
    ensures most == Min(most, LongestIn(bits, 0, |bits|)) && FindsLongest(bits, most)
  {
    hide LongestIn, RunBefore, RunAfter, Whole;
    LongestParts(bits, Whole(|bits|));
  }

  lemma EndBehind(bits: seq<bool>, most: nat, base: nat, m: nat)
    requires base <= m <= most && IsBase(bits, base) && (m > base ==> HasRun(bits, Whole(|bits|), |bits|, m))
    requires m < most ==> NoFit(bits, m + 1, Whole(|bits|))
    ensures m == Min(most, LongestIn(bits, 0, |bits|)) <==> FindsLongest(bits, most)
  {
    hide LongestIn, RunBefore, RunAfter, Unset, Whole, NoFit, HasRun;
    var whole := Whole(|bits|);
    var before, after := RunBefore(bits, whole), RunAfter(bits, whole);
    LongestParts(bits, whole);
    if m > base {
      LongestIs(bits, whole, |bits|, m);
    }
    if m < most {
      NoneBehind(bits, whole, m);
    }
    AcrossOnlyBehind(bits);
    EndCount(most, m, base, LongestIn(bits, 0, whole), LongestIn(bits, whole, |bits|), before, before + after,
             LongestIn(bits, 0, whole - before));
  }

  lemma NoneBehind(bits: seq<bool>, p: nat, m: nat)
    requires p <= |bits| && NoFit(bits, m + 1, p)
    ensures LongestIn(bits, p, |bits|) <= m
  {
    hide LongestIn;
    if LongestIn(bits, p, |bits|) > m {
      ShorterRun(bits, p, |bits|, LongestIn(bits, p, |bits|), m + 1);
    }
  }

  lemma EndCount(most: nat, m: nat, base: nat, left: nat, right: nat, before: nat, across: nat, inner: nat)
    requires base <= m <= most && (m > base ==> m <= right) && (m < most ==> right <= m) && (before == 0 ==> across <= right)
    requires if base == left then before == 0 || across <= left || before > inner
             else base == left + 1 <= across && before <= inner
    ensures m == Min(most, Max(Max(left, right), across)) <==>
            across <= Max(left, right) || most <= Max(left, right) || (before <= inner && Min(across, most) == left + 1)
  {}

  /** A run at the end of the buckets with nothing before that end lies behind it. */
  lemma AcrossOnlyBehind(bits: seq<bool>)
    ensures RunAfter(bits, Whole(|bits|)) <= LongestIn(bits, Whole(|bits|), |bits|)
  {
    hide LongestIn, RunBefore, RunAfter;
    LongestIs(bits, Whole(|bits|), |bits|, RunAfter(bits, Whole(|bits|)));
  }

  /** With nothing but whole buckets the search finds the longest run, or as much as is wanted. */
  lemma WholeBucketsFindLongest(bits: seq<bool>, most: nat)
    requires |bits| % 64 == 0
    ensures FindsLongest(bits, most)
  {
    hide LongestIn, RunBefore, RunAfter;
    assert HasRun(bits, 0, |bits|, RunBefore(bits, |bits|));
    LongestIs(bits, 0, |bits|, RunBefore(bits, |bits|));
  }

  /** Of 70 unset bits it finds 64. */
  lemma SeventyUnset(bits: seq<bool>)
    requires |bits| == 70 && Unset(bits, 0, 70)
    ensures LongestIn(bits, 0, 70) == 70 && !FindsLongest(bits, 70)
  {
    LongestIs(bits, 0, 70, 70);
    LongestIs(bits, 0, 64, 64);
    assert Unset(bits, 64, 6);
    LongestIs(bits, 64, 70, 6);
  }

  // ----- Trailing zeros and ones of a word -----

  /** The number of clear bits below the lowest set one. */
  function CountTrailingZeroes(x: nat): nat
    requires x > 0
  {
    if x % 2 == 1 then 0 else 1 + CountTrailingZeroes(x / 2)
  }

  lemma {:induction false} TrailingZeroes(x: nat, m: nat)
    requires 0 < x < Pow(2, m)
    ensures CountTrailingZeroes(x) < m
    ensures forall i :: 0 <= i < CountTrailingZeroes(x) ==> !BitsOf(x, m)[i]
    ensures BitsOf(x, m)[CountTrailingZeroes(x)]
  {
    assert m > 0 by {
      assert Pow(2, 0) == 1;
    }
    if x % 2 == 0 {
      TrailingZeroes(x / 2, m - 1);
      var below := BitsOf(x / 2, m - 1);
      assert BitsOf(x, m) == [false] + below;
      forall i | 0 <= i < CountTrailingZeroes(x) ensures !BitsOf(x, m)[i] {
        assert i > 0 ==> BitsOf(x, m)[i] == below[i - 1];
      }
    }
  }

  /** All bits of a 64-bit word inverted. */
  function Inverted(x: nat): nat
    requires x < Pow(2, 64)
  {
    Pow(2, 64) - 1 - x
  }

  /** The ones at the bottom of a word are the trailing zeros of its inverse. */
  lemma TrailingOnes(x: nat, m: nat)
    requires x < Pow(2, m) && m <= 64 && x % 2 == 1 && (m < 64 || x < Pow(2, 64) - 1)
    ensures x < Pow(2, 64) && Inverted(x) > 0
    ensures var t := CountTrailingZeroes(Inverted(x));
            1 <= t <= m && forall i :: 0 <= i < t ==> BitsOf(x, m)[i]
  {
    hide Pow, BitsOf, CountTrailingZeroes, Inverted;
    InverseIsEven(x, m);
    EvenTrails(Inverted(x));
    TrailingZeroes(Inverted(x), 64);
    WordInverted(x);
    LowBits(x, m);
    OnesBelow(BitsOf(Inverted(x), 64), BitsOf(x, 64), m, CountTrailingZeroes(Inverted(x)));
  }

  lemma WordInverted(x: nat)
    requires x < Pow(2, 64) && Inverted(x) < Pow(2, 64)
    ensures forall i :: 0 <= i < 64 ==> BitsOf(Inverted(x), 64)[i] == !BitsOf(x, 64)[i]
  {
    hide Pow, BitsOf;
    InvertedBits(x, 64);
  }

  lemma LowBits(x: nat, m: nat)
    requires x < Pow(2, m) && m <= 64
    ensures BitsOf(x, m) == BitsOf(x, 64)[..m] && (m < 64 ==> !BitsOf(x, 64)[m])
  {
    hide Pow, BitsOf;
    BitsSplit(x, m, 64 - m);
    if m < 64 {
      HighBitClear(x, m);
    }
  }

  /** Bits and their inverses, clear below t and set there; where the inverse is set at m, t is not beyond m. */
  lemma OnesBelow(inverses: seq<bool>, bits: seq<bool>, m: nat, t: nat)
    requires |inverses| == |bits| && m <= |bits| && t < |inverses| && inverses[t]
    requires forall i :: 0 <= i < |bits| ==> inverses[i] == !bits[i]
    requires (forall i :: 0 <= i < t ==> !inverses[i]) && (m < |bits| ==> !bits[m])
    ensures t <= m && forall i :: 0 <= i < t ==> bits[..m][i]
  {}

  lemma InverseIsEven(x: nat, m: nat)
    requires x < Pow(2, m) && m <= 64 && x % 2 == 1 && (m < 64 || x < Pow(2, 64) - 1)
    ensures 0 < Pow(2, 64) && x < Pow(2, 64) && 0 < Inverted(x) < Pow(2, 64) && Inverted(x) % 2 == 0
  {
    hide Pow;
    PowMonotone(2, m, 64);
    PowStep(2, 63);
    PowPositive(2, 63);
    if m < 64 {
      PowMonotone(2, m, 63);
    }
  }

  lemma EvenTrails(x: nat)
    requires x > 0 && x % 2 == 0
    ensures CountTrailingZeroes(x) > 0
  {}

  lemma HighBitClear(x: nat, m: nat)
    requires x < Pow(2, m) && m < 64
    ensures !BitsOf(x, 64)[m]
  {
    BitsSplit(x, m, 64 - m);
    var p := Pow(2, m);
    hide Pow, BitsOf;
    DivModUnique(x, p, 0, x);
    BitsOfZero(64 - m);
    assert BitsOf(x, 64) == BitsOf(x, m) + Zeros(64 - m);
  }

  // ----- The bits of a bitmap -----

  lemma {:induction false} AndBit(x: nat, k: nat)
    ensures And(x, Pow(2, k)) == if BitsOf(x, k + 1)[k] then Pow(2, k) else 0
  {
    PowPositive(2, k);
    if k > 0 {
      AndBit(x / 2, k - 1);
      assert BitsOf(x, k + 1) == [x % 2 == 1] + BitsOf(x / 2, k);
      assert Pow(2, k) / 2 == Pow(2, k - 1) && Pow(2, k) % 2 == 0;
    } else {
      assert BitsOf(x, 1) == [x % 2 == 1] + BitsOf(x / 2, 0);
      assert And(x / 2, 0) == 0;
    }
  }

  lemma {:induction false} ByteBit(data: seq<Byte>, i: nat)
    requires i < 8 * |data|
    ensures BytesBits(data)[i] == BitsOf(data[i / 8], 8)[i % 8]
  {
    hide BitsOf;
    if i >= 8 {
      ByteBit(data[1..], i - 8);
      assert data[1..][(i - 8) / 8] == data[i / 8];
    }
  }

  lemma SplitTwice(data: seq<Byte>, i: nat, j: nat)
    requires i <= j <= |data|
    ensures data == data[..i] + (data[i..j] + data[j..])
  {}

  lemma MiddleBits(a: seq<Byte>, b: seq<Byte>, c: seq<Byte>)
    ensures BytesBits(a + (b + c))[8 * |a|..8 * |a| + 8 * |b|] == BytesBits(b)
  {
    hide BytesBits;
    BytesBitsJoin(a, b + c);
    BytesBitsJoin(b, c);
  }

  /** Whole bytes are whole stretches of bits. */
  lemma BytesSlice(data: seq<Byte>, i: nat, j: nat)
    requires i <= j <= |data|
    ensures BytesBits(data)[8 * i..8 * j] == BytesBits(data[i..j])
  {
    hide BytesBits;
    SplitTwice(data, i, j);
    MiddleBits(data[..i], data[i..j], data[j..]);
  }

  lemma BytesSliceAt(data: seq<Byte>, i: nat, j: nat, lo: nat, hi: nat)
    requires i <= j <= |data| && lo == 8 * i && hi == 8 * j
    ensures lo <= hi <= |BytesBits(data)| && BytesBits(data)[lo..hi] == BytesBits(data[i..j])
  {
    hide BytesBits;
    BytesSlice(data, i, j);
  }

  lemma EightBytes(bytes: seq<Byte>)
    requires |bytes| == 8
    ensures WordOf(bytes) < Pow(2, 64) && BitsOf(WordOf(bytes), 64) == BytesBits(bytes)
  {
    hide BitsOf, Pow, BytesBits, WordOf;
    WordBits(bytes);
    assert 8 * |bytes| == 64;
  }

  lemma WordAt(data: seq<Byte>, i: nat, at: nat)
    requires i + 8 <= |data| && at == 8 * i
    ensures WordOf(data[i..i + 8]) < Pow(2, 64)
    ensures BitsOf(WordOf(data[i..i + 8]), 64) == BytesBits(data)[at..at + 64]
  {
    hide BitsOf, Pow, BytesBits, WordOf;
    EightBytes(data[i..i + 8]);
    BytesSliceAt(data, i, i + 8, at, at + 64);
  }

  lemma ByteBitAt(data: seq<Byte>, i: nat, k: nat)
    requires i < |data| && k < 8
    ensures BytesBits(data)[8 * i + k] == BitsOf(data[i], 8)[k]
  {
    hide BitsOf, BytesBits;
    ByteBit(data, 8 * i + k);
    assert (8 * i + k) / 8 == i && (8 * i + k) % 8 == k;
  }

  lemma ByteSlice(data: seq<Byte>, i: nat, lo: nat, hi: nat)
    requires i < |data| && lo <= hi <= 8
    ensures BytesBits(data)[8 * i + lo..8 * i + hi] == BitsOf(data[i], 8)[lo..hi]
  {
    hide BitsOf, BytesBits;
    var bits, at, byte := BytesBits(data), 8 * i, BitsOf(data[i], 8);
    WholeByte(data, i);
    assert bits[at..at + 8] == byte;
    SliceWithin(bits, at, at + 8, lo, hi);
  }

  lemma WholeByte(data: seq<Byte>, i: nat)
    requires i < |data|
    ensures BytesBits(data)[8 * i..8 * i + 8] == BitsOf(data[i], 8)
  {
    hide BitsOf, BytesBits;
    BytesSlice(data, i, i + 1);
    assert data[i..i + 1] == [data[i]];
    OneByte(data[i]);
  }

  lemma OneByte(byte: Byte)
    ensures BytesBits([byte]) == BitsOf(byte, 8)
  {
    hide BitsOf;
    assert BytesBits([]) == [];
    assert BitsOf(byte, 8) + [] == BitsOf(byte, 8);
  }

  // ----- Counting bits -----

  /** The set bits among those from i to j, in whole bytes. */
  ghost function SetIn(data: seq<Byte>, i: nat, j: nat): nat
    requires i <= j <= |data|
  {
    CountOf(BytesBits(data[i..j]), true)
  }

  lemma SetInMore(data: seq<Byte>, i: nat, j: nat, k: nat)
    requires i <= j <= k <= |data|
    ensures SetIn(data, i, k) == SetIn(data, i, j) + SetIn(data, j, k)
  {
    hide BytesBits, CountOf;
    assert data[i..k] == data[i..j] + data[j..k];
    BytesBitsJoin(data[i..j], data[j..k]);
    CountJoin(BytesBits(data[i..j]), BytesBits(data[j..k]), true);
  }

  lemma SetInByte(data: seq<Byte>, i: nat)
    requires i < |data|
    ensures SetIn(data, i, i + 1) == Popcount(data[i])
  {
    hide BitsOf, BytesBits, CountOf, Popcount;
    assert data[i..i + 1] == [data[i]];
    OneByte(data[i]);
    TwoToTheEighth();
    PopcountBits(data[i], 8);
  }

  lemma SetInNothing(data: seq<Byte>, i: nat)
    requires i <= |data|
    ensures SetIn(data, i, i) == 0
  {
    assert data[i..i] == [];
  }

  /** The set bits from one place to another: the end of a byte, whole bytes, and the start of a byte. */
  lemma CountThreeParts(data: seq<Byte>, start: nat, i: nat, j: nat, end: nat)
    requires start <= 8 * i <= 8 * j <= end <= 8 * |data|
    ensures CountOf(BytesBits(data)[start..end], true)
         == CountOf(BytesBits(data)[start..8 * i], true) + SetIn(data, i, j) + CountOf(BytesBits(data)[8 * j..end], true)
  {
    hide BytesBits, CountOf;
    var bits := BytesBits(data);
    BytesSlice(data, i, j);
    ThreeParts(bits, start, 8 * i, 8 * j, end);
    CountJoin(bits[start..8 * i] + bits[8 * i..8 * j], bits[8 * j..end], true);
    CountJoin(bits[start..8 * i], bits[8 * i..8 * j], true);
  }

  lemma ThreeParts(bits: seq<bool>, a: nat, b: nat, c: nat, d: nat)
    requires a <= b <= c <= d <= |bits|
    ensures bits[a..d] == bits[a..b] + bits[b..c] + bits[c..d]
  {}

  // ----- Finding a bit -----

  ghost predicate Absent(bits: seq<bool>, value: bool, lo: int, hi: int) {
    0 <= lo <= hi <= |bits| && forall i :: lo <= i < hi ==> bits[i] != value
  }

  /** The first bit with this value from lo on and before hi, or nothing when there is none. */
  ghost predicate FirstIn(bits: seq<bool>, value: bool, lo: int, hi: int, r: Option<nat>) {
    match r
    case None => Absent(bits, value, lo, hi)
    case Some(i) => lo <= i < hi <= |bits| && bits[i] == value && Absent(bits, value, lo, i)
  }

  /** The lowest bit that a mask leaves of a byte. */
  lemma LowestMasked(x: nat, mask: nat, lo: nat, hi: nat)
    requires x < 256 && IsMask(mask, lo, hi) && lo <= hi <= 8
    ensures And(x, mask) == 0 ==> forall j :: lo <= j < hi ==> !BitsOf(x, 8)[j]
    ensures And(x, mask) != 0 ==>
              var t := CountTrailingZeroes(And(x, mask));
              lo <= t < hi && BitsOf(x, 8)[t] && forall j :: lo <= j < t ==> !BitsOf(x, 8)[j]
  {
    hide BitsOf, And, Pow;
    var y, all := And(x, mask), BitsOf(x, 8);
    Masked(x, mask, lo, hi);
    TwoToTheEighth();
    if y == 0 {
      BitsOfZero(8);
    } else {
      TrailingZeroes(y, 8);
    }
    forall j | 0 <= j < 8 ensures BitsOf(y, 8)[j] == (lo <= j < hi && all[j]) {
      assert BitsOf(y, 8)[j] == (Zeros(lo) + all[lo..hi] + Zeros(8 - hi))[j];
    }
  }

  /** A word with the bits looked for set is zero exactly when none of its bytes has such a bit. */
  lemma WordWithout(data: seq<Byte>, i: nat, value: bool)
    requires i + 8 <= |data|
    ensures WordOf(data[i..i + 8]) < Pow(2, 64)
    ensures (if value then WordOf(data[i..i + 8]) else Inverted(WordOf(data[i..i + 8]))) == 0 <==>
            Absent(BytesBits(data), value, 8 * i, 8 * i + 64)
  {
    hide BitsOf, BytesBits, Pow, WordOf;
    var word, bits := WordOf(data[i..i + 8]), BytesBits(data);
    WordBits(data[i..i + 8]);
    BytesSlice(data, i, i + 8);
    AllOnes(word, 64);
    assert forall k :: 8 * i <= k < 8 * i + 64 ==> bits[k] == BitsOf(word, 64)[k - 8 * i];
    if Absent(bits, value, 8 * i, 8 * i + 64) {
      PowPositive(2, 64);
      var y := if value then 0 else Pow(2, 64) - 1;
      AllOnes(y, 64);
      forall k | 0 <= k < 64 ensures BitsOf(word, 64)[k] == BitsOf(y, 64)[k] {
        assert bits[8 * i + k] == BitsOf(word, 64)[k];
      }
      BitsInjective(word, y, 64);
    }
  }

  class BitmapView {
    const data: seq<Byte>
    const size: nat

    constructor (data: seq<Byte>, size: nat)
      requires size <= 8 * |data|
      ensures this.data == data && this.size == size
    {
      this.data := data;
      this.size := size;
    }

    ghost predicate Valid() {
      size <= 8 * |data|
    }

    ghost function Contents(): (bits: seq<bool>)
      requires Valid()
      ensures |bits| == size
    {
      BytesBits(data)[..size]
    }

    method Get(index: nat) returns (bit: bool)
      requires Valid() && index < size
      ensures bit == Contents()[index]
    {
      bit := 0 != And(data[index / 8], ShiftLeftWord(32, 1, index % 8));
      hide BitsOf, BytesBits, And;
      ShiftedOne(index % 8);
      AndBit(data[index / 8], index % 8);
      ByteBit(data, index);
      BitsSplit(data[index / 8], index % 8 + 1, 7 - index % 8);
      PowPositive(2, index % 8);
    }

    lemma ShiftedOne(k: nat)
      requires k < 8
      ensures ShiftLeftWord(32, 1, k) == Pow(2, k)
    {
      hide Pow;
      PowPositive(2, 32);
      PowPositive(2, k);
      PowMonotone(2, k, 31);
      PowStep(2, 31);
      PowPositive(2, 31);
      DivModUnique(1 * Pow(2, k), Pow(2, 32), 0, Pow(2, k));
    }

    /** What is known when the bits from lo to p have been looked at: where the run that reaches p, if any, starts. */
    ghost predicate State(lo: nat, minLength: nat, p: nat, free: nat, start: nat)
      requires Valid()
    {
      Scanned(Contents(), minLength, lo, p, free) && (free > 0 || minLength == 0 ==> start == p - free)
    }

    ghost predicate Answer(lo: nat, minLength: nat, maxLength: nat, start: nat, length: nat)
      requires Valid()
    {
      FirstFit(Contents(), minLength, lo, start) && IsLength(Contents(), minLength, maxLength, start, length)
    }

    /** The run before p is as long as it is going to get, or has reached a length that ends the search. */
    ghost predicate Final(minLength: nat, maxLength: nat, p: nat, free: nat)
      requires Valid()
    {
      p <= size &&
      if p > Whole(size) then free == minLength
      else free >= maxLength || p == Whole(size) || (p < size && Contents()[p])
    }

    lemma Enough(lo: nat, minLength: nat, maxLength: nat, p: nat, free: nat, start: nat)
      requires Valid() && State(lo, minLength, p, free, start) && minLength <= free && minLength <= maxLength
      requires Final(minLength, maxLength, p, free)
      ensures Answer(lo, minLength, maxLength, start, Min(free, maxLength))
    {
      ScanFound(Contents(), minLength, lo, p, free);
    }

    /** The next t bits, the first of those given, are unset. */
    lemma AdvanceUnset(lo: nat, minLength: nat, p: nat, free: nat, start: nat, next: seq<bool>, t: nat)
      requires Valid() && State(lo, minLength, p, free, start) && t <= |next| && p + |next| <= size
      requires next == Contents()[p..p + |next|] && forall i :: 0 <= i < t ==> !next[i]
      ensures State(lo, minLength, p + t, free + t, if free == 0 then p else start)
    {
      var bits := Contents();
      assert forall i :: p <= i < p + t ==> bits[i] == next[i - p];
      ScanUnset(bits, minLength, lo, p, free, t);
    }

    lemma AdvanceSet(lo: nat, minLength: nat, p: nat, free: nat, start: nat, next: seq<bool>, t: nat)
      requires Valid() && State(lo, minLength, p, free, start) && 1 <= t <= |next| && p + |next| <= size && free < minLength
      requires next == Contents()[p..p + |next|] && forall i :: 0 <= i < t ==> next[i]
      ensures State(lo, minLength, p + t, 0, start)
    {
      var bits := Contents();
      assert forall i :: p <= i < p + t ==> bits[i] == next[i - p];
      ScanSet(bits, minLength, lo, p, free, t);
    }

    /** The rest of a bucket that is neither full nor empty, from its bit number startBit on. */
    method ScanBucket(bucket0: nat, at: nat, startBit: nat, ghost lo: nat, minLength: nat, maxLength: nat, free0: nat, start0: nat)
      returns (found: bool, free: nat, start: nat)
      requires Valid() && at + 64 <= Whole(size) && startBit < 64 && minLength <= maxLength
      requires State(lo, minLength, at + startBit, free0, start0)
      requires 0 < bucket0 < Pow(2, 64) - 1 && BitsOf(bucket0, 64) == Contents()[at..at + 64]
      ensures found ==> Answer(lo, minLength, maxLength, start, Min(free, maxLength))
      ensures !found ==> State(lo, minLength, at + 64, free, start)
    {
      hide Pow, BitsOf, State, Answer, ShiftRightWord, Whole;
      ShiftedBits(bucket0, startBit, 64 - startBit);
      ShiftedByNone(bucket0);
      SliceOfSlice(Contents(), at, at + 64, startBit);
      var bucket: nat, viewedBits: nat := ShiftRightWord(bucket0, startBit), startBit;
      free, start := free0, start0;
      while viewedBits < 64
        invariant 0 <= viewedBits <= 64 && State(lo, minLength, at + viewedBits, free, start)
        invariant bucket < Pow(2, 64 - viewedBits) && (viewedBits == 0 ==> bucket == bucket0)
        invariant BitsOf(bucket, 64 - viewedBits) == Contents()[at + viewedBits..at + 64]
      {
        if bucket == 0 {
          BitsOfZero(64 - viewedBits);
          AdvanceUnset(lo, minLength, at + viewedBits, free, start, BitsOf(bucket, 64 - viewedBits), 64 - viewedBits);
          if free == 0 {
            start := at + viewedBits;
          }
          free := free + (64 - viewedBits);
          viewedBits := 64;
          NoBits();
        } else {
          bucket, viewedBits, free, start := SkipZeroes(bucket, at, viewedBits, lo, minLength, free, start);
          if free >= minLength {
            Enough(lo, minLength, maxLength, at + viewedBits, free, start);
            return true, free, start;
          }
          bucket, viewedBits := SkipOnes(bucket, at, viewedBits, lo, minLength, free, start);
          free := 0;
        }
      }
      found := false;
    }

    lemma ShiftedByNone(x: nat)
      ensures ShiftRightWord(x, 0) == x
    {
      assert Pow(2, 0) == 1;
    }

    /** The zeros at the bottom of what is left of the bucket lengthen the run, up to a set bit. */
    method SkipZeroes(bucket0: nat, at: nat, viewed0: nat, ghost lo: nat, minLength: nat, free0: nat, start0: nat)
      returns (bucket: nat, viewedBits: nat, free: nat, start: nat)
      requires Valid() && at + 64 <= size && viewed0 < 64 && State(lo, minLength, at + viewed0, free0, start0)
      requires 0 < bucket0 < Pow(2, 64 - viewed0) && (viewed0 == 0 ==> bucket0 < Pow(2, 64) - 1)
      requires BitsOf(bucket0, 64 - viewed0) == Contents()[at + viewed0..at + 64]
      ensures viewed0 <= viewedBits < 64 && State(lo, minLength, at + viewedBits, free, start) && Contents()[at + viewedBits]
      ensures bucket < Pow(2, 64 - viewedBits) && bucket % 2 == 1 && (viewedBits == 0 ==> bucket < Pow(2, 64) - 1)
      ensures BitsOf(bucket, 64 - viewedBits) == Contents()[at + viewedBits..at + 64]
    {
      hide Pow, BitsOf, State, CountTrailingZeroes, ShiftRightWord, BytesBits;
      var m := 64 - viewed0;
      TrailingZeroes(bucket0, m);
      var zeroes := CountTrailingZeroes(bucket0);
      ShiftedBits(bucket0, zeroes, m - zeroes);
      LowestBit(bucket0, m);
      bucket := ShiftRightWord(bucket0, zeroes);
      AdvanceUnset(lo, minLength, at + viewed0, free0, start0, BitsOf(bucket0, m), zeroes);
      start := if free0 == 0 then at + viewed0 else start0;
      free := free0 + zeroes;
      viewedBits := viewed0 + zeroes;
      SliceOfSlice(Contents(), at + viewed0, at + 64, zeroes);
      assert Contents()[at + viewedBits] == BitsOf(bucket0, m)[zeroes];
    }

    /** The ones at the bottom of what is left of the bucket end the run, which was too short. */
    method SkipOnes(bucket0: nat, at: nat, viewed0: nat, ghost lo: nat, minLength: nat, free: nat, start: nat)
      returns (bucket: nat, viewedBits: nat)
      requires Valid() && at + 64 <= size && viewed0 < 64
      requires State(lo, minLength, at + viewed0, free, start) && free < minLength
      requires bucket0 < Pow(2, 64 - viewed0) && bucket0 % 2 == 1 && (viewed0 == 0 ==> bucket0 < Pow(2, 64) - 1)
      requires BitsOf(bucket0, 64 - viewed0) == Contents()[at + viewed0..at + 64]
      ensures viewed0 < viewedBits <= 64 && State(lo, minLength, at + viewedBits, 0, start)
      ensures bucket < Pow(2, 64 - viewedBits)
      ensures BitsOf(bucket, 64 - viewedBits) == Contents()[at + viewedBits..at + 64]
    {
      hide Pow, BitsOf, State, CountTrailingZeroes, ShiftRightWord, BytesBits, Inverted;
      var m := 64 - viewed0;
      TrailingOnes(bucket0, m);
      var ones := CountTrailingZeroes(Inverted(bucket0));
      ShiftedBits(bucket0, ones, m - ones);
      AdvanceSet(lo, minLength, at + viewed0, free, start, BitsOf(bucket0, m), ones);
      bucket := ShiftRightWord(bucket0, ones);
      viewedBits := viewed0 + ones;
      SliceOfSlice(Contents(), at + viewed0, at + 64, ones);
    }

    lemma SliceOfSlice(bits: seq<bool>, i: nat, j: nat, k: nat)
      requires i + k <= j <= |bits|
      ensures bits[i..j][k..] == bits[i + k..j]
    {}

    lemma NoBits()
      ensures 0 < Pow(2, 0) && BitsOf(0, 0) == []
    {}

    /** Shifted by its trailing zeros a word is odd. */
    lemma LowestBit(x: nat, m: nat)
      requires 0 < x < Pow(2, m)
      ensures ShiftRightWord(x, CountTrailingZeroes(x)) % 2 == 1
      ensures CountTrailingZeroes(x) == 0 ==> ShiftRightWord(x, 0) == x
    {
      Odd(x);
    }

    lemma {:induction false} Odd(x: nat)
      requires 0 < x
      ensures ShiftRightWord(x, CountTrailingZeroes(x)) % 2 == 1 && ShiftRightWord(x, 0) == x
    {
      var t := CountTrailingZeroes(x);
      if x % 2 == 0 {
        Odd(x / 2);
        PowPositive(2, t - 1);
        DivTwice(x, Pow(2, t - 1));
      }
    }

    /**
     The first run of at least so many unset bits, and its length as far as it is known when the search ends. The search
     starts where it is asked to, except that it goes back to the start of an unset bucket or of the bits behind the last
     bucket. No bits at all are found anywhere, also behind the end.
     */
    method FindNextRangeOfUnsetBits(from: nat, minLength: nat, maxLength: nat) returns (start: nat, length: Option<nat>)
      requires Valid()
      ensures length.Some? && (minLength > 0 || from < Whole(size)) ==>
                Answer(SearchStart(Contents(), from), minLength, maxLength, start, length.value)
      ensures minLength == 0 && from >= Whole(size) ==> start == from && length == Some(0)
      ensures length.None? && minLength <= maxLength ==> NoFit(Contents(), minLength, SearchStart(Contents(), from))
      ensures minLength > maxLength ==> length.None?
    {
      hide Pow, BitsOf, State, Answer, WordOf, BytesBits, Final;
      start := from;
      if minLength > maxLength {
        return start, None;
      }
      ghost var lo := SearchStart(Contents(), from);
      var startBucketIndex, startBucketBit, free := from / 64, from % 64, 0;
      Begin(lo, minLength);
      var bucketIndex := startBucketIndex;
      while bucketIndex < size / 64
        invariant startBucketIndex <= bucketIndex && startBucketBit < 64 && 0 <= free
        invariant bucketIndex == startBucketIndex ==> startBucketBit == from % 64 && free == 0 && start == from
        invariant bucketIndex > startBucketIndex ==>
                    bucketIndex <= size / 64 && startBucketBit == 0 && State(lo, minLength, 64 * bucketIndex, free, start)
      {
        BeforeBucket(bucketIndex, startBucketIndex, from, lo, minLength, free, start);
        var done;
        done, free, start := ScanNext(bucketIndex, startBucketBit, lo, minLength, maxLength, free, start);
        if done {
          return start, Some(Min(free, maxLength));
        }
        startBucketBit := 0;
        bucketIndex := bucketIndex + 1;
      }
      BehindBuckets(bucketIndex, startBucketIndex, from, lo, minLength, free, start);
      start, length := ScanTail(lo, minLength, maxLength, free, start);
    }

    lemma Begin(lo: nat, minLength: nat)
      requires Valid() && lo <= size
      ensures State(lo, minLength, lo, 0, lo)
    {}

    /** What is known before a bucket, which an unset one is from its first bit on. */
    ghost predicate Before(bucketIndex: nat, startBit: nat, lo: nat, minLength: nat, free: nat, start: nat)
      requires Valid()
    {
      var at := 64 * bucketIndex;
      if Unset(Contents(), at, 64) then State(lo, minLength, at, free, if free == 0 then at else start)
      else State(lo, minLength, at + startBit, free, start)
    }

    lemma BeforeBucket(bucketIndex: nat, startBucketIndex: nat, from: nat, lo: nat, minLength: nat, free: nat, start: nat)
      requires Valid() && startBucketIndex == from / 64 <= bucketIndex < size / 64 && lo == SearchStart(Contents(), from)
      requires bucketIndex == startBucketIndex ==> free == 0 && start == from
      requires bucketIndex > startBucketIndex ==> State(lo, minLength, 64 * bucketIndex, free, start)
      ensures Before(bucketIndex, if bucketIndex == startBucketIndex then from % 64 else 0, lo, minLength, free, start)
    {
      Begin(lo, minLength);
    }

    lemma BehindBuckets(bucketIndex: nat, startBucketIndex: nat, from: nat, lo: nat, minLength: nat, free: nat, start: nat)
      requires Valid() && startBucketIndex == from / 64 <= bucketIndex && bucketIndex >= size / 64
      requires lo == SearchStart(Contents(), from)
      requires bucketIndex == startBucketIndex ==> free == 0
      requires bucketIndex > startBucketIndex ==> bucketIndex <= size / 64 && State(lo, minLength, 64 * bucketIndex, free, start)
      ensures State(lo, minLength, Whole(size), free, if free == 0 then Whole(size) else start)
      ensures minLength == 0 && free == 0 && from < Whole(size) ==> start == Whole(size)
    {
      Begin(lo, minLength);
    }

    /** One bucket. */
    method ScanNext(bucketIndex: nat, startBit: nat, ghost lo: nat, minLength: nat, maxLength: nat, free0: nat, start0: nat)
      returns (done: bool, free: nat, start: nat)
      requires Valid() && bucketIndex < size / 64 && startBit < 64 && minLength <= maxLength
      requires Before(bucketIndex, startBit, lo, minLength, free0, start0)
      ensures done ==> Answer(lo, minLength, maxLength, start, Min(free, maxLength))
      ensures !done ==> State(lo, minLength, 64 * (bucketIndex + 1), free, start)
    {
      hide Pow, BitsOf, State, Answer, WordOf, BytesBits;
      free, start := free0, start0;
      var bucket := WordOf(data[8 * bucketIndex..8 * bucketIndex + 8]);
      var at := bucketIndex * 64;
      WordAt(data, 8 * bucketIndex, at);
      ghost var next := Contents()[at..at + 64];
      ContentsSlice(at, at + 64);
      assert next == BitsOf(bucket, 64);
      AllOnes(bucket, 64);
      if bucket == Pow(2, 64) - 1 {
        assert Contents()[at] == next[0];
        assert Contents()[at + startBit] == next[startBit];
        if free >= minLength {
          Enough(lo, minLength, maxLength, at + startBit, free, start);
          return true, free, start;
        }
        SliceOfSlice(Contents(), at, at + 64, startBit);
        AdvanceSet(lo, minLength, at + startBit, free, start, next[startBit..], 64 - startBit);
        return false, 0, start;
      } else if bucket == 0 {
        assert forall i :: at <= i < at + 64 ==> Contents()[i] == next[i - at];
        if free == 0 {
          start := at;
        }
        AdvanceUnset(lo, minLength, at, free, start, next, 64);
        free := free + 64;
        if free >= maxLength {
          Enough(lo, minLength, maxLength, at + 64, free, start);
          return true, free, start;
        }
        return false, free, start;
      } else {
        MixedBucket(bucket, at);
        done, free, start := ScanBucket(bucket, at, startBit, lo, minLength, maxLength, free, start);
      }
    }

    /** A word that is not zero has a set bit. */
    lemma MixedBucket(bucket: nat, at: nat)
      requires Valid() && at + 64 <= size && 0 < bucket < Pow(2, 64) && BitsOf(bucket, 64) == Contents()[at..at + 64]
      ensures !Unset(Contents(), at, 64)
    {
      hide Pow, BitsOf, BytesBits;
      TrailingZeroes(bucket, 64);
      assert Contents()[at + CountTrailingZeroes(bucket)] == BitsOf(bucket, 64)[CountTrailingZeroes(bucket)];
    }

    /** One bit of the tail. */
    method ScanBit(ghost lo: nat, minLength: nat, p: nat, free0: nat, start0: nat) returns (free: nat, start: nat)
      requires Valid() && State(lo, minLength, p, free0, start0) && free0 < minLength && p < size
      ensures State(lo, minLength, p + 1, free, start) && free <= minLength
    {
      hide BytesBits, State;
      free, start := free0, start0;
      var bit := Get(p);
      ghost var next := Contents()[p..p + 1];
      if !bit {
        AdvanceUnset(lo, minLength, p, free, start, next, 1);
        if free == 0 {
          start := p;
        }
        free := free + 1;
      } else {
        AdvanceSet(lo, minLength, p, free, start, next, 1);
        free := 0;
      }
    }

    /** The bits behind the last whole bucket. */
    method ScanTail(ghost lo: nat, minLength: nat, maxLength: nat, free0: nat, start0: nat)
      returns (start: nat, length: Option<nat>)
      requires Valid() && minLength <= maxLength
      requires State(lo, minLength, Whole(size), free0, if free0 == 0 then Whole(size) else start0)
      ensures length.Some? && (minLength > 0 || free0 > 0 || start0 == Whole(size)) ==>
                Answer(lo, minLength, maxLength, start, length.value)
      ensures minLength == 0 && free0 == 0 ==> start == start0 && length == Some(0)
      ensures length.None? ==> NoFit(Contents(), minLength, lo)
    {
      hide BytesBits, Answer;
      var free: nat := free0;
      start := start0;
      if free < minLength {
        var firstTrailingBit, trailingBits := (size / 64) * 64, size % 64;
        assert firstTrailingBit + trailingBits == size == |Contents()|;
        for i := 0 to trailingBits
          invariant State(lo, minLength, firstTrailingBit + i, free, start) && free < minLength
        {
          free, start := ScanBit(lo, minLength, firstTrailingBit + i, free, start);
          if free >= minLength {
            Enough(lo, minLength, maxLength, firstTrailingBit + i + 1, free, start);
            return start, Some(Min(free, maxLength));
          }
        }
        ScanFailed(Contents(), minLength, lo, free);
        return start, None;
      }
      if minLength > 0 || free > 0 || start == Whole(size) {
        Enough(lo, minLength, maxLength, Whole(size), free, start);
      }
      return start, Some(Min(free, maxLength));
    }

    /** The least place with so many unset bits in a row, or nothing when there is none. */
    method FindFirstFit(minimumLength: nat) returns (r: Option<nat>)
      requires Valid()
      ensures match r
              case Some(s) => FirstFit(Contents(), minimumLength, 0, s)
              case None => NoFit(Contents(), minimumLength, 0)
    {
      var start, length := FindNextRangeOfUnsetBits(0, minimumLength, minimumLength);
      if length.Some? {
        return Some(start);
      }
      return None;
    }

    /** Looks for longer and longer runs, each from the end of the last one on. */
    method FindLongestRangeOfUnsetBits(maxLength: nat) returns (start: Option<nat>, foundRangeSize: nat)
      requires Valid()
      ensures foundRangeSize <= maxLength && (start.Some? <==> foundRangeSize > 0)
      ensures start.Some? ==> Unset(Contents(), start.value, foundRangeSize)
      ensures foundRangeSize == Min(maxLength, LongestIn(Contents(), 0, size)) <==> FindsLongest(Contents(), maxLength)
    {
      hide Contents, Whole, NoFit, FirstFit, IsLength, AtStage, FindsLongest;
      var from, maxRegionStart, maxRegionSize := 0, 0, 0;
      ghost var bits, stage := Contents(), if Whole(size) == 0 then Behind(0) else Among;
      StageStarts(bits, maxLength);
      while true
        invariant 0 <= from && 0 <= maxRegionStart && 0 <= maxRegionSize <= Min(maxLength, size)
        invariant maxRegionSize > 0 ==> Unset(bits, maxRegionStart, maxRegionSize)
        invariant AtStage(bits, maxLength, stage, from, maxRegionSize)
        decreases size - maxRegionSize
      {
        var found, length := FindNextRangeOfUnsetBits(from, maxRegionSize + 1, maxLength);
        if length.None? {
          StageEnds(bits, maxLength, stage, from, maxRegionSize);
          break;
        }
        stage := NextStage(bits, maxLength, stage, from, maxRegionSize, found, length.value);
        maxRegionStart, maxRegionSize := found, length.value;
        from := found + maxRegionSize;
      }
      foundRangeSize := maxRegionSize;
      start := if maxRegionSize != 0 then Some(maxRegionStart) else None;
    }

    // ----- Counting bits -----

    /** How many bits of a stretch have this value; the address of the first byte decides which bytes are counted in words. */
    method CountInRange(start: nat, len: nat, value: bool, address: nat) returns (count: nat)
      requires Valid() && start < size && start + len <= size
      ensures count == CountOf(Contents()[start..start + len], value)
    {
      hide BytesBits, BitsOf, CountOf, Popcount, And, IsMask, SetIn;
      if len == 0 {
        NothingCounted(start, value);
        return 0;
      }
      ghost var bits := BytesBits(data)[start..start + len];
      ContentsSlice(start, start + len);
      var first, last := start / 8, (start + len) / 8;
      var byte := And(data[first], BITMASK_FIRST_BYTE[start % 8]);
      if first == last {
        CountWithin(start, len);
        byte := And(byte, BITMASK_LAST_BYTE[(start + len) % 8]);
        count := Popcount(byte);
      } else {
        CountThreeParts(data, start, first + 1, last, start + len);
        count := Popcount(byte);
        FirstByteCount(start);
        LastByteCount(start + len);
        // The byte behind the end is not looked at.
        if last < (size + 7) / 8 {
          byte := And(data[last], BITMASK_LAST_BYTE[(start + len) % 8]);
          count := count + Popcount(byte);
        }
        first := first + 1;
        SetInNothing(data, first);
        if first < last {
          var middle := CountBytes(first, last, address);
          count := count + middle;
        }
      }
      assert count == CountOf(bits, true);
      CountBoth(bits);
      if !value {
        count := len - count;
      }
    }

    lemma ContentsSlice(i: nat, j: nat)
      requires Valid() && i <= j <= size
      ensures Contents()[i..j] == BytesBits(data)[i..j]
    {}

    lemma NothingCounted(start: nat, value: bool)
      requires Valid() && start <= size
      ensures CountOf(Contents()[start..start], value) == 0
    {}

    lemma CountWithin(start: nat, len: nat)
      requires Valid() && start < size && start + len <= size && start / 8 == (start + len) / 8
      ensures Popcount(And(And(data[start / 8], BITMASK_FIRST_BYTE[start % 8]), BITMASK_LAST_BYTE[(start + len) % 8]))
           == CountOf(BytesBits(data)[start..start + len], true)
    {
      hide BytesBits, BitsOf, CountOf, Popcount, And, IsMask;
      FirstMask(start % 8);
      LastMask((start + len) % 8);
      MaskedTwice(data[start / 8], BITMASK_FIRST_BYTE[start % 8], start % 8,
                  BITMASK_LAST_BYTE[(start + len) % 8], (start + len) % 8);
      ByteSlice(data, start / 8, start % 8, (start + len) % 8);
    }

    lemma FirstByteCount(start: nat)
      requires Valid() && start < size
      ensures Popcount(And(data[start / 8], BITMASK_FIRST_BYTE[start % 8]))
           == CountOf(BytesBits(data)[start..8 * (start / 8) + 8], true)
    {
      hide BytesBits, BitsOf, CountOf, Popcount, And, IsMask;
      FirstMask(start % 8);
      MaskedCount(data[start / 8], BITMASK_FIRST_BYTE[start % 8], start % 8, 8);
      ByteSlice(data, start / 8, start % 8, 8);
    }

    lemma LastByteCount(end: nat)
      requires Valid() && end <= size
      ensures end / 8 < |data| ==>
                Popcount(And(data[end / 8], BITMASK_LAST_BYTE[end % 8])) == CountOf(BytesBits(data)[8 * (end / 8)..end], true)
      ensures end / 8 >= (size + 7) / 8 ==> CountOf(BytesBits(data)[8 * (end / 8)..end], true) == 0
    {
      hide BytesBits, BitsOf, Popcount, And, IsMask;
      if end / 8 < |data| {
        LastMask(end % 8);
        MaskedCount(data[end / 8], BITMASK_LAST_BYTE[end % 8], 0, end % 8);
        ByteSlice(data, end / 8, 0, end % 8);
      }
    }

    /** Whole bytes: one by one up to an aligned address, then in words, and one by one again. */
    method CountBytes(first0: nat, last: nat, address: nat) returns (count: nat)
      requires first0 < last <= |data|
      ensures count == SetIn(data, first0, last)
    {
      hide BytesBits, BitsOf, CountOf, Popcount, SetIn, WordOf;
      var large := (address + first0 + 7) / 8 * 8 - address;
      if large > last {
        large := last;
      }
      var first := first0;
      count := 0;
      SetInNothing(data, first0);
      while first < large
        invariant first0 <= first <= large && count == SetIn(data, first0, first)
      {
        SetInByte(data, first);
        SetInMore(data, first0, first, first + 1);
        count := count + Popcount(data[first]);
        first := first + 1;
      }
      var lastLarge := (address + last) / 8 * 8 - address;
      while large < lastLarge
        invariant first0 <= large <= last && count == SetIn(data, first0, large)
        invariant large < lastLarge ==> (address + large) % 8 == 0
      {
        WordCount(data[large..large + 8]);
        SetInWord(data, large);
        SetInMore(data, first0, large, large + 8);
        count := count + Popcount(WordOf(data[large..large + 8]));
        large := large + 8;
      }
      first := large;
      while first < last
        invariant first0 <= first <= last && count == SetIn(data, first0, first)
      {
        SetInByte(data, first);
        SetInMore(data, first0, first, first + 1);
        count := count + Popcount(data[first]);
        first := first + 1;
      }
    }

    lemma SetInWord(data: seq<Byte>, i: nat)
      requires i + 8 <= |data|
      ensures SetIn(data, i, i + 8) == CountOf(BytesBits(data[i..i + 8]), true)
    {}

    // ----- Finding a bit -----

    /** The first bit with this value in a byte, among those of the mask. */
    method FindInByte(i: nat, mask: nat, value: bool, ghost lo: nat, ghost hi: nat) returns (r: Option<nat>)
      requires i < |data| && IsMask(mask, lo, hi) && lo <= hi <= 8
      ensures FirstIn(BytesBits(data), value, 8 * i + lo, 8 * i + hi, r)
    {
      hide BitsOf, BytesBits, And, Pow, IsMask;
      var bitsLookedFor := if value then data[i] else 255 - data[i];
      var matchingBits := And(bitsLookedFor, mask);
      LowestMasked(bitsLookedFor, mask, lo, hi);
      TwoToTheEighth();
      InvertedBits(data[i], 8);
      assert Pow(2, 8) - 1 - data[i] == 255 - data[i];
      forall j | 0 <= j < 8 ensures BitsOf(bitsLookedFor, 8)[j] == (BitsOf(data[i], 8)[j] == value) {
        assert !value ==> BitsOf(255 - data[i], 8)[j] == BitsOf(Pow(2, 8) - 1 - data[i], 8)[j];
      }
      if matchingBits != 0 {
        var t := CountTrailingZeroes(matchingBits);
        ByteBitAt(data, i, t);
        AbsentInByte(i, value, lo, t);
        return Some(8 * i + t);
      }
      AbsentInByte(i, value, lo, hi);
      return None;
    }

    lemma AbsentInByte(i: nat, value: bool, lo: nat, hi: nat)
      requires i < |data| && lo <= hi <= 8 && forall j :: lo <= j < hi ==> BitsOf(data[i], 8)[j] != value
      ensures Absent(BytesBits(data), value, 8 * i + lo, 8 * i + hi)
    {
      hide BitsOf, BytesBits;
      forall k | 8 * i + lo <= k < 8 * i + hi ensures BytesBits(data)[k] != value {
        ByteBitAt(data, i, k - 8 * i);
      }
    }

    /** Goes through the bytes of a stretch, in words where the address allows; its ends may lie within bytes. */
    method FindInRange(start: nat, end: nat, value: bool, address: nat) returns (r: Option<nat>)
      requires Valid() && start <= end <= size
      ensures FirstIn(BytesBits(data), value, start, end, r)
    {
      hide BytesBits, And, IsMask;
      if start == end {
        return None;
      }
      var firstByte, lastByte := start / 8, (end - 1) / 8;
      if firstByte == lastByte {
        r := FindWithinByte(start, end, value);
        return;
      }
      if start % 8 != 0 {
        FirstMask(start % 8);
        r := FindInByte(firstByte, BITMASK_FIRST_BYTE[start % 8], value, start % 8, 8);
        if r.Some? {
          FirstEarlier(BytesBits(data), value, start, 8 * (firstByte + 1), end, r);
          return;
        }
        firstByte := firstByte + 1;
      }
      AbsentBefore(start, firstByte, value);
      r := FindInBytes(firstByte, end / 8, value, address);
      AbsentThen(BytesBits(data), value, start, 8 * firstByte, 8 * (end / 8), r);
      if r.Some? {
        FirstEarlier(BytesBits(data), value, start, 8 * (end / 8), end, r);
        return;
      }
      if end % 8 != 0 {
        r := FindAtEnd(start, end, value);
        return;
      }
      return None;
    }

    /** The start of the last byte. */
    method FindAtEnd(ghost start: nat, end: nat, value: bool) returns (r: Option<nat>)
      requires Valid() && start <= 8 * (end / 8) <= end <= size && end % 8 != 0
      requires Absent(BytesBits(data), value, start, 8 * (end / 8))
      ensures FirstIn(BytesBits(data), value, start, end, r)
    {
      hide BytesBits, IsMask, Absent, FirstIn;
      LastMask(end % 8);
      r := FindInByte(end / 8, BITMASK_LAST_BYTE[end % 8], value, 0, end % 8);
      AbsentThen(BytesBits(data), value, start, 8 * (end / 8), end, r);
    }

    lemma AbsentBefore(start: nat, firstByte: nat, value: bool)
      requires start <= 8 * |data|
      requires 8 * firstByte == start || Absent(BytesBits(data), value, start, 8 * firstByte)
      ensures Absent(BytesBits(data), value, start, 8 * firstByte)
    {}

    /** A stretch within one byte. */
    method FindWithinByte(start: nat, end: nat, value: bool) returns (r: Option<nat>)
      requires Valid() && start < end <= size && start / 8 == (end - 1) / 8
      ensures FirstIn(BytesBits(data), value, start, end, r)
    {
      hide BytesBits, And, IsMask, FirstIn;
      FirstMask(start % 8);
      var mask := BITMASK_FIRST_BYTE[start % 8];
      if end % 8 != 0 {
        LastMask(end % 8);
        BothMasks(mask, start % 8, BITMASK_LAST_BYTE[end % 8], end % 8);
        mask := And(mask, BITMASK_LAST_BYTE[end % 8]);
      }
      ghost var hi := if end % 8 != 0 then end % 8 else 8;
      assert 8 * (start / 8) + start % 8 == start && 8 * (start / 8) + hi == end;
      r := FindInByte(start / 8, mask, value, start % 8, hi);
    }

    lemma AbsentThen(bits: seq<bool>, value: bool, lo: nat, mid: nat, hi: nat, r: Option<nat>)
      requires Absent(bits, value, lo, mid) && FirstIn(bits, value, mid, hi, r)
      ensures FirstIn(bits, value, lo, hi, r)
    {}

    lemma FirstEarlier(bits: seq<bool>, value: bool, lo: nat, mid: nat, hi: nat, r: Option<nat>)
      requires FirstIn(bits, value, lo, mid, r) && r.Some? && mid <= hi <= |bits|
      ensures FirstIn(bits, value, lo, hi, r)
    {}

    /** Whole bytes: one by one up to an aligned address, then in words, and one by one again. */
    method FindInBytes(first0: nat, end: nat, value: bool, address: nat) returns (r: Option<nat>)
      requires first0 <= end <= |data|
      ensures FirstIn(BytesBits(data), value, 8 * first0, 8 * end, r)
    {
      hide BytesBits, WordOf, Inverted, Absent, IsMask, FirstIn;
      var first := first0;
      AbsentNowhere(8 * first0, value);
      while first < end && (address + first) % 8 != 0
        invariant first0 <= first <= end && Absent(BytesBits(data), value, 8 * first0, 8 * first)
      {
        r := FindInWholeByte(first0, first, end, value);
        if r.Some? {
          return;
        }
        first := first + 1;
      }
      while end - first >= 8
        invariant first0 <= first <= end && Absent(BytesBits(data), value, 8 * first0, 8 * first)
      {
        WordWithout(data, first, value);
        var word := WordOf(data[first..first + 8]);
        var matchingBits := if value then word else Inverted(word);
        if matchingBits != 0 {
          r := FindInWord(first0, first, end, value);
          return;
        }
        AbsentMore(8 * first0, 8 * first, 8 * first + 64, value);
        first := first + 8;
      }
      while first < end
        invariant first0 <= first <= end && Absent(BytesBits(data), value, 8 * first0, 8 * first)
      {
        r := FindInWholeByte(first0, first, end, value);
        if r.Some? {
          return;
        }
        first := first + 1;
      }
      AbsentIsNone(8 * first0, 8 * end, value);
      return None;
    }

    lemma AbsentNowhere(i: nat, value: bool)
      requires i <= 8 * |data|
      ensures Absent(BytesBits(data), value, i, i)
    {}

    lemma AbsentMore(i: nat, j: nat, k: nat, value: bool)
      requires Absent(BytesBits(data), value, i, j) && Absent(BytesBits(data), value, j, k)
      ensures Absent(BytesBits(data), value, i, k)
    {}

    lemma AbsentIsNone(i: nat, j: nat, value: bool)
      requires Absent(BytesBits(data), value, i, j)
      ensures FirstIn(BytesBits(data), value, i, j, None)
    {}

    method FindInWholeByte(ghost first0: nat, first: nat, ghost end: nat, value: bool) returns (r: Option<nat>)
      requires first0 <= first < end <= |data| && Absent(BytesBits(data), value, 8 * first0, 8 * first)
      ensures r.Some? ==> FirstIn(BytesBits(data), value, 8 * first0, 8 * end, r)
      ensures r.None? ==> Absent(BytesBits(data), value, 8 * first0, 8 * (first + 1))
    {
      hide BytesBits, BitsOf;
      AllBitsMask();
      r := FindInByte(first, 0xff, value, 0, 8);
    }

    lemma AllBitsMask()
      ensures IsMask(0xff, 0, 8)
    {
      FirstMask(0);
    }

    /** Some byte of the word has the bit; the end of the loop is never reached. */
    method FindInWord(ghost first0: nat, first: nat, ghost end: nat, value: bool) returns (r: Option<nat>)
      requires first0 <= first && first + 8 <= end <= |data| && Absent(BytesBits(data), value, 8 * first0, 8 * first)
      requires !Absent(BytesBits(data), value, 8 * first, 8 * first + 64)
      ensures r.Some? && FirstIn(BytesBits(data), value, 8 * first0, 8 * end, r)
    {
      hide BytesBits;
      for i := 0 to 8
        invariant Absent(BytesBits(data), value, 8 * first0, 8 * (first + i))
      {
        r := FindInWholeByte(first0, first + i, end, value);
        if r.Some? {
          return;
        }
      }
      assert false;
    }

    /**
     Some bit with this value: the first one from the start of the hint's word on, or else the first one before
     it; nothing exactly when no bit has the value.
     */
    method FindOneAnywhere(hint: nat, value: bool, address: nat) returns (r: Option<nat>)
      requires Valid() && hint < size
      ensures var from := hint / 64 * 64;
              FirstIn(Contents(), value, from, size, r) ||
              (Absent(Contents(), value, from, size) && FirstIn(Contents(), value, 0, from, r))
    {
      hide BytesBits;
      var searchStart := hint / 64 * 64;
      assert forall i :: 0 <= i < size ==> Contents()[i] == BytesBits(data)[i];
      r := FindInRange(searchStart, size, value, address);
      if r.Some? {
        return;
      }
      r := FindInRange(0, searchStart, value, address);
    }

    /** The first bit with this value. */
    method FindFirst(value: bool, address: nat) returns (r: Option<nat>)
      requires Valid()
      ensures FirstIn(Contents(), value, 0, size, r)
    {
      if size == 0 {
        return None;
      }
      r := FindOneAnywhere(0, value, address);
    }
  }
}
