/**
 Sorting in place: the dual-pivot quick sort with its insertion sort for small ranges, and the single-pivot
 quick sort, for any strict weak order.
 */
module QuickSort {
  import opened Powers
  import opened SortedRanges

  const INSERTION_SORT_CUTOFF := 7

  /** Exchanges two elements of a range that has been rearranged from what it was at first. */
  method Swap<T>(a: array<T>, i: int, j: int, ghost lo: int, ghost hi: int, ghost first: seq<T>)
    requires 0 <= lo <= i < hi <= a.Length && lo <= j < hi && Permuted(first, a[..], lo, hi)
    modifies a
    ensures a[..] == old(a[..])[i := old(a[j])][j := old(a[i])]
    ensures Permuted(first, a[..], lo, hi)
  {
    hide Permuted;
    ghost var s := a[..];
    a[i], a[j] := a[j], a[i];
    SwapPermutes(s, i, j, lo, hi);
    assert a[..] == s[i := s[j]][j := s[i]];
    PermutedTwice(first, s, a[..], lo, hi);
  }

  lemma BelowBoth<T(!new)>(less: (T, T) -> bool, x: T, left: T, right: T)
    requires StrictWeak(less) && less(x, left) && !less(right, left)
    ensures less(x, right)
  {}

  // ----- Insertion sort -----

  /** In order up to i, apart from the element at j, which may be too far back. */
  ghost predicate Inserting<T(!new)>(s: seq<T>, less: (T, T) -> bool, lo: int, i: int, j: int) {
    0 <= lo <= j <= i < |s| && forall p, q :: lo <= p < q <= i && q != j ==> !less(s[q], s[p])
  }

  lemma InsertedInPlace<T(!new)>(s: seq<T>, less: (T, T) -> bool, lo: int, i: int, j: int)
    requires StrictWeak(less) && Inserting(s, less, lo, i, j) && (j > lo ==> !less(s[j], s[j - 1]))
    ensures Sorted(s, less, lo, i + 1)
  {
    forall p, q | lo <= p < q < i + 1 ensures !less(s[q], s[p]) {
      if q == j && p < j - 1 {
        assert !less(s[j - 1], s[p]);
      }
    }
  }

  lemma MovedDown<T(!new)>(s: seq<T>, less: (T, T) -> bool, lo: int, i: int, j: int)
    requires StrictWeak(less) && Inserting(s, less, lo, i, j) && j > lo && less(s[j], s[j - 1])
    ensures Inserting(s[j := s[j - 1]][j - 1 := s[j]], less, lo, i, j - 1)
  {
    var s' := s[j := s[j - 1]][j - 1 := s[j]];
    forall p, q | lo <= p < q <= i && q != j - 1 ensures !less(s'[q], s'[p]) {
      if q == j && p < j - 1 {
        assert !less(s[j - 1], s[p]);
      }
    }
  }

  /** Sorts the range from start to end, both included. */
  method InsertionSort<T(!new)>(a: array<T>, start: int, end: int, less: (T, T) -> bool)
    requires StrictWeak(less) && 0 <= start <= end + 1 <= a.Length
    modifies a
    ensures Permuted(old(a[..]), a[..], start, end + 1) && Sorted(a[..], less, start, end + 1)
  {
    hide Permuted, StrictWeak;
    ghost var s0 := a[..];
    PermutedSame(s0, start, end + 1);
    var i := start + 1;
    while i <= end
      invariant start + 1 <= i && (i <= end + 1 || i == start + 1)
      invariant Permuted(s0, a[..], start, end + 1)
      invariant i <= end + 1 ==> Sorted(a[..], less, start, i)
    {
      var j := i;
      assert Inserting(a[..], less, start, i, i);
      while j > start && less(a[j], a[j - 1])
        invariant Permuted(s0, a[..], start, end + 1) && Inserting(a[..], less, start, i, j)
        decreases j
      {
        MovedDown(a[..], less, start, i, j);
        Swap(a, j, j - 1, start, end + 1, s0);
        j := j - 1;
      }
      InsertedInPlace(a[..], less, start, i, j);
      i := i + 1;
    }
  }

  // ----- The partition around two pivots -----

  /** Puts two pivots to the ends of the range, not in the wrong order. */
  method ChoosePivots<T(!new)>(a: array<T>, start: int, end: int, less: (T, T) -> bool)
    requires StrictWeak(less) && 0 <= start < end < a.Length
    modifies a
    ensures Permuted(old(a[..]), a[..], start, end + 1) && !less(a[end], a[start])
  {
    hide Permuted, StrictWeak;
    ghost var s0 := a[..];
    PermutedSame(s0, start, end + 1);
    var size := end - start + 1;
    if size > 3 {
      var third := size / 3;
      if less(a[start + third], a[end - third]) {
        Asymmetric(less, a[start + third], a[end - third]);
        Swap(a, start + third, start, start, end + 1, s0);
        Swap(a, end - third, end, start, end + 1, s0);
      } else {
        Swap(a, start + third, end, start, end + 1, s0);
        Swap(a, end - third, start, start, end + 1, s0);
      }
    } else {
      if !less(a[start], a[end]) {
        Swap(a, start, end, start, end + 1, s0);
      } else {
        Asymmetric(less, a[start], a[end]);
      }
    }
  }

  /** The range between the pivots: below the left one, between both, not looked at, not below the right one. */
  ghost predicate Divided<T(!new)>(s: seq<T>, less: (T, T) -> bool, start: int, end: int, j: int, k: int, g: int) {
    0 <= start < j <= k && j <= g + 1 && k <= g + 2 && g < end < |s| && start <= g && !less(s[end], s[start]) &&
    (forall i :: start < i < j ==> less(s[i], s[start])) &&
    (forall i :: j <= i < k && i <= g ==> !less(s[i], s[start]) && less(s[i], s[end])) &&
    (forall i :: g < i < end ==> !less(s[i], s[end]))
  }

  /** The pivots in place: what is left to sort are the three parts around them. */
  lemma PivotsPlaced<T(!new)>(s: seq<T>, less: (T, T) -> bool, start: int, end: int, j: int, k: int, g: int)
    requires StrictWeak(less) && Divided(s, less, start, end, j, k, g) && k > g
    ensures var s1 := s[start := s[j - 1]][j - 1 := s[start]];
            var s2 := s1[end := s1[g + 1]][g + 1 := s1[end]];
            OrderedBut(s2, less, start, end + 1, Parts(start, j - 1, j, g + 1, g + 2, end + 1))
  {
    var left, right := s[start], s[end];
    var s1 := s[start := s[j - 1]][j - 1 := s[start]];
    var s2 := s1[end := s1[g + 1]][g + 1 := s1[end]];
    forall i | start <= i <= end
      ensures i < j - 1 ==> less(s2[i], left)
      ensures j <= i <= g ==> !less(s2[i], left) && less(s2[i], right)
      ensures i > g + 1 ==> !less(s2[i], right)
      ensures i == j - 1 ==> s2[i] == left
      ensures i == g + 1 ==> s2[i] == right
    {}
    PlacedOrdered(s2, less, start, end, j - 1, g + 1);
  }

  lemma PlacedOrdered<T(!new)>(s: seq<T>, less: (T, T) -> bool, start: int, end: int, j: int, g: int)
    requires StrictWeak(less) && 0 <= start <= j < g <= end < |s| && !less(s[g], s[j])
    requires forall i :: start <= i < j ==> less(s[i], s[j])
    requires forall i :: j < i < g ==> !less(s[i], s[j]) && less(s[i], s[g])
    requires forall i :: g < i <= end ==> !less(s[i], s[g])
    ensures OrderedBut(s, less, start, end + 1, Parts(start, j, j + 1, g, g + 1, end + 1))
  {
    var p := Parts(start, j, j + 1, g, g + 1, end + 1);
    forall x, y | start <= x < y < end + 1 && !Excused(p, x, y) ensures !less(s[y], s[x]) {
      assert y > g ==> !less(s[y], s[g]);
      assert y >= j ==> !less(s[y], s[j]);
      assert x <= j ==> !less(s[j], s[x]);
      assert x <= g ==> !less(s[g], s[x]);
    }
  }

  /** An element below the left pivot joins the lower part. */
  method SwapDown<T(!new)>(a: array<T>, start: int, end: int, less: (T, T) -> bool, j0: int, k: int, g: int, ghost s0: seq<T>)
    returns (j: int)
    requires Divided(a[..], less, start, end, j0, k, g) && k <= g && less(a[k], a[start])
    requires Permuted(s0, a[..], start, end + 1)
    modifies a
    ensures j == j0 + 1 && Divided(a[..], less, start, end, j, k + 1, g) && Permuted(s0, a[..], start, end + 1)
    ensures a[start] == old(a[start]) && a[end] == old(a[end])
  {
    hide Permuted;
    Swap(a, k, j0, start, end + 1, s0);
    j := j0 + 1;
  }

  /** An element not below the right pivot trades places with the last one not looked at. */
  method SwapUp<T(!new)>(a: array<T>, start: int, end: int, less: (T, T) -> bool, j: int, k: int, g0: int, ghost s0: seq<T>)
    returns (g: int)
    requires Divided(a[..], less, start, end, j, k, g0) && k <= g0 && !less(a[k], a[end])
    requires !less(a[g0], a[end]) ==> k == g0
    requires Permuted(s0, a[..], start, end + 1)
    modifies a
    ensures g == g0 - 1 && Divided(a[..], less, start, end, j, k, g) && Permuted(s0, a[..], start, end + 1)
    ensures k <= g <==> less(a[k], a[end])
  {
    hide Permuted;
    Swap(a, k, g0, start, end + 1, s0);
    g := g0 - 1;
  }

  /** Divides the range, and puts the pivots between the parts. */
  method Partition<T(!new)>(a: array<T>, start: int, end: int, less: (T, T) -> bool) returns (j: int, g: int)
    requires StrictWeak(less) && 0 <= start < end < a.Length && !less(a[end], a[start])
    modifies a
    ensures Permuted(old(a[..]), a[..], start, end + 1) && start <= j < g <= end
    ensures OrderedBut(a[..], less, start, end + 1, Parts(start, j, j + 1, g, g + 1, end + 1))
  {
    hide Permuted, StrictWeak;
    ghost var s0 := a[..];
    PermutedSame(s0, start, end + 1);
    j := start + 1;
    var k := start + 1;
    g := end - 1;
    while k <= g
      invariant Permuted(s0, a[..], start, end + 1) && Divided(a[..], less, start, end, j, k, g)
      decreases g + 1 - k
    {
      if less(a[k], a[start]) {
        j := SwapDown(a, start, end, less, j, k, g, s0);
      } else if !less(a[k], a[end]) {
        while !less(a[g], a[end]) && k < g
          invariant k <= g && Divided(a[..], less, start, end, j, k, g)
          invariant !less(a[k], a[end]) && !less(a[k], a[start])
          invariant Permuted(s0, a[..], start, end + 1)
        {
          g := g - 1;
        }
        g := SwapUp(a, start, end, less, j, k, g, s0);
        if less(a[k], a[start]) {
          BelowBoth(less, a[k], a[start], a[end]);
          j := SwapDown(a, start, end, less, j, k, g, s0);
        }
      }
      k := k + 1;
    }
    j, g := PlacePivots(a, start, end, less, j, k, g, s0);
  }

  method PlacePivots<T(!new)>(a: array<T>, start: int, end: int, less: (T, T) -> bool, j0: int, ghost k: int, g0: int,
                              ghost s0: seq<T>)
    returns (j: int, g: int)
    requires StrictWeak(less) && Divided(a[..], less, start, end, j0, k, g0) && k > g0
    requires Permuted(s0, a[..], start, end + 1)
    modifies a
    ensures Permuted(s0, a[..], start, end + 1) && start <= j < g <= end
    ensures OrderedBut(a[..], less, start, end + 1, Parts(start, j, j + 1, g, g + 1, end + 1))
  {
    hide Permuted, StrictWeak, OrderedBut;
    PivotsPlaced(a[..], less, start, end, j0, k, g0);
    j := j0 - 1;
    g := g0 + 1;
    Swap(a, start, j, start, end + 1, s0);
    Swap(a, end, g, start, end + 1, s0);
  }

  // ----- Sorting -----

  /** So many calls, one inside the other, are enough for a range of this size. */
  ghost predicate Enough(depth: nat, size: int) {
    depth >= 1 && size < Pow(2, depth)
  }

  /** A call on at most half of a range has one level less left. */
  lemma OneLevelLess(depth: nat, part: int, size: int)
    requires Enough(depth, size) && 2 * part <= size && 2 <= size
    ensures depth >= 2 && Enough(depth - 1, part)
  {
    PowStep(2, 0);
    PowStep(2, depth - 1);
  }

  /** One more than the logarithm of the size. */
  function Levels(size: nat): (depth: nat)
    ensures Enough(depth, size) && (size > 0 ==> Pow(2, depth - 1) <= size)
  {
    PowStep(2, 0);
    if size == 0 then 1 else FloorLog2(size) + 1
  }

  /** The parts without one that has been sorted. */
  ghost function Dropped(p: Parts, a: int, b: int): Parts {
    if (a, b) == (p.lo1, p.hi1) then p.(hi1 := p.lo1)
    else if (a, b) == (p.lo2, p.hi2) then p.(hi2 := p.lo2)
    else p.(hi3 := p.lo3)
  }

  lemma PartSorted<T(!new)>(s: seq<T>, s': seq<T>, less: (T, T) -> bool, lo: int, hi: int, p: Parts, a: int, b: int)
    requires OrderedBut(s, less, lo, hi, p) && Separated(p) && IsPart(p, a, b) && lo <= a <= b <= hi
    requires Permuted(s, s', a, b) && Sorted(s', less, a, b)
    ensures OrderedBut(s', less, lo, hi, Dropped(p, a, b))
  {
    PermutingPart(s, s', less, lo, hi, p, a, b);
    forall i, j | lo <= i < j < hi && !Excused(Dropped(p, a, b), i, j) ensures !less(s'[j], s'[i]) {
      assert Excused(p, i, j) ==> Both(a, b, i, j);
    }
  }

  /** The only unsorted part is [start, end). */
  ghost function Rest(lo: int, hi: int, start: int, end: int): Parts {
    Parts(lo, lo, start, end, hi, hi)
  }

  lemma OnePart<T(!new)>(s: seq<T>, less: (T, T) -> bool, lo: int, hi: int)
    requires 0 <= lo <= hi <= |s|
    ensures OrderedBut(s, less, lo, hi, Rest(lo, hi, lo, hi))
  {}

  lemma NothingLeft<T(!new)>(s: seq<T>, less: (T, T) -> bool, lo: int, hi: int, start: int, end: int)
    requires OrderedBut(s, less, lo, hi, Rest(lo, hi, start, end)) && end <= start + 1
    ensures Sorted(s, less, lo, hi)
  {}

  /** The part is divided: what was in order stays in order, and the pivots and the parts are. */
  lemma Refined<T(!new)>(s: seq<T>, s': seq<T>, less: (T, T) -> bool, lo: int, hi: int, start: int, end: int, p: Parts)
    requires OrderedBut(s, less, lo, hi, Rest(lo, hi, start, end)) && lo <= start <= end <= hi
    requires Permuted(s, s', start, end) && OrderedBut(s', less, start, end, p)
    ensures OrderedBut(s', less, lo, hi, p)
  {
    PermutingPart(s, s', less, lo, hi, Rest(lo, hi, start, end), start, end);
    forall i, j | lo <= i < j < hi && !Excused(p, i, j) ensures !less(s'[j], s'[i]) {
      assert Excused(Rest(lo, hi, start, end), i, j) ==> start <= i < j < end;
    }
  }

  lemma OnlyRest<T(!new)>(s: seq<T>, less: (T, T) -> bool, lo: int, hi: int, start: int, end: int, p: Parts)
    requires OrderedBut(s, less, lo, hi, p)
    requires forall i, j :: lo <= i < j < hi && Excused(p, i, j) ==> start <= i < j < end
    ensures OrderedBut(s, less, lo, hi, Rest(lo, hi, start, end))
  {}

  /** One recursive call. */
  method SortPart<T(!new)>(a: array<T>, first: int, last: int, less: (T, T) -> bool, ghost lo: int, ghost hi: int,
                           ghost p: Parts, ghost s0: seq<T>, ghost depth: nat)
    requires StrictWeak(less) && 0 <= lo <= first <= last + 1 <= hi <= a.Length && IsPart(p, first, last + 1) && Separated(p)
    requires OrderedBut(a[..], less, lo, hi, p) && Permuted(s0, a[..], lo, hi)
    requires 2 * (last + 1 - first) <= hi - lo && 2 <= hi - lo && Enough(depth, hi - lo)
    modifies a
    ensures Permuted(s0, a[..], lo, hi) && OrderedBut(a[..], less, lo, hi, Dropped(p, first, last + 1))
    decreases depth, 0
  {
    hide Permuted, StrictWeak, Pow, Sorted, OrderedBut, Enough;
    ghost var s := a[..];
    OneLevelLess(depth, last + 1 - first, hi - lo);
    DualPivotQuickSort(a, first, last, less, depth - 1);
    PartSorted(s, a[..], less, lo, hi, p, first, last + 1);
    PermutedWider(s, a[..], first, last + 1, lo, hi);
    PermutedTwice(s0, s, a[..], lo, hi);
  }

  /** Divides what is left of the range, sorts the two smaller parts and leaves the largest one. */
  method Round<T(!new)>(a: array<T>, start: int, end: int, less: (T, T) -> bool, ghost lo: int, ghost hi: int,
                        ghost s0: seq<T>, ghost depth: nat)
    returns (start': int, end': int)
    requires StrictWeak(less) && 0 <= lo <= start < end < hi <= a.Length && 2 <= hi - lo
    requires Permuted(s0, a[..], lo, hi) && OrderedBut(a[..], less, lo, hi, Rest(lo, hi, start, end + 1))
    requires Enough(depth, hi - lo)
    modifies a
    ensures lo <= start' <= end' + 1 <= hi && end' - start' < end - start
    ensures Permuted(s0, a[..], lo, hi) && OrderedBut(a[..], less, lo, hi, Rest(lo, hi, start', end' + 1))
    decreases depth, 1
  {
    hide Permuted, StrictWeak, Pow, Sorted, OrderedBut, Enough;
    var j, g := Divide(a, start, end, less, lo, hi, s0);
    start', end' := start, end;
    ghost var p := Parts(start, j, j + 1, g, g + 1, end + 1);
    var leftSize := j - start;
    var middleSize := g - (j + 1);
    var rightSize := (end + 1) - (g + 1);
    if leftSize >= middleSize && leftSize >= rightSize {
      SortPart(a, j + 1, g - 1, less, lo, hi, p, s0, depth);
      p := Dropped(p, j + 1, g);
      SortPart(a, g + 1, end, less, lo, hi, p, s0, depth);
      p := Dropped(p, g + 1, end + 1);
      end' := j - 1;
    } else if middleSize >= rightSize {
      SortPart(a, start, j - 1, less, lo, hi, p, s0, depth);
      p := Dropped(p, start, j);
      SortPart(a, g + 1, end, less, lo, hi, p, s0, depth);
      p := Dropped(p, g + 1, end + 1);
      start' := j + 1;
      end' := g - 1;
    } else {
      SortPart(a, start, j - 1, less, lo, hi, p, s0, depth);
      p := Dropped(p, start, j);
      SortPart(a, j + 1, g - 1, less, lo, hi, p, s0, depth);
      p := Dropped(p, j + 1, g);
      start' := g + 1;
    }
    OnlyRest(a[..], less, lo, hi, start', end' + 1, p);
  }

  method Divide<T(!new)>(a: array<T>, start: int, end: int, less: (T, T) -> bool, ghost lo: int, ghost hi: int,
                         ghost s0: seq<T>)
    returns (j: int, g: int)
    requires StrictWeak(less) && 0 <= lo <= start < end < hi <= a.Length
    requires Permuted(s0, a[..], lo, hi) && OrderedBut(a[..], less, lo, hi, Rest(lo, hi, start, end + 1))
    modifies a
    ensures start <= j < g <= end && Permuted(s0, a[..], lo, hi)
    ensures OrderedBut(a[..], less, lo, hi, Parts(start, j, j + 1, g, g + 1, end + 1))
  {
    hide Permuted, StrictWeak, OrderedBut;
    ghost var s := a[..];
    ChoosePivots(a, start, end, less);
    ghost var s1 := a[..];
    j, g := Partition(a, start, end, less);
    PermutedTwice(s, s1, a[..], start, end + 1);
    Refined(s, a[..], less, lo, hi, start, end + 1, Parts(start, j, j + 1, g, g + 1, end + 1));
    PermutedWider(s, a[..], start, end + 1, lo, hi);
    PermutedTwice(s0, s, a[..], lo, hi);
  }

  /**
   Sorts the range from start to end, both included. At most `depth` calls are ever one inside the other, this one
   included: each recursive call gives up one level, which the largest part could not do.
   */
  method DualPivotQuickSort<T(!new)>(a: array<T>, start0: int, end0: int, less: (T, T) -> bool, ghost depth: nat)
    requires StrictWeak(less) && 0 <= start0 <= end0 + 1 <= a.Length && Enough(depth, end0 + 1 - start0)
    modifies a
    ensures Permuted(old(a[..]), a[..], start0, end0 + 1) && Sorted(a[..], less, start0, end0 + 1)
    decreases depth, 2
  {
    hide Permuted, StrictWeak, Pow, Sorted, OrderedBut, Enough;
    if (end0 + 1) - start0 <= INSERTION_SORT_CUTOFF {
      InsertionSort(a, start0, end0, less);
      return;
    }
    var start, end := start0, end0;
    ghost var s0, lo, hi := a[..], start0, end0 + 1;
    PermutedSame(s0, lo, hi);
    OnePart(a[..], less, lo, hi);
    while start < end
      invariant lo <= start <= end + 1 <= hi
      invariant Permuted(s0, a[..], lo, hi) && OrderedBut(a[..], less, lo, hi, Rest(lo, hi, start, end + 1))
      decreases end - start
    {
      start, end := Round(a, start, end, less, lo, hi, s0, depth);
    }
    NothingLeft(a[..], less, lo, hi, start, end + 1);
  }

  /** Sorts a whole collection, with no more calls one inside the other than one and the logarithm of its size. */
  method Sort<T(!new)>(a: array<T>, less: (T, T) -> bool)
    requires StrictWeak(less)
    modifies a
    ensures multiset(a[..]) == multiset(old(a[..])) && Sorted(a[..], less, 0, a.Length)
  {
    ghost var s := a[..];
    DualPivotQuickSort(a, 0, a.Length - 1, less, Levels(a.Length));
    assert s[0..a.Length] == s && a[..][0..a.Length] == a[..];
  }

  // ----- One pivot, for plain iterators; here `end` is not included -----

  /** Elements below the pivot, which stands at start, then the others, up to j. */
  ghost predicate Halved<T(!new)>(s: seq<T>, less: (T, T) -> bool, start: int, end: int, i: int, j: int) {
    0 <= start < i <= j <= end <= |s| &&
    (forall k :: start < k < i ==> less(s[k], s[start])) && (forall k :: i <= k < j ==> !less(s[k], s[start]))
  }

  lemma PivotBetween<T(!new)>(s: seq<T>, less: (T, T) -> bool, start: int, end: int, i: int)
    requires StrictWeak(less) && Halved(s, less, start, end, i, end)
    ensures var s' := s[start := s[i - 1]][i - 1 := s[start]];
            OrderedBut(s', less, start, end, Parts(start, i - 1, i, end, end, end))
  {
    var pivot := s[start];
    var s' := s[start := s[i - 1]][i - 1 := s[start]];
    var p := Parts(start, i - 1, i, end, end, end);
    forall x, y | start <= x < y < end && !Excused(p, x, y) ensures !less(s'[y], s'[x]) {
      assert x < i - 1 ==> less(s'[x], pivot);
      assert y >= i ==> !less(s'[y], pivot);
      assert s'[i - 1] == pivot;
    }
  }

  method SplitAtMiddle<T(!new)>(a: array<T>, start: int, end: int, less: (T, T) -> bool) returns (i: int)
    requires StrictWeak(less) && 0 <= start && start + 1 < end <= a.Length
    modifies a
    ensures 1 <= i <= end - start && Permuted(old(a[..]), a[..], start, end)
    ensures OrderedBut(a[..], less, start, end, Parts(start, start + i - 1, start + i, end, end, end))
  {
    hide Permuted, StrictWeak, OrderedBut;
    ghost var s0 := a[..];
    PermutedSame(s0, start, end);
    var size := end - start;
    Swap(a, start + size / 2, start, start, end, s0);
    i := 1;
    for j := 1 to size
      invariant 1 <= i <= j && Halved(a[..], less, start, end, start + i, start + j) && Permuted(s0, a[..], start, end)
    {
      if less(a[start + j], a[start]) {
        Swap(a, start + j, start + i, start, end, s0);
        i := i + 1;
      }
    }
    PivotBetween(a[..], less, start, end, start + i);
    Swap(a, start, start + i - 1, start, end, s0);
  }

  /** At most `depth` calls are ever one inside the other here too, as only the shorter half is sorted by a call. */
  method SinglePivotQuickSort<T(!new)>(a: array<T>, start0: int, end0: int, less: (T, T) -> bool, ghost depth: nat)
    requires StrictWeak(less) && 0 <= start0 <= end0 <= a.Length && Enough(depth, end0 - start0)
    modifies a
    ensures Permuted(old(a[..]), a[..], start0, end0) && Sorted(a[..], less, start0, end0)
    decreases depth, 2
  {
    hide Permuted, StrictWeak, Pow, Sorted, OrderedBut, Enough;
    var start, end := start0, end0;
    ghost var s0, lo, hi := a[..], start0, end0;
    PermutedSame(s0, lo, hi);
    OnePart(a[..], less, lo, hi);
    while true
      invariant lo <= start <= end <= hi
      invariant Permuted(s0, a[..], lo, hi) && OrderedBut(a[..], less, lo, hi, Rest(lo, hi, start, end))
      decreases end - start
    {
      var size := end - start;
      if size <= 1 {
        NothingLeft(a[..], less, lo, hi, start, end);
        return;
      }
      start, end := SingleRound(a, start, end, less, lo, hi, s0, depth);
    }
  }

  /** Splits what is left, sorts the shorter half and leaves the other one. */
  method SingleRound<T(!new)>(a: array<T>, start: int, end: int, less: (T, T) -> bool, ghost lo: int, ghost hi: int,
                              ghost s0: seq<T>, ghost depth: nat)
    returns (start': int, end': int)
    requires StrictWeak(less) && 0 <= lo <= start && start + 1 < end <= hi <= a.Length
    requires Permuted(s0, a[..], lo, hi) && OrderedBut(a[..], less, lo, hi, Rest(lo, hi, start, end))
    requires Enough(depth, hi - lo)
    modifies a
    ensures lo <= start' <= end' <= hi && end' - start' < end - start
    ensures Permuted(s0, a[..], lo, hi) && OrderedBut(a[..], less, lo, hi, Rest(lo, hi, start', end'))
    decreases depth, 1
  {
    hide Permuted, StrictWeak, Pow, Sorted, OrderedBut, Enough;
    ghost var s := a[..];
    var size := end - start;
    var i := SplitAtMiddle(a, start, end, less);
    ghost var p := Parts(start, start + i - 1, start + i, end, end, end);
    Refined(s, a[..], less, lo, hi, start, end, p);
    PermutedWider(s, a[..], start, end, lo, hi);
    PermutedTwice(s0, s, a[..], lo, hi);
    start', end' := start, end;
    if i > size / 2 {
      SortHalf(a, start + i, end, less, lo, hi, p, s0, depth);
      end' := start + i - 1;
      OnlyRest(a[..], less, lo, hi, start', end', Dropped(p, start + i, end));
    } else {
      SortHalf(a, start, start + i - 1, less, lo, hi, p, s0, depth);
      start' := start + i;
      OnlyRest(a[..], less, lo, hi, start', end', Dropped(p, start, start + i - 1));
    }
  }

  /** One recursive call. */
  method SortHalf<T(!new)>(a: array<T>, first: int, last: int, less: (T, T) -> bool, ghost lo: int, ghost hi: int,
                           ghost p: Parts, ghost s0: seq<T>, ghost depth: nat)
    requires StrictWeak(less) && 0 <= lo <= first <= last <= hi <= a.Length && IsPart(p, first, last) && Separated(p)
    requires OrderedBut(a[..], less, lo, hi, p) && Permuted(s0, a[..], lo, hi)
    requires 2 * (last - first) <= hi - lo && 2 <= hi - lo && Enough(depth, hi - lo)
    modifies a
    ensures Permuted(s0, a[..], lo, hi) && OrderedBut(a[..], less, lo, hi, Dropped(p, first, last))
    decreases depth, 0
  {
    hide Permuted, StrictWeak, Pow, Sorted, OrderedBut, Enough;
    ghost var s := a[..];
    OneLevelLess(depth, last - first, hi - lo);
    SinglePivotQuickSort(a, first, last, less, depth - 1);
    PartSorted(s, a[..], less, lo, hi, p, first, last);
    PermutedWider(s, a[..], first, last, lo, hi);
    PermutedTwice(s0, s, a[..], lo, hi);
  }
}
