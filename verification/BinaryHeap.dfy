/**
 The intrusive binary heap: an array in which no node is less than its parent, and whose nodes are told their
 places.
 */
module BinaryHeaps {
  import opened SortedRanges

  function Parent(i: int): int {
    (i - 1) / 2
  }

  /** The node at i is not less than its parent. */
  ghost predicate Above<T>(s: seq<T>, less: (T, T) -> bool, i: int)
    requires 0 < i < |s|
  {
    !less(s[i], s[Parent(i)])
  }

  ghost predicate Heap<T>(s: seq<T>, less: (T, T) -> bool) {
    forall i :: 0 < i < |s| ==> Above(s, less, i)
  }

  /** Below and around k the order may be broken, but the children of k are in order with the parent of k. */
  ghost predicate HeapAround<T>(s: seq<T>, less: (T, T) -> bool, lo: int, k: int) {
    (forall i :: 0 < i < |s| && Parent(i) >= lo && i != k && Parent(i) != k ==> Above(s, less, i)) &&
    (forall i :: 0 < i < |s| && Parent(i) == k && k > 0 && Parent(k) >= lo && k < |s| ==> !less(s[i], s[Parent(k)]))
  }

  /** The node at k, if there is one, is in order with its parent. */
  ghost predicate FitsAbove<T>(s: seq<T>, less: (T, T) -> bool, lo: int, k: int) {
    0 < k < |s| && Parent(k) >= lo ==> Above(s, less, k)
  }

  /** The node at k is in order with its children. */
  ghost predicate FitsBelow<T>(s: seq<T>, less: (T, T) -> bool, k: int) {
    forall i :: 0 < i < |s| && Parent(i) == k ==> Above(s, less, i)
  }

  /** All nodes whose parents stand at lo or behind are in order. */
  ghost predicate HeapFrom<T>(s: seq<T>, less: (T, T) -> bool, lo: int) {
    forall i :: 0 < i < |s| && Parent(i) >= lo ==> Above(s, less, i)
  }

  lemma Assembled<T>(s: seq<T>, less: (T, T) -> bool, lo: int, k: int)
    requires HeapAround(s, less, lo, k) && FitsAbove(s, less, lo, k) && FitsBelow(s, less, k)
    ensures HeapFrom(s, less, lo)
  {}

  /** No node is less than the root. */
  lemma {:induction false} RootIsLeast<T(!new)>(s: seq<T>, less: (T, T) -> bool, i: nat)
    requires StrictWeak(less) && Heap(s, less) && i < |s|
    ensures !less(s[i], s[0])
    decreases i
  {
    if i > 0 {
      RootIsLeast(s, less, Parent(i));
      assert Above(s, less, i);
    }
  }

  function Swapped<T>(s: seq<T>, i: int, j: int): seq<T>
    requires 0 <= i < |s| && 0 <= j < |s|
  {
    s[i := s[j]][j := s[i]]
  }

  // ----- What the nodes are told -----

  /** The node has been told this place last. */
  ghost predicate Says<T>(places: map<T, nat>, node: T, k: nat) {
    node in places && places[node] == k
  }

  ghost predicate Unique<T>(s: seq<T>) {
    forall i, j :: 0 <= i < j < |s| ==> s[i] != s[j]
  }

  /** The nodes moved on the way from s0 to s have been told their places; all others stand where they stood, untold. */
  ghost predicate Reached<T>(s0: seq<T>, places0: map<T, nat>, s: seq<T>, places: map<T, nat>, moved: set<T>) {
    |s| == |s0| && Unique(s) &&
    (forall k :: 0 <= k < |s| && s[k] in moved ==> Says(places, s[k], k)) &&
    forall k :: 0 <= k < |s| && s[k] !in moved ==>
      s[k] == s0[k] && (s[k] in places <==> s[k] in places0) && (s[k] in places ==> places[s[k]] == places0[s[k]])
  }

  lemma SwapReached<T>(s0: seq<T>, places0: map<T, nat>, s: seq<T>, places: map<T, nat>, moved: set<T>, i: nat, j: nat)
    requires Reached(s0, places0, s, places, moved) && i < |s| && j < |s| && i != j
    ensures Reached(s0, places0, Swapped(s, i, j), places[s[j] := i][s[i] := j], moved + {s[i], s[j]})
  {}

  lemma SwapKeepsRecord<T>(s: seq<T>, places: map<T, nat>, i: nat, j: nat)
    requires i < |s| && j < |s|
    ensures multiset(Swapped(s, i, j)) == multiset(s)
    ensures (forall k :: 0 <= k < |s| ==> Says(places, s[k], k)) ==>
            forall k :: 0 <= k < |s| ==> Says(places[s[j] := i][s[i] := j], Swapped(s, i, j)[k], k)
  {}

  /** All nodes know their places exactly when those that have not moved were told theirs before. */
  lemma RecordedExactly<T>(s0: seq<T>, places0: map<T, nat>, s: seq<T>, places: map<T, nat>, moved: set<T>)
    requires Reached(s0, places0, s, places, moved)
    ensures (forall k :: 0 <= k < |s| ==> Says(places, s[k], k)) <==>
            forall k :: 0 <= k < |s| && s[k] !in moved ==> Says(places0, s[k], k)
  {}

  // ----- Moving nodes -----

  /** Every child of the node at k is greater than it. */
  ghost predicate StrictAt<T>(s: seq<T>, less: (T, T) -> bool, k: int) {
    forall i :: 0 < i < |s| && Parent(i) == k ==> 0 <= k && less(s[k], s[i])
  }

  /** A node that trades places with its parent moves the broken place up. */
  lemma MovedUp<T(!new)>(s: seq<T>, less: (T, T) -> bool, lo: int, k: int)
    requires StrictWeak(less) && 0 < k < |s| && lo <= Parent(k) && HeapAround(s, less, lo, k)
    ensures HeapAround(Swapped(s, k, Parent(k)), less, lo, Parent(k))
  {
    var p, s' := Parent(k), Swapped(s, k, Parent(k));
    forall i | 0 < i < |s| && Parent(i) >= lo && i != p && Parent(i) != p ensures Above(s', less, i) {
      if Parent(i) != k {
        assert Above(s, less, i);
      }
    }
    forall i | 0 < i < |s| && Parent(i) == p && p > 0 && Parent(p) >= lo ensures !less(s'[i], s'[Parent(p)]) {
      assert Above(s, less, p);
      if i != k {
        assert Above(s, less, i);
      }
    }
  }

  lemma MovedUpFitsBelow<T(!new)>(s: seq<T>, less: (T, T) -> bool, lo: int, k: int)
    requires StrictWeak(less) && 0 < k < |s| && lo <= Parent(k) && HeapAround(s, less, lo, k) && FitsBelow(s, less, k)
    requires !less(s[Parent(k)], s[k])
    ensures FitsBelow(Swapped(s, k, Parent(k)), less, Parent(k))
  {
    var p, s' := Parent(k), Swapped(s, k, Parent(k));
    forall i | 0 < i < |s| && Parent(i) == p ensures Above(s', less, i) {
      if i != k {
        assert Above(s, less, i);
      }
    }
  }

  /** The smaller one of the children, when it trades places with its parent, moves the broken place down. */
  lemma MovedDown<T(!new)>(s: seq<T>, less: (T, T) -> bool, lo: int, k: int, m: int)
    requires StrictWeak(less) && 0 <= lo <= k < m < |s| && Parent(m) == k
    requires HeapAround(s, less, lo, k) && FitsAbove(s, less, lo, k) && !less(s[k], s[m])
    requires forall i :: 0 < i < |s| && Parent(i) == k ==> !less(s[i], s[m])
    ensures HeapAround(Swapped(s, k, m), less, lo, m) && FitsAbove(Swapped(s, k, m), less, lo, m)
  {
    var s' := Swapped(s, k, m);
    forall i | 0 < i < |s| && Parent(i) >= lo && i != m && Parent(i) != m ensures Above(s', less, i) {
      if Parent(i) != k && i != k {
        assert Above(s, less, i);
      }
    }
    forall i | 0 < i < |s| && Parent(i) == m ensures !less(s'[i], s'[k]) {
      assert Above(s, less, i);
    }
  }

  class IntrusiveBinaryHeap<T(==, !new)> {
    const less: (T, T) -> bool
    var nodes: seq<T>
    /** The place each node has been told last. */
    var places: map<T, nat>
    /** The nodes that have traded places. */
    ghost var moved: set<T>

    ghost predicate Valid()
      reads this
    {
      StrictWeak(less) && Heap(nodes, less)
    }

    /** Every node knows its place. */
    ghost predicate Recorded()
      reads this
    {
      forall k :: 0 <= k < |nodes| ==> Says(places, nodes[k], k)
    }

    ghost predicate From(s0: seq<T>, places0: map<T, nat>)
      reads this
    {
      Reached(s0, places0, nodes, places, moved)
    }

    /**
     Builds a heap from nodes in any order, which may have been told places before. They are told their places when
     they move, so that all of them know where they are if they all knew before. In one run they do exactly when those
     that have not moved knew before; none moves exactly when every node is greater than its parent.
     */
    constructor (nodes: seq<T>, told: map<T, nat>, less: (T, T) -> bool)
      requires StrictWeak(less)
      ensures Valid() && this.less == less && multiset(this.nodes) == multiset(nodes)
      ensures Unique(nodes) && (forall k :: 0 <= k < |nodes| ==> Says(told, nodes[k], k)) ==> Recorded()
      ensures Unique(nodes) ==>
                (Recorded() <==> forall k :: 0 <= k < |this.nodes| && this.nodes[k] !in moved ==> Says(told, this.nodes[k], k))
      ensures moved == {} <==> forall k :: 0 <= k < |nodes| ==> StrictAt(nodes, less, k)
      ensures moved == {} ==> this.nodes == nodes && places == told
    {
      this.nodes, this.less, places, moved := nodes, less, told, {};
      new;
      var i := |nodes| / 2;
      NobodyMoved(nodes, told, less, i);
      while i > 0
        invariant 0 <= i && |this.nodes| == |nodes| && multiset(this.nodes) == multiset(nodes)
        invariant HeapFrom(this.nodes, less, i) && StrictWeak(this.less)
        invariant Unique(nodes) ==> From(nodes, told)
        invariant moved == {} <==> forall k :: i <= k < |nodes| ==> StrictAt(nodes, less, k)
        invariant moved == {} ==> this.nodes == nodes && places == told
      {
        i := i - 1;
        HeapifyDown(i, i, nodes, told);
      }
      if Unique(nodes) {
        RecordedExactly(nodes, told, this.nodes, places, moved);
      }
    }

    method SwapIndices(i: nat, j: nat)
      requires i < |nodes| && j < |nodes|
      modifies this
      ensures nodes == Swapped(old(nodes), i, j) && multiset(nodes) == multiset(old(nodes))
      ensures old(Recorded()) ==> Recorded()
      ensures places == old(places)[old(nodes)[j] := i][old(nodes)[i] := j]
      ensures moved == old(moved) + {old(nodes)[i], old(nodes)[j]}
    {
      hide Says;
      SwapKeepsRecord(nodes, places, i, j);
      moved := moved + {nodes[i], nodes[j]};
      nodes := nodes[i := nodes[j]][j := nodes[i]];
      places := places[nodes[i] := i];
      places := places[nodes[j] := j];
    }

    method CompareIndices(i: nat, j: nat) returns (r: bool)
      requires i < |nodes| && j < |nodes|
      ensures r == less(nodes[i], nodes[j])
    {
      r := less(nodes[i], nodes[j]);
    }

    method HeapifyUp(start: nat)
      requires StrictWeak(less) && start < |nodes| && HeapAround(nodes, less, 0, start) && FitsBelow(nodes, less, start)
      modifies this
      ensures Valid() && multiset(nodes) == multiset(old(nodes)) && |nodes| == |old(nodes)|
      ensures old(Recorded()) ==> Recorded()
    {
      hide StrictWeak;
      var i := start;
      while i != 0
        invariant 0 <= i < |nodes| && HeapAround(nodes, less, 0, i) && FitsBelow(nodes, less, i)
        invariant multiset(nodes) == multiset(old(nodes)) && |nodes| == |old(nodes)|
        invariant old(Recorded()) ==> Recorded()
      {
        var parent := Parent(i);
        var ordered := CompareIndices(parent, i);
        if ordered {
          Asymmetric(less, nodes[parent], nodes[i]);
          Assembled(nodes, less, 0, i);
          FromStart(nodes, less);
          return;
        }
        MovedUp(nodes, less, 0, i);
        MovedUpFitsBelow(nodes, less, 0, i);
        SwapIndices(i, parent);
        i := parent;
      }
      Assembled(nodes, less, 0, 0);
      FromStart(nodes, less);
    }

    method HeapifyDown(start: nat, ghost lo: nat, ghost s0: seq<T>, ghost places0: map<T, nat>)
      requires StrictWeak(less) && lo <= start && HeapAround(nodes, less, lo, start) && FitsAbove(nodes, less, lo, start)
      modifies this
      ensures HeapFrom(nodes, less, lo) && multiset(nodes) == multiset(old(nodes)) && |nodes| == |old(nodes)|
      ensures old(Recorded()) ==> Recorded()
      ensures old(From(s0, places0)) ==> From(s0, places0)
      ensures old(moved) <= moved
      ensures StrictAt(old(nodes), less, start) ==> nodes == old(nodes) && places == old(places) && moved == old(moved)
      ensures !StrictAt(old(nodes), less, start) ==> moved != {}
    {
      hide StrictWeak, HeapAround, FitsAbove, FitsBelow, HeapFrom, Above, Reached, Says, StrictAt;
      var i := start;
      while i * 2 + 1 < |nodes|
        invariant lo <= i && HeapAround(nodes, less, lo, i) && FitsAbove(nodes, less, lo, i)
        invariant multiset(nodes) == multiset(old(nodes)) && |nodes| == |old(nodes)|
        invariant old(Recorded()) ==> Recorded()
        invariant old(From(s0, places0)) ==> From(s0, places0)
        invariant old(moved) <= moved && (i == start ==> nodes == old(nodes) && places == old(places) && moved == old(moved))
        invariant i != start ==> moved != {} && !StrictAt(old(nodes), less, start)
        decreases |nodes| - i
      {
        var next := Sink(i, lo, s0, places0);
        if next == i {
          Assembled(nodes, less, lo, i);
          return;
        }
        i := next;
      }
      NoChildren(nodes, less, i);
      Childless(nodes, less, i);
      Assembled(nodes, less, lo, i);
    }

    /** A node trades places with its least child, unless it is less than that one. */
    method Sink(i: nat, ghost lo: nat, ghost s0: seq<T>, ghost places0: map<T, nat>) returns (next: nat)
      requires StrictWeak(less) && lo <= i && i * 2 + 1 < |nodes|
      requires HeapAround(nodes, less, lo, i) && FitsAbove(nodes, less, lo, i)
      modifies this
      ensures HeapAround(nodes, less, lo, next) && FitsAbove(nodes, less, lo, next) && i <= next < |nodes|
      ensures multiset(nodes) == multiset(old(nodes)) && |nodes| == |old(nodes)|
      ensures old(Recorded()) ==> Recorded()
      ensures old(From(s0, places0)) ==> From(s0, places0)
      ensures next == i ==> FitsBelow(nodes, less, i) && nodes == old(nodes) && places == old(places) && moved == old(moved)
      ensures next != i ==> moved != {} && old(moved) <= moved
      ensures next == i <==> StrictAt(old(nodes), less, i)
    {
      hide StrictWeak, HeapAround, FitsAbove, FitsBelow, HeapFrom, Above, Reached, Says, StrictAt;
      var minChild := i * 2 + 1;
      var otherChild := i * 2 + 2;
      if otherChild < |nodes| {
        var smaller := CompareIndices(otherChild, minChild);
        if smaller {
          minChild := otherChild;
        }
      }
      SmallerChild(nodes, less, i, minChild);
      StrictByChild(nodes, less, i, minChild);
      var ordered := CompareIndices(i, minChild);
      if ordered {
        ChildrenAbove(nodes, less, i, minChild);
        return i;
      }
      MovedDown(nodes, less, lo, i, minChild);
      if From(s0, places0) {
        SwapReached(s0, places0, nodes, places, moved, i, minChild);
      }
      SwapIndices(i, minChild);
      return minChild;
    }

    method Insert(node: T)
      requires Valid()
      modifies this
      ensures Valid() && multiset(nodes) == multiset(old(nodes)) + multiset{node}
      ensures old(Recorded()) && node !in old(nodes) ==> Recorded()
    {
      ghost var before := nodes;
      nodes := nodes + [node];
      places := places[nodes[|nodes| - 1] := |nodes| - 1];
      Appended(before, less, node);
      HeapifyUp(|nodes| - 1);
    }

    /** Removes the node at place i, and no other. */
    method Pop(i0: nat) returns (node: T)
      requires Valid() && i0 < |nodes|
      modifies this
      ensures Valid() && node == old(nodes)[i0] && multiset(nodes) == multiset(old(nodes)) - multiset{node}
      ensures old(Recorded()) ==> Recorded()
    {
      hide StrictWeak;
      var i := i0;
      HeapIsAround(nodes, less, i);
      while i != 0
        invariant 0 <= i < |nodes| && HeapAround(nodes, less, 0, i) && nodes[i] == old(nodes)[i0]
        invariant multiset(nodes) == multiset(old(nodes)) && |nodes| == |old(nodes)|
        invariant old(Recorded()) ==> Recorded()
      {
        MovedUp(nodes, less, 0, i);
        SwapIndices(i, Parent(i));
        i := Parent(i);
      }
      node := TakeRoot();
    }

    /** Takes out the root, whatever it is; the last node goes down from there. */
    method TakeRoot() returns (node: T)
      requires StrictWeak(less) && |nodes| > 0 && HeapAround(nodes, less, 0, 0)
      modifies this
      ensures Valid() && node == old(nodes)[0] && multiset(nodes) == multiset(old(nodes)) - multiset{node}
      ensures old(Recorded()) ==> Recorded()
    {
      hide StrictWeak, HeapAround, FitsAbove, HeapFrom, Heap;
      LastAtRoot(nodes, less);
      SwapIndices(0, |nodes| - 1);
      node := TakeLast();
      RootFits(nodes, less);
      HeapifyDown(0, 0, nodes, places);
      FromStart(nodes, less);
    }

    method TakeLast() returns (node: T)
      requires |nodes| > 0
      modifies this`nodes
      ensures nodes == old(nodes)[..|old(nodes)| - 1] && node == old(nodes)[|old(nodes)| - 1]
      ensures multiset(nodes) == multiset(old(nodes)) - multiset{node}
      ensures old(Recorded()) ==> Recorded()
    {
      node := nodes[|nodes| - 1];
      nodes := nodes[..|nodes| - 1];
      assert old(nodes) == nodes + [node];
    }

    method PopMin() returns (node: T)
      requires Valid() && |nodes| > 0
      modifies this
      ensures Valid() && multiset(nodes) == multiset(old(nodes)) - multiset{node} && node in old(nodes)
      ensures forall k :: 0 <= k < |old(nodes)| ==> !less(old(nodes)[k], node)
      ensures old(Recorded()) ==> Recorded()
    {
      forall k | 0 <= k < |nodes| ensures !less(nodes[k], nodes[0]) {
        RootIsLeast(nodes, less, k);
      }
      node := Pop(0);
    }
  }

  lemma RootFits<T>(s: seq<T>, less: (T, T) -> bool)
    ensures FitsAbove(s, less, 0, 0)
  {}

  lemma NoChildren<T>(s: seq<T>, less: (T, T) -> bool, k: nat)
    requires |s| <= 2 * k + 1
    ensures FitsBelow(s, less, k)
  {}

  lemma FromStart<T>(s: seq<T>, less: (T, T) -> bool)
    requires HeapFrom(s, less, 0)
    ensures Heap(s, less)
  {}

  lemma HeapIsAround<T(!new)>(s: seq<T>, less: (T, T) -> bool, k: nat)
    requires StrictWeak(less) && Heap(s, less) && k < |s|
    ensures HeapAround(s, less, 0, k)
  {
    forall i | 0 < i < |s| && Parent(i) == k && k > 0 ensures !less(s[i], s[Parent(k)]) {
      assert Above(s, less, i) && Above(s, less, k);
    }
  }

  lemma LastAtRoot<T>(s: seq<T>, less: (T, T) -> bool)
    requires |s| > 0 && HeapAround(s, less, 0, 0)
    ensures HeapAround(Swapped(s, 0, |s| - 1)[..|s| - 1], less, 0, 0)
  {
    var s' := Swapped(s, 0, |s| - 1)[..|s| - 1];
    forall i | 0 < i < |s'| && Parent(i) != 0 ensures Above(s', less, i) {
      assert Above(s, less, i);
    }
  }

  lemma Appended<T>(s: seq<T>, less: (T, T) -> bool, n: T)
    requires Heap(s, less)
    ensures HeapAround(s + [n], less, 0, |s|) && FitsBelow(s + [n], less, |s|)
  {
    forall i | 0 < i < |s| ensures Above(s + [n], less, i) {
      assert Above(s, less, i);
    }
  }

  lemma SmallerChild<T(!new)>(s: seq<T>, less: (T, T) -> bool, k: nat, m: nat)
    requires StrictWeak(less) && m < |s| && (m == 2 * k + 1 || m == 2 * k + 2)
    requires m == 2 * k + 1 ==> 2 * k + 2 < |s| ==> !less(s[2 * k + 2], s[m])
    requires m == 2 * k + 2 ==> less(s[m], s[2 * k + 1])
    ensures Parent(m) == k && forall i :: 0 < i < |s| && Parent(i) == k ==> !less(s[i], s[m])
  {
    forall i | 0 < i < |s| && Parent(i) == k ensures !less(s[i], s[m]) {
      assert i == 2 * k + 1 || i == 2 * k + 2;
    }
  }

  lemma ChildrenAbove<T(!new)>(s: seq<T>, less: (T, T) -> bool, k: nat, m: nat)
    requires StrictWeak(less) && k < m < |s| && less(s[k], s[m])
    requires forall i :: 0 < i < |s| && Parent(i) == k ==> !less(s[i], s[m])
    ensures FitsBelow(s, less, k)
  {}

  lemma StrictByChild<T(!new)>(s: seq<T>, less: (T, T) -> bool, k: nat, m: nat)
    requires StrictWeak(less) && k < m < |s| && Parent(m) == k
    requires forall i :: 0 < i < |s| && Parent(i) == k ==> !less(s[i], s[m])
    ensures StrictAt(s, less, k) <==> less(s[k], s[m])
  {}

  lemma Childless<T>(s: seq<T>, less: (T, T) -> bool, k: nat)
    requires |s| <= 2 * k + 1
    ensures StrictAt(s, less, k)
  {}

  lemma NobodyMoved<T>(s: seq<T>, told: map<T, nat>, less: (T, T) -> bool, half: nat)
    requires half == |s| / 2
    ensures Unique(s) ==> Reached(s, told, s, told, {})
    ensures forall k :: half <= k < |s| ==> StrictAt(s, less, k)
  {
    forall k | half <= k < |s| ensures StrictAt(s, less, k) {
      Childless(s, less, k);
    }
  }

  /** The first place of x, or the length where there is none. */
  function IndexIn<T(==)>(s: seq<T>, x: T): (k: nat)
    ensures k <= |s| && (k < |s| ==> s[k] == x) && forall j :: 0 <= j < k ==> s[j] != x
  {
    if s == [] || s[0] == x then 0 else 1 + IndexIn(s[1..], x)
  }

  /** The order in which the nodes stand. */
  function InPlace<T(==)>(nodes: seq<T>): (T, T) -> bool {
    (x, y) => IndexIn(nodes, x) < IndexIn(nodes, y)
  }

  lemma {:induction false} InPlaceStrict<T(!new)>(nodes: seq<T>)
    requires Unique(nodes)
    ensures StrictWeak(InPlace(nodes)) && forall k :: 0 <= k < |nodes| ==> StrictAt(nodes, InPlace(nodes), k)
  {
    forall i | 0 <= i < |nodes| ensures IndexIn(nodes, nodes[i]) == i {}
  }

  /**
   No weaker condition than that all nodes have been told their places is enough for every order: where one has not,
   the heap built with the order in which the nodes stand moves none of them.
   */
  method UntoldStays<T(!new, ==)>(nodes: seq<T>, told: map<T, nat>, k: nat) returns (heap: IntrusiveBinaryHeap<T>)
    requires Unique(nodes) && k < |nodes| && !Says(told, nodes[k], k)
    ensures heap.Valid() && heap.less == InPlace(nodes)
    ensures heap.nodes == nodes && heap.places == told && heap.moved == {} && !heap.Recorded()
  {
    InPlaceStrict(nodes);
    heap := new IntrusiveBinaryHeap(nodes, told, InPlace(nodes));
  }

  /** A node that has been told nothing knows nothing as the only node of a heap. */
  method OneNodeUntold<T(!new, ==)>(node: T, less: (T, T) -> bool) returns (heap: IntrusiveBinaryHeap<T>)
    requires StrictWeak(less)
    ensures heap.nodes == [node] && !heap.Recorded()
  {
    heap := new IntrusiveBinaryHeap([node], map[], less);
    forall k | 0 <= k < 1 ensures StrictAt([node], less, k) {
      Childless([node], less, k);
    }
    assert node in heap.nodes && !Says(heap.places, heap.nodes[0], 0);
  }
}
