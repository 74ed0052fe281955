/**
 The doubly linked list threaded through the buckets of an ordered hash table. Links are bucket
 indices, and the list must survive its buckets being moved and swapped.
 */
module BucketLinks {
  /** The null pointer. */
  const NULL: int := -1

  datatype Link = Link(previous: int, next: int)

  type Links = seq<Link>

  ghost predicate Distinct(s: seq<nat>) {
    forall i, j :: 0 <= i < |s| && 0 <= j < |s| && s[i] == s[j] ==> i == j
  }

  function At(order: seq<nat>, k: int): int {
    if 0 <= k < |order| then order[k] else NULL
  }

  /** The links a bucket at position k of the list has. */
  function Neighbors(order: seq<nat>, k: int): Link {
    Link(At(order, k - 1), At(order, k + 1))
  }

  /** links, head and tail form one list that visits exactly the buckets of order, in that order. */
  ghost predicate Linked(links: Links, head: int, tail: int, order: seq<nat>) {
    Distinct(order) && (forall k :: 0 <= k < |order| ==> order[k] < |links|) &&
    head == At(order, 0) && tail == At(order, |order| - 1) &&
    (forall k :: 0 <= k < |order| ==> links[order[k]] == Neighbors(order, k)) &&
    forall c :: 0 <= c < |links| && c !in order ==> links[c] == Link(NULL, NULL)
  }

  lemma LinkedAt(links: Links, head: int, tail: int, order: seq<nat>, k: nat)
    requires Linked(links, head, tail, order) && k < |order|
    ensures order[k] < |links| && links[order[k]] == Neighbors(order, k)
  {}

  lemma LinkedEnds(links: Links, head: int, tail: int, order: seq<nat>)
    requires Linked(links, head, tail, order)
    ensures head == At(order, 0) && tail == At(order, |order| - 1) && Distinct(order)
    ensures forall k :: 0 <= k < |order| ==> order[k] < |links|
  {}

  lemma Unlinked(links: Links, head: int, tail: int, order: seq<nat>, c: nat)
    requires Linked(links, head, tail, order) && c < |links| && c !in order
    ensures links[c] == Link(NULL, NULL)
  {}

  lemma SamePlace(order: seq<nat>, i: nat, j: nat)
    requires Distinct(order) && i < |order| && j < |order|
    ensures order[i] == order[j] <==> i == j
  {}

  /** A bucket is a neighbour of position k exactly when it stands next to it. */
  lemma IsNeighbor(order: seq<nat>, i: nat, k: nat)
    requires Distinct(order) && i < |order| && k < |order|
    ensures order[i] == At(order, k - 1) <==> i == k - 1
    ensures order[i] == At(order, k + 1) <==> i == k + 1
    ensures order[i] == At(order, k) <==> i == k
  {}

  function SetNext(links: Links, c: int, target: int): (r: Links)
    ensures |r| == |links|
    ensures forall x :: 0 <= x < |links| ==> r[x] == if x == c then links[x].(next := target) else links[x]
  {
    if 0 <= c < |links| then links[c := links[c].(next := target)] else links
  }

  function SetPrevious(links: Links, c: int, target: int): (r: Links)
    ensures |r| == |links|
    ensures forall x :: 0 <= x < |links| ==> r[x] == if x == c then links[x].(previous := target) else links[x]
  {
    if 0 <= c < |links| then links[c := links[c].(previous := target)] else links
  }

  /** Pointing a bucket's neighbours p and n at new targets. */
  function Rejoin(links: Links, p: int, toNext: int, n: int, toPrevious: int): (r: Links)
    ensures |r| == |links|
    ensures forall c :: 0 <= c < |links| ==>
              r[c] == Link(if c == n then toPrevious else links[c].previous, if c == p then toNext else links[c].next)
  {
    SetPrevious(SetNext(links, p, toNext), n, toPrevious)
  }

  /** Moving a bucket's links to another bucket, leaving null behind. */
  function Relocate(links: Links, from: nat, to: nat): (r: Links)
    requires from < |links| && to < |links|
    ensures |r| == |links|
  {
    links[to := links[from]][from := Link(NULL, NULL)]
  }

  /** The list after a bucket moved and its neighbours were pointed to its new place. */
  function Relocated(links: Links, from: nat, to: nat): (r: Links)
    requires from < |links| && to < |links|
    ensures |r| == |links|
  {
    var moved := Relocate(links, from, to);
    Rejoin(moved, moved[to].previous, to, moved[to].next, to)
  }

  lemma RelocatedAt(links: Links, head: int, tail: int, order: seq<nat>, k: nat, to: nat, i: nat)
    requires Linked(links, head, tail, order) && k < |order| && to < |links| && to !in order && i < |order|
    ensures order[k] < |links| && order[k := to][i] < |links|
    ensures Relocated(links, order[k], to)[order[k := to][i]] == Neighbors(order[k := to], i)
  {
    hide Linked, Distinct, Rejoin;
    LinkedEnds(links, head, tail, order);
    LinkedAt(links, head, tail, order, k);
    LinkedAt(links, head, tail, order, i);
    IsNeighbor(order, i, k);
    IsNeighbor(order, k, i);
  }

  lemma ReplaceDistinct(order: seq<nat>, k: nat, to: nat)
    requires Distinct(order) && k < |order| && to !in order
    ensures Distinct(order[k := to])
    ensures forall c :: c in order[k := to] <==> c == to || (c in order && c != order[k])
  {
    var order' := order[k := to];
    forall c | c in order && c != order[k] ensures c in order' {
      var i :| 0 <= i < |order| && order[i] == c;
      assert order'[i] == c;
    }
    assert order'[k] == to;
  }

  /** A bucket moved to one outside the list takes its place once its neighbours point to it. */
  lemma RelocatedLinked(links: Links, head: int, tail: int, order: seq<nat>, k: nat, to: nat)
    requires Linked(links, head, tail, order) && k < |order| && to < |links| && to !in order
    ensures order[k] < |links|
    ensures Linked(Relocated(links, order[k], to), if head == order[k] then to else head,
                   if tail == order[k] then to else tail, order[k := to])
  {
    hide Distinct, Relocated, Neighbors;
    var from, order' := order[k], order[k := to];
    LinkedEnds(links, head, tail, order);
    ReplaceDistinct(order, k, to);
    var fixed := Relocated(links, from, to);
    forall i | 0 <= i < |order'| ensures order'[i] < |fixed| && fixed[order'[i]] == Neighbors(order', i) {
      RelocatedAt(links, head, tail, order, k, to, i);
    }
    forall c | 0 <= c < |fixed| && c !in order' ensures fixed[c] == Link(NULL, NULL) {
      RelocatedOutside(links, head, tail, order, k, to, c);
    }
    IsNeighbor(order, 0, k);
    IsNeighbor(order, |order| - 1, k);
  }

  lemma RelocatedOutside(links: Links, head: int, tail: int, order: seq<nat>, k: nat, to: nat, c: nat)
    requires Linked(links, head, tail, order) && k < |order| && to < |links| && to !in order
    requires c < |links| && c != to && (c == order[k] || c !in order)
    ensures order[k] < |links| && Relocated(links, order[k], to)[c] == Link(NULL, NULL)
  {
    hide Linked, Distinct, Rejoin;
    LinkedAt(links, head, tail, order, k);
    LinkedEnds(links, head, tail, order);
    if c != order[k] {
      Unlinked(links, head, tail, order, c);
    } else {
      if k > 0 {
        SamePlace(order, k - 1, k);
      }
      if k + 1 < |order| {
        SamePlace(order, k + 1, k);
      }
    }
  }

  /** The two positions of the order, exchanged. */
  function SwapAt(order: seq<nat>, i: nat, j: nat): (r: seq<nat>)
    requires i < |order| && j < |order|
    ensures |r| == |order|
  {
    order[i := order[j]][j := order[i]]
  }

  function SwapLinks(links: Links, a: nat, b: nat): (r: Links)
    requires a < |links| && b < |links|
    ensures |r| == |links|
  {
    links[a := links[b]][b := links[a]]
  }

  /** The fix-ups after two buckets were exchanged, for the left one: links to itself first. */
  function FixLeft(links: Links, left: nat, right: nat): (r: Links)
    requires left < |links| && right < |links|
    ensures |r| == |links|
  {
    var l1 := if links[left].previous == left then SetPrevious(links, left, right) else links;
    var l2 := SetNext(l1, l1[left].previous, left);
    var l3 := if l2[left].next == left then SetNext(l2, left, right) else l2;
    SetPrevious(l3, l3[left].next, left)
  }

  /** The fix-ups for the right one; neighbours that are the left bucket are done already. */
  function FixRight(links: Links, left: nat, right: nat): (r: Links)
    requires left < |links| && right < |links|
    ensures |r| == |links|
  {
    var l1 := if links[right].previous != left then SetNext(links, links[right].previous, right) else links;
    if l1[right].next != left then SetPrevious(l1, l1[right].next, right) else l1
  }

  function Swapped(links: Links, left: nat, right: nat): (r: Links)
    requires left < |links| && right < |links|
    ensures |r| == |links|
  {
    FixRight(FixLeft(SwapLinks(links, left, right), left, right), left, right)
  }

  function SwapEnd(end: int, left: nat, right: nat): int {
    if end == left then right else if end == right then left else end
  }

  lemma SwapDistinct(order: seq<nat>, i: nat, j: nat)
    requires Distinct(order) && i < |order| && j < |order|
    ensures Distinct(SwapAt(order, i, j))
    ensures forall c :: c in SwapAt(order, i, j) <==> c in order
  {
    var r := SwapAt(order, i, j);
    forall c | c in order ensures c in r {
      var k :| 0 <= k < |order| && order[k] == c;
      assert r[if k == i then j else if k == j then i else k] == c;
    }
  }

  /** A reference after the exchange of two buckets. */
  function Renamed(a: nat, b: nat, x: int): int {
    if x == a then b else if x == b then a else x
  }

  lemma FixLeftAt(links: Links, left: nat, right: nat, c: nat)
    requires left < |links| && right < |links| && left != right && c < |links|
    ensures var p := if links[left].previous == left then right else links[left].previous;
            var n := if links[left].next == left then right else links[left].next;
            FixLeft(links, left, right)[c] ==
              if c == left then Link(p, n)
              else Link(if c == n then left else links[c].previous, if c == p then left else links[c].next)
  {}

  lemma FixRightAt(links: Links, left: nat, right: nat, c: nat)
    requires left < |links| && right < |links| && left != right && c < |links|
    requires links[right].previous != right && links[right].next != right
    ensures var p, n := links[right].previous, links[right].next;
            FixRight(links, left, right)[c]
            == Link(if c == n && n != left then right else links[c].previous, if c == p && p != left then right else links[c].next)
  {}

  /** Buckets a and b refer to each other consistently and not to themselves. */
  predicate Consistent(links: Links, a: nat, b: nat)
    requires a < |links| && b < |links|
  {
    links[a].previous != a && links[a].next != a && links[b].previous != b && links[b].next != b &&
    (links[b].next == a <==> links[a].previous == b) && (links[b].previous == a <==> links[a].next == b)
  }

  /** What the two fix-ups leave in each bucket. */
  lemma SwappedAt(links: Links, a: nat, b: nat, c: nat)
    requires a < |links| && b < |links| && a != b && c < |links| && Consistent(links, a, b)
    ensures Swapped(links, a, b)[c] ==
      if c == a then Link(Renamed(a, b, links[b].previous), Renamed(a, b, links[b].next))
      else if c == b then Link(Renamed(a, b, links[a].previous), Renamed(a, b, links[a].next))
      else Link(if c == links[a].next then b else if c == links[b].next then a else links[c].previous,
                if c == links[a].previous then b else if c == links[b].previous then a else links[c].next)
  {
    hide FixLeft, FixRight;
    var l := SwapLinks(links, a, b);
    FixLeftAt(l, a, b, c);
    FixLeftAt(l, a, b, b);
    FixRightAt(FixLeft(l, a, b), a, b, c);
  }

  lemma RenamedAt(order: seq<nat>, i: nat, j: nat, k: int)
    requires Distinct(order) && i < |order| && j < |order|
    ensures At(SwapAt(order, i, j), k) == Renamed(order[i], order[j], At(order, k))
  {}

  lemma ListConsistent(links: Links, head: int, tail: int, order: seq<nat>, i: nat, j: nat)
    requires Linked(links, head, tail, order) && i < |order| && j < |order| && i != j
    ensures order[i] < |links| && order[j] < |links| && order[i] != order[j]
    ensures Consistent(links, order[i], order[j])
  {
    hide Linked, Distinct;
    LinkedEnds(links, head, tail, order);
    LinkedAt(links, head, tail, order, i);
    LinkedAt(links, head, tail, order, j);
    IsNeighbor(order, i, i);
    IsNeighbor(order, j, j);
    IsNeighbor(order, i, j);
    IsNeighbor(order, j, i);
  }

  lemma SwappedLink(links: Links, head: int, tail: int, order: seq<nat>, i: nat, j: nat, k: nat)
    requires Linked(links, head, tail, order) && i < |order| && j < |order| && i != j && k < |order|
    ensures order[i] < |links| && order[j] < |links| && SwapAt(order, i, j)[k] < |links|
    ensures Swapped(links, order[i], order[j])[SwapAt(order, i, j)[k]] == Neighbors(SwapAt(order, i, j), k)
  {
    hide Linked, Distinct, Swapped, Consistent;
    ListConsistent(links, head, tail, order, i, j);
    LinkedEnds(links, head, tail, order);
    LinkedAt(links, head, tail, order, i);
    LinkedAt(links, head, tail, order, j);
    LinkedAt(links, head, tail, order, k);
    SwappedAt(links, order[i], order[j], SwapAt(order, i, j)[k]);
    RenamedAt(order, i, j, k - 1);
    RenamedAt(order, i, j, k + 1);
    IsNeighbor(order, k, i);
    IsNeighbor(order, k, j);
    IsNeighbor(order, i, k);
    IsNeighbor(order, j, k);
  }

  lemma SwappedOutside(links: Links, head: int, tail: int, order: seq<nat>, i: nat, j: nat, c: nat)
    requires Linked(links, head, tail, order) && i < |order| && j < |order| && i != j && c < |links| && c !in order
    ensures order[i] < |links| && order[j] < |links| && Swapped(links, order[i], order[j])[c] == Link(NULL, NULL)
  {
    hide Linked, Distinct, Swapped, Consistent;
    ListConsistent(links, head, tail, order, i, j);
    LinkedAt(links, head, tail, order, i);
    LinkedAt(links, head, tail, order, j);
    Unlinked(links, head, tail, order, c);
    SwappedAt(links, order[i], order[j], c);
  }

  /** Exchanging two buckets of the list, also when they are neighbours in it. */
  lemma SwappedLinked(links: Links, head: int, tail: int, order: seq<nat>, i: nat, j: nat)
    requires Linked(links, head, tail, order) && i < |order| && j < |order| && i != j
    ensures order[i] < |links| && order[j] < |links|
    ensures Linked(Swapped(links, order[i], order[j]), SwapEnd(head, order[i], order[j]), SwapEnd(tail, order[i], order[j]),
                   SwapAt(order, i, j))
  {
    hide Distinct, Swapped, Neighbors, SwapAt;
    LinkedEnds(links, head, tail, order);
    SwapDistinct(order, i, j);
    var order', fixed := SwapAt(order, i, j), Swapped(links, order[i], order[j]);
    forall k | 0 <= k < |order'| ensures order'[k] < |fixed| && fixed[order'[k]] == Neighbors(order', k) {
      SwappedLink(links, head, tail, order, i, j, k);
    }
    forall c | 0 <= c < |fixed| && c !in order' ensures fixed[c] == Link(NULL, NULL) {
      SwappedOutside(links, head, tail, order, i, j, c);
    }
    RenamedAt(order, i, j, 0);
    RenamedAt(order, i, j, |order| - 1);
  }

  function Without(order: seq<nat>, k: nat): (r: seq<nat>)
    requires k < |order|
    ensures |r| == |order| - 1
    ensures forall i :: 0 <= i < |r| ==> r[i] == order[if i < k then i else i + 1]
  {
    order[..k] + order[k + 1..]
  }

  lemma WithoutDistinct(order: seq<nat>, k: nat)
    requires Distinct(order) && k < |order|
    ensures Distinct(Without(order, k))
    ensures forall c :: c in Without(order, k) <==> c in order && c != order[k]
  {
    var r := Without(order, k);
    forall c | c in order && c != order[k] ensures c in r {
      var i :| 0 <= i < |order| && order[i] == c;
      assert r[if i < k then i else i - 1] == c;
    }
  }

  /** Taking a bucket out: its neighbours are joined and its own links cleared. */
  function Removed(links: Links, c: nat): (r: Links)
    requires c < |links|
    ensures |r| == |links|
  {
    Rejoin(links, links[c].previous, links[c].next, links[c].next, links[c].previous)[c := Link(NULL, NULL)]
  }

  lemma RemovedAt(links: Links, head: int, tail: int, order: seq<nat>, k: nat, i: nat)
    requires Linked(links, head, tail, order) && k < |order| && i < |order| && i != k
    ensures order[k] < |links| && order[i] < |links|
    ensures Removed(links, order[k])[order[i]] == Neighbors(Without(order, k), if i < k then i else i - 1)
  {
    hide Linked, Distinct, Rejoin;
    LinkedEnds(links, head, tail, order);
    LinkedAt(links, head, tail, order, k);
    LinkedAt(links, head, tail, order, i);
    IsNeighbor(order, i, k);
    SamePlace(order, i, k);
  }

  lemma RemovedOutside(links: Links, head: int, tail: int, order: seq<nat>, k: nat, c: nat)
    requires Linked(links, head, tail, order) && k < |order| && c < |links| && (c == order[k] || c !in order)
    ensures order[k] < |links| && Removed(links, order[k])[c] == Link(NULL, NULL)
  {
    hide Linked, Distinct, Rejoin;
    LinkedAt(links, head, tail, order, k);
    if c != order[k] {
      Unlinked(links, head, tail, order, c);
    }
  }

  /** Unlinking a bucket leaves the list of the others. */
  lemma RemovedLinked(links: Links, head: int, tail: int, order: seq<nat>, k: nat)
    requires Linked(links, head, tail, order) && k < |order|
    ensures order[k] < |links|
    ensures var l := links[order[k]];
            Linked(Removed(links, order[k]), if l.previous == NULL then l.next else head,
                   if l.next == NULL then l.previous else tail, Without(order, k))
  {
    hide Distinct, Removed, Neighbors, Without;
    LinkedEnds(links, head, tail, order);
    WithoutDistinct(order, k);
    WithoutEnds(order, k);
    var order', fixed := Without(order, k), Removed(links, order[k]);
    forall i | 0 <= i < |order'| ensures order'[i] < |fixed| && fixed[order'[i]] == Neighbors(order', i) {
      RemovedAt(links, head, tail, order, k, if i < k then i else i + 1);
    }
    forall c | 0 <= c < |fixed| && c !in order' ensures fixed[c] == Link(NULL, NULL) {
      RemovedOutside(links, head, tail, order, k, c);
    }
    NeighborsAre(links, head, tail, order, k);
  }

  lemma WithoutEnds(order: seq<nat>, k: nat)
    requires k < |order|
    ensures At(Without(order, k), 0) == if k == 0 then At(order, 1) else At(order, 0)
    ensures At(Without(order, k), |order| - 2) == if k == |order| - 1 then At(order, k - 1) else At(order, |order| - 1)
  {}

  lemma NeighborsAre(links: Links, head: int, tail: int, order: seq<nat>, k: nat)
    requires Linked(links, head, tail, order) && k < |order|
    ensures order[k] < |links| && links[order[k]] == Link(At(order, k - 1), At(order, k + 1))
  {
    hide Linked;
    LinkedAt(links, head, tail, order, k);
  }

  /** Appending a bucket at the tail. */
  function Appended(links: Links, head: int, tail: int, c: nat): (r: Links)
    requires c < |links|
    ensures |r| == |links|
  {
    if head == NULL then links else SetNext(SetPrevious(links, c, tail), tail, c)
  }

  lemma AppendedAt(links: Links, head: int, tail: int, order: seq<nat>, c: nat, i: nat)
    requires Linked(links, head, tail, order) && c < |links| && c !in order && i <= |order|
    ensures (order + [c])[i] < |links|
    ensures Appended(links, head, tail, c)[(order + [c])[i]] == Neighbors(order + [c], i)
  {
    hide Linked, Distinct;
    LinkedEnds(links, head, tail, order);
    Unlinked(links, head, tail, order, c);
    if i < |order| {
      LinkedAt(links, head, tail, order, i);
      SamePlace(order, i, |order| - 1);
    }
  }

  lemma AppendedLinked(links: Links, head: int, tail: int, order: seq<nat>, c: nat)
    requires Linked(links, head, tail, order) && c < |links| && c !in order
    ensures Linked(Appended(links, head, tail, c), if head == NULL then c else head, c, order + [c])
  {
    hide Appended, Neighbors;
    var order', fixed := order + [c], Appended(links, head, tail, c);
    forall i | 0 <= i < |order'| ensures order'[i] < |fixed| && fixed[order'[i]] == Neighbors(order', i) {
      AppendedAt(links, head, tail, order, c, i);
    }
    forall x | 0 <= x < |fixed| && x !in order' ensures fixed[x] == Link(NULL, NULL) {
      AppendedOutside(links, head, tail, order, c, x);
    }
  }

  lemma AppendedOutside(links: Links, head: int, tail: int, order: seq<nat>, c: nat, x: nat)
    requires Linked(links, head, tail, order) && c < |links| && c !in order && x < |links| && x !in order + [c]
    ensures Appended(links, head, tail, c)[x] == Link(NULL, NULL)
  {
    hide Linked, Distinct;
    LinkedEnds(links, head, tail, order);
    assert (order + [c])[|order|] == c;
    assert forall k :: 0 <= k < |order| ==> (order + [c])[k] == order[k];
    Unlinked(links, head, tail, order, x);
  }

  /** The fix-ups for exchanged buckets also serve a bucket that moved to an unlinked one. */
  lemma RelocatedByFixes(links: Links, head: int, tail: int, order: seq<nat>, k: nat, to: nat)
    requires Linked(links, head, tail, order) && k < |order| && to < |links| && to !in order
    ensures order[k] < |links| && order[k] != to
    ensures var from := order[k];
            FixRight(FixLeft(Relocate(links, from, to), from, to), from, to) == Relocated(links, from, to) &&
            SwapEnd(head, from, to) == (if head == from then to else head) &&
            SwapEnd(tail, from, to) == (if tail == from then to else tail)
  {
    hide Linked, Distinct, FixLeft, FixRight;
    var from := order[k];
    LinkedEnds(links, head, tail, order);
    LinkedAt(links, head, tail, order, k);
    IsNeighbor(order, k, k);
    var moved := Relocate(links, from, to);
    forall c | 0 <= c < |links|
      ensures FixRight(FixLeft(moved, from, to), from, to)[c] == Relocated(links, from, to)[c]
    {
      FixLeftAt(moved, from, to, c);
      FixLeftAt(moved, from, to, to);
      FixRightAt(FixLeft(moved, from, to), from, to, c);
      NotOwnNeighbor(order, k, to);
    }
  }

  lemma NotOwnNeighbor(order: seq<nat>, k: nat, to: nat)
    requires k < |order| && to !in order
    ensures At(order, k - 1) != to && At(order, k + 1) != to && At(order, 0) != to && At(order, |order| - 1) != to
  {}

  /** A bucket has no previous one exactly when it is the head, and no next one exactly when it is the tail. */
  lemma EndsByLinks(links: Links, head: int, tail: int, order: seq<nat>, k: nat)
    requires Linked(links, head, tail, order) && k < |order|
    ensures order[k] < |links|
    ensures links[order[k]].previous == NULL <==> head == order[k]
    ensures links[order[k]].next == NULL <==> tail == order[k]
  {
    hide Linked, Distinct;
    LinkedEnds(links, head, tail, order);
    LinkedAt(links, head, tail, order, k);
    SamePlace(order, 0, k);
    SamePlace(order, |order| - 1, k);
  }

  lemma NotOwnNeighborLink(links: Links, head: int, tail: int, order: seq<nat>, k: nat, to: nat)
    requires Linked(links, head, tail, order) && k < |order| && to !in order
    ensures order[k] < |links| && links[order[k]].previous != to && links[order[k]].next != to
  {
    hide Linked;
    LinkedAt(links, head, tail, order, k);
    NotOwnNeighbor(order, k, to);
  }
}
