/**
 What a red-black tree's shape promises: its in-order sequence, its black heights, and both of them for a
 tree that is seen from a focus.
 */
module TreeOrder {
  import opened TreeShapes

  // ----- In-order sequence -----

  function InOrder(t: Tree): seq<Node> {
    match t
    case Leaf => []
    case T(l, n, _, r) => InOrder(l) + [n] + InOrder(r)
  }

  /** The nodes visited before the hole of a context, and after it. */
  function Before(c: Context): seq<Node> {
    match c
    case Top => []
    case InLeft(_, _, _, up) => Before(up)
    case InRight(l, n, _, up) => Before(up) + InOrder(l) + [n]
  }

  function After(c: Context): seq<Node> {
    match c
    case Top => []
    case InLeft(n, _, r, up) => [n] + InOrder(r) + After(up)
    case InRight(_, _, _, up) => After(up)
  }

  function Order(t: Tree, c: Context): seq<Node> {
    Before(c) + InOrder(t) + After(c)
  }

  lemma OrderUp(t: Tree, c: Context)
    requires !c.Top?
    ensures Order(UpTree(t, c), c.up) == Order(t, c)
  {
    if c.InLeft? {
      assert Order(UpTree(t, c), c.up) == Before(c.up) + (InOrder(t) + [c.node] + InOrder(c.right)) + After(c.up);
    } else {
      assert Order(UpTree(t, c), c.up) == Before(c.up) + (InOrder(c.left) + [c.node] + InOrder(t)) + After(c.up);
    }
  }

  lemma {:induction false} PlugOrder(t: Tree, c: Context)
    ensures InOrder(Plug(c, t)) == Order(t, c)
    decreases c
  {
    if !c.Top? {
      OrderUp(t, c);
      PlugOrder(UpTree(t, c), c.up);
    }
  }

  lemma {:induction false} InOrderMember(t: Tree, n: Node)
    ensures n in InOrder(t) <==> n in Nodes(t)
  {
    if t.T? {
      InOrderMember(t.left, n);
      InOrderMember(t.right, n);
    }
  }

  lemma InOrderAt(t: Tree, i: nat)
    requires i < |InOrder(t)|
    ensures InOrder(t)[i] in Nodes(t)
  {
    InOrderMember(t, InOrder(t)[i]);
  }

  ghost predicate Distinct(s: seq<Node>) {
    forall i, j :: 0 <= i < j < |s| ==> s[i] != s[j]
  }

  lemma {:induction false} InOrderDistinct(t: Tree)
    requires Separate(t)
    ensures Distinct(InOrder(t))
  {
    if t.T? {
      var l, n, r := InOrder(t.left), t.node, InOrder(t.right);
      InOrderDistinct(t.left);
      InOrderDistinct(t.right);
      forall i | 0 <= i < |l| ensures l[i] in Nodes(t.left) {
        InOrderAt(t.left, i);
      }
      forall i | 0 <= i < |r| ensures r[i] in Nodes(t.right) {
        InOrderAt(t.right, i);
      }
      forall i, j | 0 <= i < j < |InOrder(t)| ensures InOrder(t)[i] != InOrder(t)[j] {
        JoinAt(l, n, r, i);
        JoinAt(l, n, r, j);
      }
    }
  }

  lemma JoinAt(l: seq<Node>, n: Node, r: seq<Node>, i: nat)
    requires i < |l + [n] + r|
    ensures (l + [n] + r)[i] == if i < |l| then l[i] else if i == |l| then n else r[i - |l| - 1]
  {}

  lemma Regroup(a: seq<Node>, m: seq<Node>, b: seq<Node>, p: seq<Node>, d: seq<Node>)
    ensures (a + m + b) + p + d == a + m + (b + p + d)
  {}

  lemma RotatedLeftOrder(t: Tree)
    requires t.T? && t.right.T?
    ensures InOrder(RotatedLeft(t)) == InOrder(t)
  {
    Regroup(InOrder(t.left), [t.node], InOrder(t.right.left), [t.right.node], InOrder(t.right.right));
  }

  lemma RotatedRightOrder(t: Tree)
    requires t.T? && t.left.T?
    ensures InOrder(RotatedRight(t)) == InOrder(t)
  {
    Regroup(InOrder(t.left.left), [t.left.node], InOrder(t.left.right), [t.node], InOrder(t.right));
  }

  // ----- Colours and black heights -----

  predicate IsBlack(t: Tree) {
    t.Leaf? || t.color == Black
  }

  /** Every way down passes h black nodes, and no red node has a red child. */
  ghost predicate Balanced(t: Tree, h: nat) {
    match t
    case Leaf => h == 0
    case T(l, _, Red, r) => IsBlack(l) && IsBlack(r) && Balanced(l, h) && Balanced(r, h)
    case T(l, _, Black, r) => h > 0 && Balanced(l, h - 1) && Balanced(r, h - 1)
  }

  /** Filled with a black-rooted tree of black height h, the context makes a red-black tree. */
  ghost predicate Holds(c: Context, h: nat) {
    match c
    case Top => true
    case InLeft(_, Black, r, up) => Balanced(r, h) && Holds(up, h + 1)
    case InRight(l, _, Black, up) => Balanced(l, h) && Holds(up, h + 1)
    case InLeft(_, Red, r, up) => Balanced(r, h) && IsBlack(r) && !up.Top? && up.color == Black && Holds(up, h)
    case InRight(l, _, Red, up) => Balanced(l, h) && IsBlack(l) && !up.Top? && up.color == Black && Holds(up, h)
  }

  /** The rules of a red-black tree: a black root, equal black heights, no red node with a red child. */
  ghost predicate RedBlack(t: Tree) {
    IsBlack(t) && exists h: nat :: Balanced(t, h)
  }

  lemma {:induction false} HoldsPlug(t: Tree, c: Context, h: nat)
    requires IsBlack(t) && Balanced(t, h) && Holds(c, h)
    ensures RedBlack(Plug(c, t))
    decreases c, 1
  {
    if c.Top? {
    } else if c.color == Black {
      HoldsPlug(UpTree(t, c), c.up, h + 1);
    } else {
      HoldsPlugRed(UpTree(t, c), c.up, h);
    }
  }

  lemma {:induction false} HoldsPlugRed(t: Tree, c: Context, h: nat)
    requires Balanced(t, h) && Holds(c, h) && !c.Top? && c.color == Black
    ensures RedBlack(Plug(c, t))
    decreases c, 0
  {
    HoldsPlug(UpTree(t, c), c.up, h + 1);
  }

  /** Below an unbroken red-black tree, a context asks for what its hole had. */
  lemma HoldsDown(t: Tree, c: Context, h: nat)
    requires t.T? && Balanced(t, h) && Holds(c, h) && (t.color == Red ==> !c.Top? && c.color == Black)
    ensures t.color == Red ==> (
              Holds(InLeft(t.node, t.color, t.right, c), h) && Holds(InRight(t.left, t.node, t.color, c), h) &&
              Balanced(t.left, h) && Balanced(t.right, h))
    ensures t.color == Black ==> (
              h > 0 && Holds(InLeft(t.node, t.color, t.right, c), h - 1) && Holds(InRight(t.left, t.node, t.color, c), h - 1) &&
              Balanced(t.left, h - 1) && Balanced(t.right, h - 1))
  {}

  // ----- Search order -----

  ghost predicate Sorted(s: seq<Node>) {
    forall i, j :: 0 <= i < j < |s| ==> s[i].key <= s[j].key
  }

  /** A node placed behind every node whose key is not larger. */
  function Inserted(s: seq<Node>, n: Node): seq<Node> {
    if s == [] then [n]
    else if n.key < s[0].key then [n] + s
    else [s[0]] + Inserted(s[1..], n)
  }

  /** A sequence without one of its nodes. */
  function Without(s: seq<Node>, n: Node): seq<Node> {
    if s == [] then []
    else if s[0] == n then s[1..]
    else [s[0]] + Without(s[1..], n)
  }

  lemma {:induction false} InsertedAt(a: seq<Node>, n: Node, b: seq<Node>)
    requires forall k :: 0 <= k < |a| ==> a[k].key <= n.key
    requires |b| > 0 ==> n.key < b[0].key
    ensures Inserted(a + b, n) == a + [n] + b
  {
    if a == [] {
      assert a + b == b && a + [n] + b == [n] + b;
    } else {
      assert (a + b)[0] == a[0] && (a + b)[1..] == a[1..] + b;
      InsertedAt(a[1..], n, b);
      assert a + [n] + b == [a[0]] + (a[1..] + [n] + b);
    }
  }

  lemma {:induction false} WithoutAt(a: seq<Node>, n: Node, b: seq<Node>)
    requires n !in a
    ensures Without(a + [n] + b, n) == a + b
  {
    var s := a + [n] + b;
    if a == [] {
      assert s == [n] + b && a + b == b;
    } else {
      assert s[0] == a[0] && s[1..] == a[1..] + [n] + b;
      WithoutAt(a[1..], n, b);
      assert a + b == [a[0]] + (a[1..] + b);
    }
  }

  lemma SortedCons(n: Node, s: seq<Node>)
    requires Sorted(s) && forall m :: m in s ==> n.key <= m.key
    ensures Sorted([n] + s)
  {
    var all := [n] + s;
    forall i, j | 0 <= i < j < |all| ensures all[i].key <= all[j].key {
      assert all[j] == s[j - 1] && s[j - 1] in s;
      assert i > 0 ==> all[i] == s[i - 1];
    }
  }

  lemma SortedTail(s: seq<Node>)
    requires Sorted(s) && |s| > 0
    ensures Sorted(s[1..]) && s == [s[0]] + s[1..] && forall m :: m in s[1..] ==> s[0].key <= m.key
  {}

  lemma {:induction false} InsertedCounts(s: seq<Node>, n: Node)
    ensures multiset(Inserted(s, n)) == multiset(s) + multiset{n}
  {
    if s == [] {
    } else if n.key < s[0].key {
      assert multiset([n] + s) == multiset{n} + multiset(s);
    } else {
      InsertedCounts(s[1..], n);
      var rest := Inserted(s[1..], n);
      assert s == [s[0]] + s[1..];
      assert multiset([s[0]] + rest) == multiset{s[0]} + multiset(rest);
    }
  }

  lemma {:induction false} WithoutCounts(s: seq<Node>, n: Node)
    requires n in s
    ensures multiset(Without(s, n)) == multiset(s) - multiset{n}
  {
    assert s == [s[0]] + s[1..];
    if s[0] != n {
      WithoutCounts(s[1..], n);
      var rest := Without(s[1..], n);
      assert multiset([s[0]] + rest) == multiset{s[0]} + multiset(rest);
    }
  }

  lemma InsertedMember(s: seq<Node>, n: Node, m: Node)
    ensures m in Inserted(s, n) <==> m == n || m in s
  {
    InsertedCounts(s, n);
    assert m in Inserted(s, n) <==> m in multiset(Inserted(s, n));
    assert m in s <==> m in multiset(s);
  }

  lemma {:induction false} WithoutMember(s: seq<Node>, n: Node, m: Node)
    requires m in Without(s, n)
    ensures m in s
  {
    if s != [] && s[0] != n && m != s[0] {
      WithoutMember(s[1..], n, m);
    }
  }

  /** Inserting keeps the sequence sorted and adds exactly one node. */
  lemma {:induction false} InsertedSorted(s: seq<Node>, n: Node)
    requires Sorted(s)
    ensures Sorted(Inserted(s, n))
    ensures multiset(Inserted(s, n)) == multiset(s) + multiset{n}
  {
    InsertedCounts(s, n);
    if s == [] {
    } else if n.key < s[0].key {
      forall m | m in s ensures n.key <= m.key {
        SortedTail(s);
      }
      SortedCons(n, s);
    } else {
      SortedTail(s);
      InsertedSorted(s[1..], n);
      forall m | m in Inserted(s[1..], n) ensures s[0].key <= m.key {
        InsertedMember(s[1..], n, m);
      }
      SortedCons(s[0], Inserted(s[1..], n));
    }
  }

  /** Removing keeps the sequence sorted and drops exactly one node. */
  lemma {:induction false} WithoutSorted(s: seq<Node>, n: Node)
    requires Sorted(s) && n in s
    ensures Sorted(Without(s, n))
    ensures multiset(Without(s, n)) == multiset(s) - multiset{n}
  {
    WithoutCounts(s, n);
    SortedTail(s);
    if s[0] != n {
      WithoutSorted(s[1..], n);
      forall m | m in Without(s[1..], n) ensures s[0].key <= m.key {
        WithoutMember(s[1..], n, m);
      }
      SortedCons(s[0], Without(s[1..], n));
    }
  }

  // ----- Whole runs -----

  datatype Step = Add(node: Node) | Drop(node: Node)

  /** The order of the nodes after a run of insertions and removals. */
  function Ran(s: seq<Node>, steps: seq<Step>): seq<Node>
    decreases |steps|
  {
    if steps == [] then s
    else if steps[0].Add? then Ran(Inserted(s, steps[0].node), steps[1..])
    else Ran(Without(s, steps[0].node), steps[1..])
  }

  /** Only nodes that are there are removed. */
  predicate CanRun(s: seq<Node>, steps: seq<Step>)
    decreases |steps|
  {
    if steps == [] then true
    else if steps[0].Add? then CanRun(Inserted(s, steps[0].node), steps[1..])
    else steps[0].node in s && CanRun(Without(s, steps[0].node), steps[1..])
  }

  /** What the same run does to a plain multiset. */
  function RanOnMultiset(m: multiset<Node>, steps: seq<Step>): multiset<Node>
    decreases |steps|
  {
    if steps == [] then m
    else if steps[0].Add? then RanOnMultiset(m + multiset{steps[0].node}, steps[1..])
    else RanOnMultiset(m - multiset{steps[0].node}, steps[1..])
  }

  /** Over any run the tree is a sorted multiset. */
  lemma {:induction false} RunIsSortedMultiset(s: seq<Node>, steps: seq<Step>)
    requires Sorted(s) && CanRun(s, steps)
    ensures Sorted(Ran(s, steps)) && multiset(Ran(s, steps)) == RanOnMultiset(multiset(s), steps)
    decreases |steps|
  {
    hide Sorted, Inserted, Without;
    if steps != [] {
      if steps[0].Add? {
        InsertedSorted(s, steps[0].node);
        RunIsSortedMultiset(Inserted(s, steps[0].node), steps[1..]);
      } else {
        WithoutSorted(s, steps[0].node);
        RunIsSortedMultiset(Without(s, steps[0].node), steps[1..]);
      }
    }
  }

  /** One more step at the end of a run. */
  lemma {:induction false} RunOn(s: seq<Node>, steps: seq<Step>, last: Step)
    requires CanRun(s, steps) && (last.Drop? ==> last.node in Ran(s, steps))
    ensures CanRun(s, steps + [last])
    ensures Ran(s, steps + [last]) ==
            if last.Add? then Inserted(Ran(s, steps), last.node) else Without(Ran(s, steps), last.node)
    decreases |steps|
  {
    hide Inserted, Without;
    if steps == [] {
      assert [last][1..] == [];
    } else {
      var first := steps[0];
      assert (steps + [last])[0] == first && (steps + [last])[1..] == steps[1..] + [last];
      RunOn(if first.Add? then Inserted(s, first.node) else Without(s, first.node), steps[1..], last);
    }
  }

  // ----- Runs on keys -----

  datatype Operation = InsertKey(key: int, value: int) | RemoveKey(key: int)

  function Keys(s: seq<Node>): (keys: seq<int>)
    ensures |keys| == |s| && forall i :: 0 <= i < |s| ==> keys[i] == s[i].key
  {
    seq(|s|, i requires 0 <= i < |s| => s[i].key)
  }

  /** What the operations do to a multiset of keys. */
  function KeysAfter(keys: multiset<int>, ops: seq<Operation>): multiset<int>
    decreases |ops|
  {
    if ops == [] then keys
    else
      var before := KeysAfter(keys, ops[..|ops| - 1]);
      match ops[|ops| - 1]
      case InsertKey(key, _) => before + multiset{key}
      case RemoveKey(key) => before - multiset{key}
  }

  /** The steps are those operations, each with a node of its key and value, apart from removals that found none. */
  ghost predicate Carries(ops: seq<Operation>, steps: seq<Step>)
    decreases |ops|
  {
    if ops == [] then steps == []
    else
      var before, op := ops[..|ops| - 1], ops[|ops| - 1];
      match op
      case InsertKey(key, value) =>
        steps != [] && Carries(before, steps[..|steps| - 1]) &&
        steps[|steps| - 1].Add? && steps[|steps| - 1].node.key == key && steps[|steps| - 1].node.value == value
      case RemoveKey(key) =>
        Carries(before, steps) ||
        (steps != [] && Carries(before, steps[..|steps| - 1]) &&
         steps[|steps| - 1].Drop? && steps[|steps| - 1].node.key == key)
  }

  lemma KeysCons(n: Node, s: seq<Node>)
    ensures Keys([n] + s) == [n.key] + Keys(s)
  {}

  lemma {:induction false} InsertedKeys(s: seq<Node>, n: Node)
    ensures multiset(Keys(Inserted(s, n))) == multiset(Keys(s)) + multiset{n.key}
  {
    hide Keys;
    KeysCons(n, s);
    if s != [] && s[0].key <= n.key {
      var first, rest := s[0], s[1..];
      InsertedKeys(rest, n);
      assert s == [first] + rest;
      KeysCons(first, rest);
      KeysCons(first, Inserted(rest, n));
    }
  }

  lemma {:induction false} WithoutKeys(s: seq<Node>, n: Node)
    requires n in s
    ensures multiset(Keys(Without(s, n))) == multiset(Keys(s)) - multiset{n.key}
  {
    hide Keys;
    var first, rest := s[0], s[1..];
    assert s == [first] + rest;
    KeysCons(first, rest);
    if first != n {
      WithoutKeys(rest, n);
      KeysCons(first, Without(rest, n));
      KeyListed(rest, n);
    }
  }

  lemma KeyListed(s: seq<Node>, n: Node)
    requires n in s
    ensures n.key in Keys(s)
  {
    var i :| 0 <= i < |s| && s[i] == n;
    assert Keys(s)[i] == n.key;
  }
}
