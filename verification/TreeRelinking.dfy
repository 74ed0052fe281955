/**
 Changes of a tree's nodes: a node hung below a leaf, a node with at most one child spliced out, and two
 nodes trading places.
 */
module TreeRelinking {
  import opened TreeShapes
  import opened TreeOrder

  // ----- A node added or spliced out -----

  lemma AttachFocused(mem: Memory, mem': Memory, c: Context, root: Node?, root': Node?, n: Node, color: Color)
    requires Focused(mem, Leaf, c, root) && n !in mem
    requires root' == if c.Top? then n else root
    requires mem'.Keys == mem.Keys + {n} && mem'[n] == Cell(null, null, ParentOf(c), color)
    requires !c.Top? ==> c.node in mem && mem'[c.node] == RepointedCell(mem, c, n)
    requires Agree(mem, mem', mem.Keys - (if c.Top? then {} else {c.node}))
    ensures Focused(mem', T(Leaf, n, color, Leaf), c, root')
  {
    assert c.Top? || c.node in ContextNodes(c);
    ContextRepointed(mem, mem', c, null, n, root, root');
  }

  /** The nodes whose fields a splice changes: the child and the parent of the node that goes. */
  ghost predicate SpliceCells(mem: Memory, mem': Memory, t: Tree, child: Tree, c: Context)
    requires t.T?
  {
    mem'.Keys == mem.Keys - {t.node} &&
    (child.T? ==> child.node in mem && child.node in mem' && mem'[child.node] == mem[child.node].(parent := ParentOf(c))) &&
    (!c.Top? ==> c.node in mem && c.node in mem' && mem'[c.node] == RepointedCell(mem, c, RootOf(child))) &&
    Agree(mem, mem', mem.Keys - {t.node} - (if child.T? then {child.node} else {}) - (if c.Top? then {} else {c.node}))
  }

  function OnlyChild(t: Tree): Tree
    requires t.T?
  {
    if t.left.T? then t.left else t.right
  }

  lemma SpliceFocused(mem: Memory, mem': Memory, t: Tree, c: Context, root: Node?, root': Node?)
    requires Focused(mem, t, c, root) && t.T? && (t.left.Leaf? || t.right.Leaf?)
    requires root' == if c.Top? then RootOf(OnlyChild(t)) else root
    requires SpliceCells(mem, mem', t, OnlyChild(t), c)
    ensures Focused(mem', OnlyChild(t), c, root')
  {
    var child := OnlyChild(t);
    FocusedParts(mem, t, c, root);
    Unfold(mem, t, ParentOf(c));
    assert Nodes(Leaf) == {};
    assert Nodes(t) == Nodes(child) + {t.node};
    hide Forms, Separate, FormsContext, Nodes;
    assert c.Top? || c.node in ContextNodes(c);
    FormsReparented(mem, mem', child, t.node, ParentOf(c));
    ContextRepointed(mem, mem', c, t.node, RootOf(child), root, root');
  }

  // ----- Links that agree -----

  /** Child and parent pointers of one node agree with those of its neighbours. */
  ghost predicate ConsistentAt(mem: Memory, root: Node?, n: Node)
    requires n in mem
  {
    var cell := mem[n];
    (cell.left != null ==> cell.left in mem && mem[cell.left].parent == n && cell.left != cell.right) &&
    (cell.right != null ==> cell.right in mem && mem[cell.right].parent == n) &&
    (cell.parent == null <==> n == root) && cell.parent != n &&
    (cell.parent != null ==> cell.parent in mem && (mem[cell.parent].left == n || mem[cell.parent].right == n))
  }

  ghost predicate Consistent(mem: Memory, root: Node?) {
    forall n :: n in mem ==> ConsistentAt(mem, root, n)
  }

  /** The parent pointers and the child pointers of a tree say the same. */
  lemma FocusConsistentAt(mem: Memory, t: Tree, c: Context, root: Node?)
    requires Focused(mem, t, c, root) && t.T?
    ensures t.node in mem && ConsistentAt(mem, root, t.node)
  {
    FocusedParts(mem, t, c, root);
    Unfold(mem, t, ParentOf(c));
    if t.left.T? {
      Unfold(mem, t.left, t.node);
    }
    if t.right.T? {
      Unfold(mem, t.right, t.node);
    }
    assert !c.Top? ==> c.node in ContextNodes(c);
    RootInContext(mem, c, t.node, root);
  }

  lemma {:induction false} RootInContext(mem: Memory, c: Context, f: Node?, root: Node?)
    requires FormsContext(mem, c, f, root)
    ensures c.Top? ==> root == f
    ensures !c.Top? ==> root != null && root in ContextNodes(c)
  {
    if !c.Top? {
      RootInContext(mem, c.up, c.node, root);
    }
  }

  /** Every node of a tree can be brought into focus. */
  lemma {:induction false} FocusOn(mem: Memory, t: Tree, c: Context, root: Node?, n: Node) returns (t': Tree, c': Context)
    requires Focused(mem, t, c, root) && n in Nodes(t)
    ensures Focused(mem, t', c', root) && t'.T? && t'.node == n && Plug(c', t') == Plug(c, t)
    decreases t
  {
    if t.node == n {
      t', c' := t, c;
    } else if n in Nodes(t.left) {
      FocusLeft(mem, t, c, root);
      t', c' := FocusOn(mem, t.left, InLeft(t.node, t.color, t.right, c), root, n);
    } else {
      FocusRight(mem, t, c, root);
      t', c' := FocusOn(mem, t.right, InRight(t.left, t.node, t.color, c), root, n);
    }
  }

  lemma LinksAgree(mem: Memory, t: Tree, root: Node?)
    requires Focused(mem, t, Top, root)
    ensures Consistent(mem, root)
  {
    forall n | n in mem ensures ConsistentAt(mem, root, n) {
      var t', c' := FocusOn(mem, t, Top, root, n);
      FocusConsistentAt(mem, t', c', root);
    }
  }

  // ----- Two nodes trading places -----

  function Swapped(n: Node?, a: Node, b: Node): Node? {
    if n == a then b else if n == b then a else n
  }

  function SwappedCell(cell: Cell, a: Node, b: Node): Cell {
    Cell(Swapped(cell.left, a, b), Swapped(cell.right, a, b), Swapped(cell.parent, a, b), cell.color)
  }

  function SwappedTree(t: Tree, a: Node, b: Node): Tree {
    match t
    case Leaf => Leaf
    case T(l, n, color, r) => T(SwappedTree(l, a, b), Swapped(n, a, b), color, SwappedTree(r, a, b))
  }

  function SwappedContext(c: Context, a: Node, b: Node): Context {
    match c
    case Top => Top
    case InLeft(n, color, r, up) => InLeft(Swapped(n, a, b), color, SwappedTree(r, a, b), SwappedContext(up, a, b))
    case InRight(l, n, color, up) => InRight(SwappedTree(l, a, b), Swapped(n, a, b), color, SwappedContext(up, a, b))
  }

  function SwappedSet(s: set<Node>, a: Node, b: Node): set<Node> {
    if a in s && b !in s then s - {a} + {b} else if b in s && a !in s then s - {b} + {a} else s
  }

  /** Every node's cell moved to the node that takes its place, with all its pointers renamed. */
  ghost predicate TradedCells(mem: Memory, mem': Memory, a: Node, b: Node) {
    mem'.Keys == mem.Keys && a in mem && b in mem &&
    forall n :: n in mem ==> Swapped(n, a, b) in mem' && mem'[Swapped(n, a, b)] == SwappedCell(mem[n], a, b)
  }

  lemma TradedAt(mem: Memory, mem': Memory, n: Node, a: Node, b: Node)
    requires TradedCells(mem, mem', a, b) && n in mem
    ensures Swapped(n, a, b) in mem' && mem'[Swapped(n, a, b)] == SwappedCell(mem[n], a, b)
  {}

  lemma TradedKeys(mem: Memory, mem': Memory, a: Node, b: Node)
    requires TradedCells(mem, mem', a, b)
    ensures mem'.Keys == mem.Keys && a in mem.Keys && b in mem.Keys
  {}

  lemma SwappedRoots(t: Tree, c: Context, a: Node, b: Node)
    ensures RootOf(SwappedTree(t, a, b)) == Swapped(RootOf(t), a, b)
    ensures ParentOf(SwappedContext(c, a, b)) == Swapped(ParentOf(c), a, b)
  {}

  lemma {:induction false} FormsSwapped(mem: Memory, mem': Memory, t: Tree, p: Node?, a: Node, b: Node)
    requires Forms(mem, t, p) && TradedCells(mem, mem', a, b)
    ensures Forms(mem', SwappedTree(t, a, b), Swapped(p, a, b))
  {
    hide TradedCells;
    if t.T? {
      TradedAt(mem, mem', t.node, a, b);
      FormsSwapped(mem, mem', t.left, t.node, a, b);
      FormsSwapped(mem, mem', t.right, t.node, a, b);
    }
  }

  lemma {:induction false} ContextSwapped(mem: Memory, mem': Memory, c: Context, f: Node?, root: Node?, a: Node, b: Node)
    requires FormsContext(mem, c, f, root) && TradedCells(mem, mem', a, b)
    ensures FormsContext(mem', SwappedContext(c, a, b), Swapped(f, a, b), Swapped(root, a, b))
  {
    hide TradedCells, Forms, Swapped;
    match c {
      case Top =>
      case InLeft(n, _, r, up) =>
        TradedAt(mem, mem', n, a, b);
        SwappedRoots(r, up, a, b);
        FormsSwapped(mem, mem', r, n, a, b);
        ContextSwapped(mem, mem', up, n, root, a, b);
      case InRight(l, n, _, up) =>
        TradedAt(mem, mem', n, a, b);
        SwappedRoots(l, up, a, b);
        FormsSwapped(mem, mem', l, n, a, b);
        ContextSwapped(mem, mem', up, n, root, a, b);
    }
  }

  lemma SwappedUnion(s: set<Node>, n: Node, u: set<Node>, a: Node, b: Node)
    ensures SwappedSet(s + {n} + u, a, b) == SwappedSet(s, a, b) + {Swapped(n, a, b)} + SwappedSet(u, a, b)
  {}

  lemma SwappedApart(s: set<Node>, u: set<Node>, a: Node, b: Node)
    requires s !! u
    ensures SwappedSet(s, a, b) !! SwappedSet(u, a, b)
  {}

  lemma SwappedOutside(n: Node, s: set<Node>, a: Node, b: Node)
    requires n !in s
    ensures Swapped(n, a, b) !in SwappedSet(s, a, b)
  {}

  lemma {:induction false} SwappedNodes(t: Tree, a: Node, b: Node)
    ensures Nodes(SwappedTree(t, a, b)) == SwappedSet(Nodes(t), a, b)
  {
    if t.T? {
      SwappedNodes(t.left, a, b);
      SwappedNodes(t.right, a, b);
      SwappedUnion(Nodes(t.left), t.node, Nodes(t.right), a, b);
    }
  }

  lemma {:induction false} SwappedSeparate(t: Tree, a: Node, b: Node)
    requires Separate(t)
    ensures Separate(SwappedTree(t, a, b))
  {
    hide SwappedSet, Nodes, Swapped;
    if t.T? {
      SwappedSeparate(t.left, a, b);
      SwappedSeparate(t.right, a, b);
      SwappedNodes(t.left, a, b);
      SwappedNodes(t.right, a, b);
      SwappedApart(Nodes(t.left), Nodes(t.right), a, b);
      SwappedOutside(t.node, Nodes(t.left), a, b);
      SwappedOutside(t.node, Nodes(t.right), a, b);
    }
  }

  lemma {:induction false} SwappedContextNodes(c: Context, a: Node, b: Node)
    ensures ContextNodes(SwappedContext(c, a, b)) == SwappedSet(ContextNodes(c), a, b)
  {
    hide Nodes, Swapped;
    if !c.Top? {
      var beside := if c.InLeft? then c.right else c.left;
      SwappedNodes(beside, a, b);
      SwappedContextNodes(c.up, a, b);
      SwappedUnion(Nodes(beside), c.node, ContextNodes(c.up), a, b);
      assert ContextNodes(c) == Nodes(beside) + {c.node} + ContextNodes(c.up);
    } else {
      assert ContextNodes(c) == {};
    }
  }

  lemma {:induction false} SwappedContextSeparate(c: Context, a: Node, b: Node)
    requires ContextSeparate(c)
    ensures ContextSeparate(SwappedContext(c, a, b))
  {
    hide SwappedSet, Nodes, ContextNodes, Swapped, Separate;
    if !c.Top? {
      var beside := if c.InLeft? then c.right else c.left;
      SwappedContextSeparate(c.up, a, b);
      SwappedContextNodes(c.up, a, b);
      SwappedNodes(beside, a, b);
      SwappedSeparate(beside, a, b);
      SwappedApart(Nodes(beside), ContextNodes(c.up), a, b);
      SwappedOutside(c.node, Nodes(beside), a, b);
      SwappedOutside(c.node, ContextNodes(c.up), a, b);
    }
  }

  lemma SwappedAll(s: set<Node>, u: set<Node>, a: Node, b: Node)
    requires a in s + u && b in s + u
    ensures SwappedSet(s, a, b) + SwappedSet(u, a, b) == s + u
  {}

  lemma TradeFocused(mem: Memory, mem': Memory, t: Tree, c: Context, root: Node?, a: Node, b: Node)
    requires Focused(mem, t, c, root) && TradedCells(mem, mem', a, b)
    ensures Focused(mem', SwappedTree(t, a, b), SwappedContext(c, a, b), Swapped(root, a, b))
  {
    hide *;
    TradedKeys(mem, mem', a, b);
    FocusedParts(mem, t, c, root);
    FormsSwapped(mem, mem', t, ParentOf(c), a, b);
    ContextSwapped(mem, mem', c, RootOf(t), root, a, b);
    SwappedRoots(t, c, a, b);
    SwappedNodes(t, a, b);
    SwappedSeparate(t, a, b);
    SwappedContextNodes(c, a, b);
    SwappedContextSeparate(c, a, b);
    SwappedApart(Nodes(t), ContextNodes(c), a, b);
    SwappedAll(Nodes(t), ContextNodes(c), a, b);
    FocusedWhole(mem', SwappedTree(t, a, b), SwappedContext(c, a, b), Swapped(root, a, b));
  }

  // ----- What a trade does to the order and the colours -----

  function SwappedSeq(s: seq<Node>, a: Node, b: Node): (r: seq<Node>)
    ensures |r| == |s| && forall i :: 0 <= i < |s| ==> r[i] == Swapped(s[i], a, b)
  {
    seq(|s|, i requires 0 <= i < |s| => Swapped(s[i], a, b) as Node)
  }

  lemma SwappedJoin(s: seq<Node>, u: seq<Node>, a: Node, b: Node)
    ensures SwappedSeq(s + u, a, b) == SwappedSeq(s, a, b) + SwappedSeq(u, a, b)
  {}

  lemma {:induction false} SwappedInOrder(t: Tree, a: Node, b: Node)
    ensures InOrder(SwappedTree(t, a, b)) == SwappedSeq(InOrder(t), a, b)
  {
    if t.T? {
      SwappedInOrder(t.left, a, b);
      SwappedInOrder(t.right, a, b);
      SwappedJoin(InOrder(t.left) + [t.node], InOrder(t.right), a, b);
      SwappedJoin(InOrder(t.left), [t.node], a, b);
    }
  }

  lemma {:induction false} SwappedPlug(t: Tree, c: Context, a: Node, b: Node)
    ensures Plug(SwappedContext(c, a, b), SwappedTree(t, a, b)) == SwappedTree(Plug(c, t), a, b)
    decreases c
  {
    if !c.Top? {
      SwappedPlug(UpTree(t, c), c.up, a, b);
    }
  }

  lemma {:induction false} SwappedBalanced(t: Tree, h: nat, a: Node, b: Node)
    requires Balanced(t, h)
    ensures Balanced(SwappedTree(t, a, b), h)
  {
    if t.T? {
      var below := if t.color == Red then h else h - 1;
      SwappedBalanced(t.left, below, a, b);
      SwappedBalanced(t.right, below, a, b);
    }
  }

  lemma {:induction false} SwappedHolds(c: Context, h: nat, a: Node, b: Node)
    requires Holds(c, h)
    ensures Holds(SwappedContext(c, a, b), h)
    decreases c
  {
    if !c.Top? {
      SwappedBalanced(if c.InLeft? then c.right else c.left, h, a, b);
      SwappedHolds(c.up, if c.color == Black then h + 1 else h, a, b);
    }
  }
}
