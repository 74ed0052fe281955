/**
 The steps by which a removal restores equal black heights, on tree shapes.
 */
module TreeRemoval {
  import opened TreeShapes
  import opened TreeOrder
  import opened TreeRelinking
  import opened TreeBalance

  /** The nephews of the focus: the sibling's child on the side of the focus, and the other one. */
  function Near(c: Context): Tree
    requires !c.Top? && Beside(c).T?
  {
    if c.InLeft? then c.right.left else c.left.right
  }

  function Far(c: Context): Tree
    requires !c.Top? && Beside(c).T?
  {
    if c.InLeft? then c.right.right else c.left.left
  }

  /** A tree that is one black node short of h + 1, once its root is taken to be black. */
  ghost predicate Short(t: Tree, h: nat) {
    if IsBlack(t) then Balanced(t, h) else Balanced(t.left, h) && Balanced(t.right, h)
  }

  /** All rules hold, except that every way through the focus lacks one black node. */
  ghost predicate ShortAt(t: Tree, c: Context, h: nat) {
    Short(t, h) && Holds(c, h + 1)
  }

  lemma SiblingExists(t: Tree, c: Context, h: nat)
    requires ShortAt(t, c, h) && !c.Top?
    ensures Beside(c).T? && Balanced(Beside(c), h + 1)
  {}

  lemma RedParts(t: Tree, h: nat)
    requires Balanced(t, h) && t.T? && t.color == Red
    ensures IsBlack(t.left) && IsBlack(t.right) && Balanced(t.left, h) && Balanced(t.right, h)
  {}

  lemma BlackParts(t: Tree, h: nat)
    requires Balanced(t, h) && t.T? && t.color == Black
    ensures h > 0 && Balanced(t.left, h - 1) && Balanced(t.right, h - 1)
  {}

  lemma BlackLeaf(t: Tree)
    requires Balanced(t, 0) && IsBlack(t)
    ensures t == Leaf
  {}

  // ----- A red sibling -----

  /** The parent, now red, rotated below the sibling, now black. */
  function SiblingTurned(c: Context): Context
    requires !c.Top? && Beside(c).T?
  {
    match c
    case InLeft(p, _, s, up) => InLeft(p, Red, s.left, InLeft(s.node, Black, s.right, up))
    case InRight(s, p, _, up) => InRight(s.right, p, Red, InRight(s.left, s.node, Black, up))
  }

  lemma SiblingTurnedShort(t: Tree, c: Context, h: nat)
    requires ShortAt(t, c, h) && !c.Top? && Beside(c).T? && Beside(c).color == Red
    ensures ShortAt(t, SiblingTurned(c), h) && Beside(SiblingTurned(c)).T? && Beside(SiblingTurned(c)).color == Black
    ensures Order(t, SiblingTurned(c)) == Order(t, c)
  {
    assert Balanced(Beside(c), h + 1) && c.color == Black && Holds(c.up, h + 2);
    var s, c' := Beside(c), SiblingTurned(c);
    assert Balanced(s.left, h + 1) && Balanced(s.right, h + 1);
    assert Holds(c'.up, h + 1);
    assert Holds(c', h + 1);
    OrderUp(t, c);
    OrderUp(t, c');
    OrderUp(UpTree(t, c'), c'.up);
    var whole := UpTree(UpTree(t, c'), c'.up);
    if c.InLeft? {
      RotatedLeftOrder(UpTree(t, c));
      assert InOrder(whole) == InOrder(RotatedLeft(UpTree(t, c)));
    } else {
      RotatedRightOrder(UpTree(t, c));
      assert InOrder(whole) == InOrder(RotatedRight(UpTree(t, c)));
    }
  }

  // ----- Two black nephews -----

  /** The sibling turns red: now the whole subtree above lacks one black node. */
  lemma SiblingPaintedShort(t: Tree, c: Context, h: nat)
    requires ShortAt(t, c, h) && IsBlack(t) && !c.Top? && Beside(c).T? && Beside(c).color == Black
    requires IsBlack(Near(c)) && IsBlack(Far(c))
    ensures var t' := UpTree(t, WithBeside(c, Recolored(Beside(c), Red)));
            ShortAt(t', c.up, if c.color == Red then h else h + 1) && Order(t', c.up) == Order(t, c)
  {
    var s := Recolored(Beside(c), Red);
    var t' := UpTree(t, WithBeside(c, s));
    assert Balanced(Beside(c), h + 1);
    assert Balanced(s, h);
    OrderUp(t, c);
    assert InOrder(s) == InOrder(Beside(c));
    assert InOrder(t') == InOrder(UpTree(t, c));
  }

  // ----- A red nephew -----

  /** The near nephew, now black, rotated above the sibling, now red. */
  function NephewTurned(c: Context): Context
    requires !c.Top? && Beside(c).T? && Near(c).T?
  {
    match c
    case InLeft(p, pc, s, up) =>
      InLeft(p, pc, T(s.left.left, s.left.node, Black, T(s.left.right, s.node, Red, s.right)), up)
    case InRight(s, p, pc, up) =>
      InRight(T(T(s.left, s.node, Red, s.right.left), s.right.node, Black, s.right.right), p, pc, up)
  }

  lemma NephewTurnedShort(t: Tree, c: Context, h: nat)
    requires ShortAt(t, c, h) && !c.Top? && Beside(c).T? && Beside(c).color == Black
    requires !IsBlack(Near(c)) && IsBlack(Far(c))
    ensures var c' := NephewTurned(c);
            ShortAt(t, c', h) && !IsBlack(Far(c')) && Order(t, c') == Order(t, c)
  {
    var s, c' := Beside(c), NephewTurned(c);
    BlackParts(s, h + 1);
    RedParts(Near(c), h);
    assert Balanced(Far(c'), h) && Balanced(Near(c'), h);
    assert Balanced(Beside(c'), h + 1);
    if c.InLeft? {
      RotatedRightOrder(s);
      assert InOrder(Beside(c')) == InOrder(RotatedRight(s));
    } else {
      RotatedLeftOrder(s);
      assert InOrder(Beside(c')) == InOrder(RotatedLeft(s));
    }
  }

  /** The parent, now black, rotated below the sibling, which takes the parent's colour. */
  function Finished(t: Tree, c: Context): Tree
    requires !c.Top? && Beside(c).T? && Far(c).T?
  {
    match c
    case InLeft(p, pc, s, _) => T(T(t, p, Black, s.left), s.node, pc, Recolored(s.right, Black))
    case InRight(s, p, pc, _) => T(Recolored(s.left, Black), s.node, pc, T(s.right, p, Black, t))
  }

  lemma FinishedRedBlack(t: Tree, c: Context, h: nat)
    requires ShortAt(t, c, h) && IsBlack(t) && !c.Top? && Beside(c).T? && Beside(c).color == Black && !IsBlack(Far(c))
    ensures RedBlack(Plug(c.up, Finished(t, c))) && InOrder(Plug(c.up, Finished(t, c))) == Order(t, c)
  {
    var s, f := Beside(c), Finished(t, c);
    BlackParts(s, h + 1);
    RedParts(Far(c), h);
    assert Balanced(Near(c), h) && Balanced(Recolored(Far(c), Black), h + 1);
    OrderUp(t, c);
    PlugOrder(f, c.up);
    if c.InLeft? {
      RotatedLeftOrder(UpTree(t, c));
      assert Balanced(T(t, c.node, Black, s.left), h + 1);
      assert InOrder(f) == InOrder(RotatedLeft(UpTree(t, c)));
    } else {
      RotatedRightOrder(UpTree(t, c));
      assert Balanced(T(s.right, c.node, Black, t), h + 1);
      assert InOrder(f) == InOrder(RotatedRight(UpTree(t, c)));
    }
    if c.color == Black {
      HoldsPlug(f, c.up, h + 2);
    } else {
      HoldsPlugRed(f, c.up, h + 1);
    }
  }

  lemma WholeShort(t: Tree, h: nat)
    requires RedBlack(t) && Balanced(t, h)
    ensures ShortAt(t, Top, h) && IsBlack(t) && Order(t, Top) == InOrder(t)
  {}

  /** At the end the focus turns black, which is what it lacked. */
  lemma ShortSettled(t: Tree, c: Context, h: nat)
    requires ShortAt(t, c, h) && t.T? && (c.Top? || !IsBlack(t))
    ensures RedBlack(Plug(c, Recolored(t, Black))) && InOrder(Plug(c, Recolored(t, Black))) == Order(t, c)
  {
    PlugOrder(Recolored(t, Black), c);
    if IsBlack(t) {
      HoldsPlug(t, c, h);
    } else {
      assert Balanced(Recolored(t, Black), h + 1);
      HoldsPlug(Recolored(t, Black), c, h + 1);
    }
  }

  // ----- What the painting does to the memory -----

  lemma NephewFacts(mem: Memory, t: Tree, c: Context, root: Node?)
    requires Focused(mem, t, c, root) && !c.Top? && Beside(c).T?
    ensures Near(c).T? ==> Near(c).node in mem && mem[Near(c).node].color == Near(c).color
    ensures Far(c).T? ==> Far(c).node in mem && mem[Far(c).node].color == Far(c).color
  {
    FocusAcross(mem, t, c, root);
    FocusedParts(mem, Beside(c), Across(t, c), root);
    Unfold(mem, Beside(c), c.node);
    if Near(c).T? {
      Unfold(mem, Near(c), Beside(c).node);
    }
    if Far(c).T? {
      Unfold(mem, Far(c), Beside(c).node);
    }
  }

  function WithNear(s: Tree, c: Context, n: Tree): Tree
    requires s.T?
  {
    if c.InLeft? then s.(left := n) else s.(right := n)
  }

  function WithFar(s: Tree, c: Context, n: Tree): Tree
    requires s.T?
  {
    if c.InLeft? then s.(right := n) else s.(left := n)
  }

  lemma PaintLeftFocused(mem: Memory, t: Tree, c: Context, root: Node?, color: Color)
    requires Focused(mem, t, c, root) && t.T? && t.left.T?
    ensures t.left.node in mem
    ensures Focused(Painted(mem, t.left.node, color), t.(left := Recolored(t.left, color)), c, root)
  {
    hide Focused, Painted;
    FocusLeft(mem, t, c, root);
    var c1 := InLeft(t.node, t.color, t.right, c);
    PaintFocused(mem, t.left, c1, root, color);
    FocusUp(Painted(mem, t.left.node, color), Recolored(t.left, color), c1, root);
  }

  lemma PaintRightFocused(mem: Memory, t: Tree, c: Context, root: Node?, color: Color)
    requires Focused(mem, t, c, root) && t.T? && t.right.T?
    ensures t.right.node in mem
    ensures Focused(Painted(mem, t.right.node, color), t.(right := Recolored(t.right, color)), c, root)
  {
    hide Focused, Painted;
    FocusRight(mem, t, c, root);
    var c1 := InRight(t.left, t.node, t.color, c);
    PaintFocused(mem, t.right, c1, root, color);
    FocusUp(Painted(mem, t.right.node, color), Recolored(t.right, color), c1, root);
  }

  /** The sibling black and the parent red, seen from the parent. */
  lemma SiblingReadyFocused(mem: Memory, t: Tree, c: Context, root: Node?)
    requires Focused(mem, t, c, root) && !c.Top? && Beside(c).T?
    ensures c.node in mem && Beside(c).node in mem
    ensures Focused(Painted(Painted(mem, Beside(c).node, Black), c.node, Red),
                    UpTree(t, RecoloredContext(WithBeside(c, Recolored(Beside(c), Black)), Red)), c.up, root)
  {
    hide Focused, Painted;
    PaintBesideFocused(mem, t, c, root, Black);
    var m1, c1 := Painted(mem, Beside(c).node, Black), WithBeside(c, Recolored(Beside(c), Black));
    PaintParentFocused(m1, t, c1, root, Red);
    FocusUp(Painted(m1, c.node, Red), t, RecoloredContext(c1, Red), root);
  }

  /** The near nephew black and the sibling red, seen from the sibling. */
  lemma NephewReadyFocused(mem: Memory, t: Tree, c: Context, root: Node?)
    requires Focused(mem, t, c, root) && !c.Top? && Beside(c).T? && Near(c).T?
    ensures Near(c).node in mem && Beside(c).node in mem
    ensures Focused(Painted(Painted(mem, Near(c).node, Black), Beside(c).node, Red),
                    Recolored(WithNear(Beside(c), c, Recolored(Near(c), Black)), Red), Across(t, c), root)
  {
    hide Focused, Painted;
    FocusAcross(mem, t, c, root);
    if c.InLeft? {
      PaintLeftFocused(mem, Beside(c), Across(t, c), root, Black);
    } else {
      PaintRightFocused(mem, Beside(c), Across(t, c), root, Black);
    }
    PaintFocused(Painted(mem, Near(c).node, Black), WithNear(Beside(c), c, Recolored(Near(c), Black)), Across(t, c), root, Red);
  }

  /** The sibling in the parent's colour, the parent and the far nephew black, seen from the parent. */
  lemma FinishReadyFocused(mem: Memory, t: Tree, c: Context, root: Node?)
    requires Focused(mem, t, c, root) && !c.Top? && Beside(c).T? && Far(c).T?
    ensures Far(c).node in mem && Beside(c).node in mem && c.node in mem
    ensures Focused(Painted(Painted(Painted(mem, Beside(c).node, c.color), c.node, Black), Far(c).node, Black),
                    UpTree(t, RecoloredContext(
                             WithBeside(c, WithFar(Recolored(Beside(c), c.color), c, Recolored(Far(c), Black))), Black)),
                    c.up, root)
  {
    hide Focused, Painted;
    PaintBesideFocused(mem, t, c, root, c.color);
    var m1, c1 := Painted(mem, Beside(c).node, c.color), WithBeside(c, Recolored(Beside(c), c.color));
    PaintParentFocused(m1, t, c1, root, Black);
    var m2, c2 := Painted(m1, c.node, Black), RecoloredContext(c1, Black);
    FocusAcross(m2, t, c2, root);
    if c.InLeft? {
      PaintRightFocused(m2, Beside(c2), Across(t, c2), root, Black);
    } else {
      PaintLeftFocused(m2, Beside(c2), Across(t, c2), root, Black);
    }
    var m3, s3 := Painted(m2, Far(c).node, Black), WithFar(Beside(c2), c, Recolored(Far(c), Black));
    FocusBack(m3, t, c2, root, s3);
    FocusUp(m3, t, WithBeside(c2, s3), root);
  }

  // ----- From the whole tree to a focus, and the spliced node -----

  lemma {:induction false} SoundUnplug(t: Tree, c: Context) returns (h: nat)
    requires RedBlack(Plug(c, t))
    ensures Sound(t, c, h)
    decreases c
  {
    if c.Top? {
      h := BlackHeight(t);
    } else {
      var h1 := SoundUnplug(UpTree(t, c), c.up);
      h := SoundDown(UpTree(t, c), c.up, h1);
    }
  }

  /** Without a red node that had at most one child all rules still hold. */
  lemma RedSpliced(t: Tree, c: Context, h: nat)
    requires Sound(t, c, h) && t.T? && t.color == Red && (t.left.Leaf? || t.right.Leaf?)
    ensures OnlyChild(t) == Leaf && RedBlack(Plug(c, Leaf))
  {
    RedParts(t, h);
    BlackLeaf(t.left);
    BlackLeaf(t.right);
    HoldsPlug(Leaf, c, 0);
  }

  /** Without a black node that had at most one child its place lacks a black node. */
  lemma BlackSpliced(t: Tree, c: Context, h: nat)
    requires Sound(t, c, h) && t.T? && t.color == Black && (t.left.Leaf? || t.right.Leaf?)
    ensures h > 0 && ShortAt(OnlyChild(t), c, h - 1)
  {
    HoldsDown(t, c, h);
    var child := OnlyChild(t);
    assert Balanced(child, h - 1);
  }

  lemma SplicedOrder(t: Tree, c: Context)
    requires t.T? && (t.left.Leaf? || t.right.Leaf?)
    ensures Order(OnlyChild(t), c) == (Before(c) + InOrder(t.left)) + (InOrder(t.right) + After(c))
    ensures Order(t, c) == (Before(c) + InOrder(t.left)) + [t.node] + (InOrder(t.right) + After(c))
  {
    assert InOrder(Leaf) == [];
    assert InOrder(OnlyChild(t)) == InOrder(t.left) + InOrder(t.right);
    Joined(Before(c), InOrder(t.left), InOrder(t.right), After(c));
    JoinedAround(Before(c), InOrder(t.left), t.node, InOrder(t.right), After(c));
  }

  /** After trading places with its successor a node comes behind it, and nothing else has moved. */
  lemma TradedOrder(t: Tree, c: Context, n: Node, s: Node) returns (h': nat)
    requires t.T? && t.node == s && t.left.Leaf? && Distinct(Order(t, c)) && Follows(Order(t, c), n, s)
    requires RedBlack(Plug(c, t)) && n in Order(t, c)
    ensures var t', c' := SwappedTree(t, n, s), SwappedContext(c, n, s);
            t'.T? && t'.node == n && t'.left.Leaf? && Sound(t', c', h') &&
            Without(Order(t', c'), n) == Without(Order(t, c), n)
  {
    h' := SoundUnplug(t, c);
    var t', c' := SwappedTree(t, n, s), SwappedContext(c, n, s);
    SwappedBalanced(t, h', n, s);
    SwappedHolds(c, h', n, s);
    SwappedPlug(t, c, n, s);
    SwappedInOrder(Plug(c, t), n, s);
    PlugOrder(t, c);
    PlugOrder(t', c');
    hide Holds, Balanced, Plug, Order, InOrder;
    SwappedNeighbours(Order(t, c), n, s);
  }

  lemma SwappedNeighbours(order: seq<Node>, n: Node, s: Node)
    requires Distinct(order) && Follows(order, n, s) && n in order
    ensures Without(SwappedSeq(order, n, s), n) == Without(order, n)
  {
    var a, b := NeighboursSplit(order, n, s);
    SwappedPair(a, n, s, b);
    WithoutAt(a, n, [s] + b);
    WithoutAt(a + [s], n, b);
    assert a + ([s] + b) == (a + [s]) + b;
  }

  lemma NeighboursSplit(order: seq<Node>, n: Node, s: Node) returns (a: seq<Node>, b: seq<Node>)
    requires Distinct(order) && Follows(order, n, s) && n in order
    ensures order == a + [n] + ([s] + b)
    ensures n != s && n !in a && s !in a && n !in b && s !in b
  {
    var i :| 0 <= i < |order| && order[i] == n;
    var next: Node? := s;
    assert next == if i + 1 < |order| then order[i + 1] else null;
    assert next != null;
    assert i + 1 < |order| && order[i + 1] == s;
    a, b := order[..i], order[i + 2..];
  }

  lemma Untouched(a: seq<Node>, n: Node, s: Node)
    requires n !in a && s !in a
    ensures SwappedSeq(a, n, s) == a
  {}

  lemma SwappedPair(a: seq<Node>, n: Node, s: Node, b: seq<Node>)
    requires n != s && n !in a && s !in a && n !in b && s !in b
    ensures SwappedSeq(a + [n] + ([s] + b), n, s) == (a + [s]) + [n] + b
  {
    Untouched(a, n, s);
    Untouched(b, n, s);
    SwappedJoin(a + [n], [s] + b, n, s);
    SwappedJoin(a, [n], n, s);
    SwappedJoin([s], b, n, s);
    assert SwappedSeq([n], n, s) == [s] && SwappedSeq([s], n, s) == [n];
    assert (a + [s]) + ([n] + b) == (a + [s]) + [n] + b;
  }

  lemma WithoutAround(t: Tree, c: Context)
    requires t.T? && (t.left.Leaf? || t.right.Leaf?) && Distinct(Order(t, c))
    ensures Without(Order(t, c), t.node) == Order(OnlyChild(t), c)
  {
    SplicedOrder(t, c);
    var a, b := Before(c) + InOrder(t.left), InOrder(t.right) + After(c);
    hide InOrder, Before, After, Order;
    NotBefore(a, t.node, b);
    WithoutAt(a, t.node, b);
  }

  lemma NotBefore(a: seq<Node>, n: Node, b: seq<Node>)
    requires Distinct(a + [n] + b)
    ensures n !in a
  {
    var s := a + [n] + b;
    assert s[|a|] == n;
    forall i | 0 <= i < |a| ensures a[i] != n {
      assert s[i] == a[i];
    }
  }

  lemma WithoutSize(s: seq<Node>, n: Node)
    requires n in s
    ensures |Without(s, n)| == |s| - 1
  {
    WithoutCounts(s, n);
    assert |multiset(Without(s, n))| == |multiset(s)| - 1;
  }

  /** The minimum moves on to the successor exactly when the first node goes. */
  lemma MinimumWithout(s: seq<Node>, n: Node, m: Node?, next: Node?)
    requires Distinct(s) && n in s && m == FirstOf(s) && (m == n ==> Follows(s, n, next)) && |s| > 1
    ensures FirstOf(Without(s, n)) == if m == n then next else m
  {
    if s[0] == n {
      assert s[1..][0] == s[1];
    }
  }

  lemma LastNode(mem: Memory, shape: Tree, root: Node?, n: Node)
    requires Focused(mem, shape, Top, root) && |InOrder(shape)| == 1 && n in mem
    ensures mem.Keys == {n} && Without(InOrder(shape), n) == []
  {
    FocusedParts(mem, shape, Top, root);
    assert |InOrder(shape.left)| == 0 && |InOrder(shape.right)| == 0;
    NoOrderNoTree(shape.left);
    NoOrderNoTree(shape.right);
    assert Nodes(Leaf) == {};
    assert InOrder(shape) == [shape.node];
  }

  lemma EmptyTree()
    ensures Focused(map[], Leaf, Top, null) && RedBlack(Leaf) && InOrder(Leaf) == [] && Sorted([])
  {
    assert Balanced(Leaf, 0);
  }

  // ----- The memory without a spliced node -----

  lemma SpliceFacts(mem: Memory, t: Tree, c: Context, root: Node?)
    requires Focused(mem, t, c, root) && t.T?
    ensures t.node in mem && (!c.Top? ==> c.node in mem && c.node != t.node)
    ensures t.left.T? ==> t.left.node in mem && t.left.node != t.node && (c.Top? || c.node != t.left.node)
    ensures t.right.T? ==> t.right.node in mem && t.right.node != t.node && (c.Top? || c.node != t.right.node)
    ensures c.InLeft? ==> mem[c.node].left == t.node
    ensures c.InRight? ==> mem[c.node].left != t.node && mem[c.node].right == t.node
  {
    FocusedParts(mem, t, c, root);
    Unfold(mem, t, ParentOf(c));
    SideFacts(mem, t, c, root);
  }

  ghost function SplicedMemory(mem: Memory, n: Node, child: Node?, parent: Node?): Memory
    requires (child != null ==> child in mem) && (parent != null ==> parent in mem)
  {
    RepointedMemory(ParentSet(mem, child, parent), parent, n, child) - {n}
  }

  lemma SplicedCells(mem: Memory, t: Tree, c: Context, root: Node?)
    requires Focused(mem, t, c, root) && t.T? && (t.left.Leaf? || t.right.Leaf?)
    ensures (OnlyChild(t).T? ==> OnlyChild(t).node in mem) && (c.Top? || c.node in mem)
    ensures SpliceCells(mem, SplicedMemory(mem, t.node, RootOf(OnlyChild(t)), ParentOf(c)), t, OnlyChild(t), c)
  {
    hide Focused;
    SpliceFacts(mem, t, c, root);
  }
}
