/**
 The steps by which insertion and removal restore the red-black rules, on tree shapes.
 */
module TreeBalance {
  import opened TreeShapes
  import opened TreeOrder
  import opened TreeRelinking

  /** The cells of a node, of one of its children and of its parent, and that they are different nodes. */
  lemma RotationFacts(mem: Memory, t: Tree, c: Context, root: Node?, child: Tree)
    requires Focused(mem, t, c, root) && t.T? && child.T? && (child == t.left || child == t.right)
    ensures t.node in mem && mem[t.node] == Cell(RootOf(t.left), RootOf(t.right), ParentOf(c), t.color)
    ensures child.node in mem && mem[child.node] == Cell(RootOf(child.left), RootOf(child.right), t.node, child.color)
    ensures t.node != child.node
    ensures child.left.T? ==> child.left.node in mem && child.left.node !in {t.node, child.node}
    ensures child.right.T? ==> child.right.node in mem && child.right.node !in {t.node, child.node}
    ensures !c.Top? ==>
              c.node in mem && c.node !in {t.node, child.node} &&
              (child.left.T? ==> c.node != child.left.node) && (child.right.T? ==> c.node != child.right.node) &&
              (c.InLeft? ==> mem[c.node].left == t.node) &&
              (c.InRight? ==> mem[c.node].right == t.node && mem[c.node].left != t.node)
  {
    FocusedParts(mem, t, c, root);
    Unfold(mem, t, ParentOf(c));
    Unfold(mem, child, t.node);
    SideFacts(mem, t, c, root);
  }

  /** On which side of its parent the focus hangs can be read from the pointers. */
  lemma SideFacts(mem: Memory, t: Tree, c: Context, root: Node?)
    requires Focused(mem, t, c, root)
    ensures !c.Top? ==> c.node in ContextNodes(c) && c.node in mem && mem[c.node].parent == ParentOf(c.up)
    ensures c.InLeft? ==> mem[c.node].left == RootOf(t) && mem[c.node].right == RootOf(c.right)
    ensures c.InRight? ==> mem[c.node].right == RootOf(t) && mem[c.node].left == RootOf(c.left)
    ensures c.InLeft? && c.right.T? ==> c.right.node != RootOf(t)
    ensures c.InRight? && c.left.T? ==> c.left.node != RootOf(t)
    ensures c.InLeft? && t.T? ==> mem[c.node].right != t.node
    ensures c.InRight? && t.T? ==> mem[c.node].left != t.node
    ensures !c.Top? ==> mem[c.node].color == c.color
  {
    assert c.InLeft? && c.right.T? ==> c.right.node in ContextNodes(c);
    assert c.InRight? && c.left.T? ==> c.left.node in ContextNodes(c);
    assert t.T? ==> t.node in Nodes(t);
  }

  // ----- The memory after a rotation -----

  ghost function RepointedMemory(mem: Memory, parent: Node?, child: Node?, other: Node?): (mem': Memory)
    requires parent != null ==> parent in mem
    ensures mem'.Keys == mem.Keys
  {
    if parent == null then mem
    else if mem[parent].left == child then mem[parent := mem[parent].(left := other)]
    else mem[parent := mem[parent].(right := other)]
  }

  ghost function ParentSet(mem: Memory, n: Node?, parent: Node?): (mem': Memory)
    requires n != null ==> n in mem
    ensures mem'.Keys == mem.Keys
  {
    if n == null then mem else mem[n := mem[n].(parent := parent)]
  }

  ghost function RotatedLeftMemory(mem: Memory, x: Node, pivot: Node, middle: Node?, parent: Node?): Memory
    requires x in mem && pivot in mem && (middle != null ==> middle in mem) && (parent != null ==> parent in mem)
  {
    var m1 := ParentSet(mem[x := mem[x].(right := middle)], middle, x);
    var m2 := m1[pivot := m1[pivot].(left := x)];
    var m3 := ParentSet(ParentSet(m2, x, pivot), pivot, parent);
    RepointedMemory(m3, parent, x, pivot)
  }

  ghost function RotatedRightMemory(mem: Memory, x: Node, pivot: Node, middle: Node?, parent: Node?): Memory
    requires x in mem && pivot in mem && (middle != null ==> middle in mem) && (parent != null ==> parent in mem)
  {
    var m1 := ParentSet(mem[x := mem[x].(left := middle)], middle, x);
    var m2 := m1[pivot := m1[pivot].(right := x)];
    var m3 := ParentSet(ParentSet(m2, x, pivot), pivot, parent);
    RepointedMemory(m3, parent, x, pivot)
  }

  lemma RotatedLeftCells(mem: Memory, t: Tree, c: Context, root: Node?)
    requires Focused(mem, t, c, root) && t.T? && t.right.T?
    ensures t.node in mem && t.right.node in mem && (t.right.left.T? ==> t.right.left.node in mem)
    ensures !c.Top? ==> c.node in mem
    ensures var mem' := RotatedLeftMemory(mem, t.node, t.right.node, RootOf(t.right.left), ParentOf(c));
            RotationCells(mem, mem', t.right.node, Cell(t.node, RootOf(t.right.right), ParentOf(c), t.right.color),
                          t.node, Cell(RootOf(t.left), RootOf(t.right.left), t.right.node, t.color), t.right.left, c)
  {
    hide Focused, Nodes, ContextNodes, Forms, FormsContext, Separate, ContextSeparate;
    RotationFacts(mem, t, c, root, t.right);
  }

  lemma RotatedLeftRights(mem: Memory, t: Tree, c: Context, root: Node?)
    requires Focused(mem, t, c, root) && t.T? && t.right.T?
    ensures t.node in mem && t.right.node in mem && (t.right.left.T? ==> t.right.left.node in mem)
    ensures !c.Top? ==> c.node in mem
    ensures var mem' := RotatedLeftMemory(mem, t.node, t.right.node, RootOf(t.right.left), ParentOf(c));
            forall n :: n in mem && mem[n].right == null ==> n in mem' && mem'[n].right == null
  {
    hide Focused, Nodes, ContextNodes, Forms, FormsContext, Separate, ContextSeparate;
    RotationFacts(mem, t, c, root, t.right);
  }

  lemma RotatedRightCells(mem: Memory, t: Tree, c: Context, root: Node?)
    requires Focused(mem, t, c, root) && t.T? && t.left.T?
    ensures t.node in mem && t.left.node in mem && (t.left.right.T? ==> t.left.right.node in mem)
    ensures !c.Top? ==> c.node in mem
    ensures var mem' := RotatedRightMemory(mem, t.node, t.left.node, RootOf(t.left.right), ParentOf(c));
            RotationCells(mem, mem', t.left.node, Cell(RootOf(t.left.left), t.node, ParentOf(c), t.left.color),
                          t.node, Cell(RootOf(t.left.right), RootOf(t.right), t.left.node, t.color), t.left.right, c)
  {
    hide Focused, Nodes, ContextNodes, Forms, FormsContext, Separate, ContextSeparate;
    RotationFacts(mem, t, c, root, t.left);
  }

  lemma RotatedRightRights(mem: Memory, t: Tree, c: Context, root: Node?)
    requires Focused(mem, t, c, root) && t.T? && t.left.T?
    ensures t.node in mem && t.left.node in mem && (t.left.right.T? ==> t.left.right.node in mem)
    ensures !c.Top? ==> c.node in mem
    ensures var mem' := RotatedRightMemory(mem, t.node, t.left.node, RootOf(t.left.right), ParentOf(c));
            forall n :: n in mem && n != t.left.node && mem[n].right == null ==> n in mem' && mem'[n].right == null
  {
    hide Focused, Nodes, ContextNodes, Forms, FormsContext, Separate, ContextSeparate;
    RotationFacts(mem, t, c, root, t.left);
  }

  lemma LeftRotation(mem: Memory, mem': Memory, t: Tree, c: Context, root: Node?, root': Node?)
    requires Focused(mem, t, c, root) && t.T? && t.right.T?
    requires t.node in mem && t.right.node in mem && (t.right.left.T? ==> t.right.left.node in mem)
    requires !c.Top? ==> c.node in mem
    requires mem' == RotatedLeftMemory(mem, t.node, t.right.node, RootOf(t.right.left), ParentOf(c))
    requires root' == if c.Top? then t.right.node else root
    ensures Focused(mem', RotatedLeft(t), c, root') && mem'.Keys == mem.Keys
    ensures forall n :: n in mem && mem[n].right == null ==> mem'[n].right == null
  {
    RotatedLeftCells(mem, t, c, root);
    RotatedLeftRights(mem, t, c, root);
    hide RotatedLeftMemory, Focused;
    RotateLeftFocused(mem, mem', t, c, root, root');
  }

  lemma RightRotation(mem: Memory, mem': Memory, t: Tree, c: Context, root: Node?, root': Node?)
    requires Focused(mem, t, c, root) && t.T? && t.left.T?
    requires t.node in mem && t.left.node in mem && (t.left.right.T? ==> t.left.right.node in mem)
    requires !c.Top? ==> c.node in mem
    requires mem' == RotatedRightMemory(mem, t.node, t.left.node, RootOf(t.left.right), ParentOf(c))
    requires root' == if c.Top? then t.left.node else root
    ensures Focused(mem', RotatedRight(t), c, root') && mem'.Keys == mem.Keys
    ensures forall n :: n in mem && n != t.left.node && mem[n].right == null ==> mem'[n].right == null
  {
    RotatedRightCells(mem, t, c, root);
    RotatedRightRights(mem, t, c, root);
    hide RotatedRightMemory, Focused;
    RotateRightFocused(mem, mem', t, c, root, root');
  }

  // ----- Looking around from the focus -----

  function Beside(c: Context): Tree
    requires !c.Top?
  {
    if c.InLeft? then c.right else c.left
  }

  lemma NodeFacts(mem: Memory, t: Tree, c: Context, root: Node?)
    requires Focused(mem, t, c, root) && t.T?
    ensures t.node in mem && mem[t.node] == Cell(RootOf(t.left), RootOf(t.right), ParentOf(c), t.color)
  {}

  lemma BesideFacts(mem: Memory, t: Tree, c: Context, root: Node?)
    requires Focused(mem, t, c, root) && !c.Top?
    ensures Beside(c).T? ==>
              Beside(c).node in mem &&
              mem[Beside(c).node] == Cell(RootOf(Beside(c).left), RootOf(Beside(c).right), c.node, Beside(c).color)
  {
    FocusUp(mem, t, c, root);
    var up := UpTree(t, c);
    if c.InLeft? {
      FocusRight(mem, up, c.up, root);
    } else {
      FocusLeft(mem, up, c.up, root);
    }
  }

  lemma RootFacts(mem: Memory, t: Tree, c: Context, root: Node?)
    requires Focused(mem, t, c, root)
    ensures c.Top? <==> root == RootOf(t)
    ensures !c.Top? ==> root != null
  {
    RootInContext(mem, c, RootOf(t), root);
  }

  lemma OrderDistinct(mem: Memory, t: Tree, c: Context, root: Node?)
    requires Focused(mem, t, c, root)
    ensures Distinct(Order(t, c))
  {
    FocusTop(mem, t, c, root);
    InOrderDistinct(Plug(c, t));
    PlugOrder(t, c);
  }

  function Depth(c: Context): nat {
    if c.Top? then 0 else 1 + Depth(c.up)
  }

  // ----- Insertion: a red node whose parent may be red -----

  /** All rules hold, except that the focus is red and its parent, or the root, may be red with it. */
  ghost predicate RedAt(t: Tree, c: Context, h: nat) {
    t.T? && t.color == Red && Balanced(t, h) && Holds(c, h)
  }

  lemma GrandparentFacts(mem: Memory, t: Tree, c: Context, root: Node?, h: nat)
    requires Focused(mem, t, c, root) && RedAt(t, c, h) && !c.Top? && c.color == Red
    ensures !c.up.Top? && c.up.color == Black
    ensures Focused(mem, UpTree(t, c), c.up, root) && c.node in mem && c.up.node in mem
    ensures mem[t.node].parent == c.node && mem[c.node].parent == c.up.node
    ensures mem[c.node].left == t.node <==> c.InLeft?
    ensures mem[c.node].right == t.node <==> c.InRight?
    ensures mem[c.up.node].right == c.node <==> c.up.InRight?
    ensures c.up.InRight? ==> mem[c.up.node].left == RootOf(Beside(c.up))
    ensures c.up.InLeft? ==> mem[c.up.node].right == RootOf(Beside(c.up))
    ensures Beside(c.up).T? ==> Beside(c.up).node in mem && mem[Beside(c.up).node].color == Beside(c.up).color
  {
    NodeFacts(mem, t, c, root);
    SideFacts(mem, t, c, root);
    FocusUp(mem, t, c, root);
    SideFacts(mem, UpTree(t, c), c.up, root);
    BesideFacts(mem, UpTree(t, c), c.up, root);
  }

  /** The subtree two levels up with its root red and both the children of that root black. */
  function PushedUp(t: Tree, c: Context): Tree
    requires !c.Top? && !c.up.Top? && Beside(c.up).T?
  {
    var parent := UpTree(t, RecoloredContext(c, Black));
    var uncle := Recolored(Beside(c.up), Black);
    if c.up.InLeft? then T(parent, c.up.node, Red, uncle) else T(uncle, c.up.node, Red, parent)
  }

  ghost function Painted(mem: Memory, n: Node, color: Color): (mem': Memory)
    requires n in mem
    ensures mem'.Keys == mem.Keys
  {
    mem[n := mem[n].(color := color)]
  }

  lemma PaintedRight(mem: Memory, n: Node, color: Color, k: Node)
    requires n in mem && k in mem
    ensures Painted(mem, n, color)[k].right == mem[k].right
  {}

  /** Painting the root of the focus. */
  lemma PaintFocused(mem: Memory, t: Tree, c: Context, root: Node?, color: Color)
    requires Focused(mem, t, c, root) && t.T?
    ensures t.node in mem && Focused(Painted(mem, t.node, color), Recolored(t, color), c, root)
  {
    hide Focused;
    RecolorFocused(mem, t, c, root, color);
  }

  /** Painting the parent of the focus. */
  lemma PaintParentFocused(mem: Memory, t: Tree, c: Context, root: Node?, color: Color)
    requires Focused(mem, t, c, root) && !c.Top?
    ensures c.node in mem && Focused(Painted(mem, c.node, color), t, RecoloredContext(c, color), root)
  {
    hide Focused;
    RecolorParentFocused(mem, t, c, root, color);
  }

  /** The context with the sibling subtree of the focus replaced. */
  function WithBeside(c: Context, s: Tree): Context
    requires !c.Top?
  {
    match c
    case InLeft(n, color, _, up) => InLeft(n, color, s, up)
    case InRight(_, n, color, up) => InRight(s, n, color, up)
  }

  /** The focus moved to the sibling. */
  function Across(t: Tree, c: Context): Context
    requires !c.Top?
  {
    match c
    case InLeft(n, color, _, up) => InRight(t, n, color, up)
    case InRight(_, n, color, up) => InLeft(n, color, t, up)
  }

  lemma FocusAcross(mem: Memory, t: Tree, c: Context, root: Node?)
    requires Focused(mem, t, c, root) && !c.Top?
    ensures Focused(mem, Beside(c), Across(t, c), root)
  {
    hide Focused;
    FocusUp(mem, t, c, root);
    if c.InLeft? {
      FocusRight(mem, UpTree(t, c), c.up, root);
    } else {
      FocusLeft(mem, UpTree(t, c), c.up, root);
    }
  }

  lemma FocusBack(mem: Memory, t: Tree, c: Context, root: Node?, s: Tree)
    requires !c.Top? && Focused(mem, s, Across(t, c), root)
    ensures Focused(mem, t, WithBeside(c, s), root)
  {
    hide Focused;
    FocusAcross(mem, s, Across(t, c), root);
  }

  /** Painting the sibling of the focus. */
  lemma PaintBesideFocused(mem: Memory, t: Tree, c: Context, root: Node?, color: Color)
    requires Focused(mem, t, c, root) && !c.Top? && Beside(c).T?
    ensures Beside(c).node in mem
    ensures Focused(Painted(mem, Beside(c).node, color), t, WithBeside(c, Recolored(Beside(c), color)), root)
  {
    hide Focused;
    FocusAcross(mem, t, c, root);
    PaintFocused(mem, Beside(c), Across(t, c), root, color);
    FocusBack(Painted(mem, Beside(c).node, color), t, c, root, Recolored(Beside(c), color));
  }

  lemma PushedUpFocused(mem: Memory, t: Tree, c: Context, root: Node?)
    requires Focused(mem, t, c, root) && !c.Top? && !c.up.Top? && Beside(c.up).T?
    ensures c.node in mem && Beside(c.up).node in mem && c.up.node in mem
    ensures Focused(Painted(Painted(Painted(mem, c.node, Black), Beside(c.up).node, Black), c.up.node, Red),
                    PushedUp(t, c), c.up.up, root)
  {
    hide Focused, Painted;
    PaintParentFocused(mem, t, c, root, Black);
    var m1 := Painted(mem, c.node, Black);
    var c1 := RecoloredContext(c, Black);
    FocusUp(m1, t, c1, root);
    PaintBesideFocused(m1, UpTree(t, c1), c1.up, root, Black);
    var m2 := Painted(m1, Beside(c.up).node, Black);
    var c2 := WithBeside(c1.up, Recolored(Beside(c1.up), Black));
    PaintParentFocused(m2, UpTree(t, c1), c2, root, Red);
    FocusUp(Painted(m2, c.up.node, Red), UpTree(t, c1), RecoloredContext(c2, Red), root);
  }

  /** The parent black and the grandparent red, seen from the grandparent. */
  lemma ReadyToTurnFocused(mem: Memory, t: Tree, c: Context, root: Node?)
    requires Focused(mem, t, c, root) && !c.Top? && !c.up.Top?
    ensures c.node in mem && c.up.node in mem
    ensures Focused(Painted(Painted(mem, c.node, Black), c.up.node, Red),
                    UpTree(UpTree(t, RecoloredContext(c, Black)), RecoloredContext(c.up, Red)), c.up.up, root)
  {
    hide Focused, Painted;
    PaintParentFocused(mem, t, c, root, Black);
    var m1 := Painted(mem, c.node, Black);
    var c1 := RecoloredContext(c, Black);
    FocusUp(m1, t, c1, root);
    PaintParentFocused(m1, UpTree(t, c1), c.up, root, Red);
    FocusUp(Painted(m1, c.up.node, Red), UpTree(t, c1), RecoloredContext(c.up, Red), root);
  }

  lemma PushedUpRedAt(t: Tree, c: Context, h: nat)
    requires RedAt(t, c, h) && !c.Top? && c.color == Red && !c.up.Top? && c.up.color == Black
    requires Beside(c.up).T? && Beside(c.up).color == Red
    ensures RedAt(PushedUp(t, c), c.up.up, h + 1)
    ensures Order(PushedUp(t, c), c.up.up) == Order(t, c)
  {
    assert Holds(c.up, h) && Balanced(Beside(c), h) && Balanced(Beside(c.up), h);
    assert Holds(c.up.up, h + 1);
    var parent := UpTree(t, RecoloredContext(c, Black));
    var uncle := Recolored(Beside(c.up), Black);
    assert Balanced(parent, h + 1) && Balanced(uncle, h + 1);
    OrderUp(t, c);
    OrderUp(UpTree(t, c), c.up);
    assert InOrder(parent) == InOrder(UpTree(t, c)) && InOrder(uncle) == InOrder(Beside(c.up));
  }

  /** The inner grandchild rotated to the outside: it becomes the parent. */
  lemma TurnedOutRedAt(t: Tree, c: Context, h: nat)
    requires RedAt(t, c, h) && !c.Top? && c.color == Red && !c.up.Top? && c.up.color == Black
    ensures c.InLeft? && c.up.InRight? ==>
              var t', c' := T(t.right, c.node, Red, c.right), InRight(t.left, t.node, Red, c.up);
              RedAt(t', c', h) && UpTree(t', c') == RotatedRight(UpTree(t, c)) && Order(t', c') == Order(t, c)
    ensures c.InRight? && c.up.InLeft? ==>
              var t', c' := T(c.left, c.node, Red, t.left), InLeft(t.node, Red, t.right, c.up);
              RedAt(t', c', h) && UpTree(t', c') == RotatedLeft(UpTree(t, c)) && Order(t', c') == Order(t, c)
  {
    if c.InLeft? && c.up.InRight? {
      var t', c' := T(t.right, c.node, Red, c.right), InRight(t.left, t.node, Red, c.up);
      RotatedRightOrder(UpTree(t, c));
      OrderUp(t, c);
      OrderUp(t', c');
    } else if c.InRight? && c.up.InLeft? {
      var t', c' := T(c.left, c.node, Red, t.left), InLeft(t.node, Red, t.right, c.up);
      RotatedLeftOrder(UpTree(t, c));
      OrderUp(t, c);
      OrderUp(t', c');
    }
  }

  /** The grandparent, now red, rotated below the parent, now black. */
  lemma TurnedUpRedAt(t: Tree, c: Context, h: nat)
    requires RedAt(t, c, h) && !c.Top? && c.color == Red && !c.up.Top? && c.up.color == Black && IsBlack(Beside(c.up))
    ensures c.InRight? && c.up.InRight? ==>
              var grand := T(c.up.left, c.up.node, Red, T(c.left, c.node, Black, t));
              var c' := InRight(T(c.up.left, c.up.node, Red, c.left), c.node, Black, c.up.up);
              RedAt(t, c', h) && UpTree(t, c') == RotatedLeft(grand) && Order(t, c') == Order(t, c)
    ensures c.InLeft? && c.up.InLeft? ==>
              var grand := T(T(t, c.node, Black, c.right), c.up.node, Red, c.up.right);
              var c' := InLeft(c.node, Black, T(c.right, c.up.node, Red, c.up.right), c.up.up);
              RedAt(t, c', h) && UpTree(t, c') == RotatedRight(grand) && Order(t, c') == Order(t, c)
  {
    OrderUp(t, c);
    OrderUp(UpTree(t, c), c.up);
    assert Holds(c.up, h) && Balanced(Beside(c), h) && Balanced(Beside(c.up), h) && Holds(c.up.up, h + 1);
    if c.InRight? && c.up.InRight? {
      var grand := T(c.up.left, c.up.node, Red, T(c.left, c.node, Black, t));
      var c' := InRight(T(c.up.left, c.up.node, Red, c.left), c.node, Black, c.up.up);
      RotatedLeftOrder(grand);
      assert InOrder(grand) == InOrder(UpTree(UpTree(t, c), c.up));
      OrderUp(t, c');
      assert Order(t, c') == Order(grand, c.up.up);
      assert Balanced(Beside(c'), h);
      assert Holds(c', h);
    } else if c.InLeft? && c.up.InLeft? {
      var grand := T(T(t, c.node, Black, c.right), c.up.node, Red, c.up.right);
      var c' := InLeft(c.node, Black, T(c.right, c.up.node, Red, c.up.right), c.up.up);
      RotatedRightOrder(grand);
      assert InOrder(grand) == InOrder(UpTree(UpTree(t, c), c.up));
      OrderUp(t, c');
      assert Order(t, c') == Order(grand, c.up.up);
      assert Balanced(Beside(c'), h);
      assert Holds(c', h);
    }
  }

  /** Once no two red nodes meet, painting the root black, if it is not, leaves a red-black tree. */
  lemma RedAtSettled(t: Tree, c: Context, h: nat)
    requires RedAt(t, c, h) && (!c.Top? ==> c.color == Black)
    ensures Plug(c, t).T? && (!c.Top? ==> Plug(c, t).color == Black)
    ensures RedBlack(Recolored(Plug(c, t), Black)) && InOrder(Recolored(Plug(c, t), Black)) == Order(t, c)
  {
    PlugOrder(t, c);
    if c.Top? {
      assert Balanced(Recolored(t, Black), h + 1);
    } else {
      HoldsPlugRed(t, c, h);
      PlugKeeps(t, c);
      assert Recolored(Plug(c, t), Black) == Plug(c, t);
    }
  }

  lemma {:induction false} PlugKeeps(t: Tree, c: Context)
    requires t.T?
    ensures Plug(c, t).T?
    decreases c
  {
    if !c.Top? {
      PlugKeeps(UpTree(t, c), c.up);
    }
  }

  /** A node that others precede is not the first in order. */
  lemma InnerNotFirst(mem: Memory, t: Tree, c: Context, root: Node?)
    requires Focused(mem, t, c, root) && t.T? && c.InLeft? && c.up.InRight?
    ensures Order(t, c) != [] && Order(t, c)[0] != t.node
  {
    OrderDistinct(mem, t, c, root);
    var a := Before(c) + InOrder(t.left);
    assert Before(c) == Before(c.up.up) + InOrder(c.up.left) + [c.up.node];
    assert Order(t, c) == a + [t.node] + (InOrder(t.right) + After(c));
    NotFirst(a, t.node, InOrder(t.right) + After(c));
  }

  lemma OuterNotFirst(mem: Memory, t: Tree, c: Context, root: Node?)
    requires Focused(mem, t, c, root) && t.T? && c.InLeft?
    ensures Order(t, c) != [] && Order(t, c)[0] != c.node
  {
    OrderDistinct(mem, t, c, root);
    var a := Before(c) + InOrder(t);
    var b := InOrder(c.right) + After(c.up);
    assert Order(t, c) == a + [c.node] + b;
    assert InOrder(t)[|InOrder(t.left)|] == t.node;
    NotFirst(a, c.node, b);
  }

  /** The first node in order is not one that has nodes before it. */
  lemma NotFirst(a: seq<Node>, n: Node, b: seq<Node>)
    requires a != [] && Distinct(a + [n] + b)
    ensures (a + [n] + b)[0] != n
  {
    assert (a + [n] + b)[|a|] == n;
  }

  // ----- Searching -----

  function FirstOf(s: seq<Node>): Node? {
    if s == [] then null else s[0]
  }

  function LastOf(s: seq<Node>): Node? {
    if s == [] then null else s[|s| - 1]
  }

  /** All rules hold in the tree seen from this focus. */
  ghost predicate Sound(t: Tree, c: Context, h: nat) {
    Balanced(t, h) && Holds(c, h) && (IsBlack(t) || (!c.Top? && c.color == Black))
  }

  lemma SoundDown(t: Tree, c: Context, h: nat) returns (h': nat)
    requires Sound(t, c, h) && t.T?
    ensures Sound(t.left, InLeft(t.node, t.color, t.right, c), h')
    ensures Sound(t.right, InRight(t.left, t.node, t.color, c), h')
  {
    h' := if t.color == Red then h else h - 1;
    HoldsDown(t, c, h);
  }

  /** The subtree below holds every node whose key could be this one. */
  ghost predicate Between(c: Context, key: int) {
    (Before(c) != [] ==> Before(c)[|Before(c)| - 1].key <= key) && (After(c) != [] ==> key < After(c)[0].key)
  }

  lemma OrderDown(t: Tree, c: Context)
    requires t.T?
    ensures Order(t.left, InLeft(t.node, t.color, t.right, c)) == Order(t, c)
    ensures Order(t.right, InRight(t.left, t.node, t.color, c)) == Order(t, c)
    ensures Plug(InLeft(t.node, t.color, t.right, c), t.left) == Plug(c, t)
    ensures Plug(InRight(t.left, t.node, t.color, c), t.right) == Plug(c, t)
  {
    OrderUp(t.left, InLeft(t.node, t.color, t.right, c));
    OrderUp(t.right, InRight(t.left, t.node, t.color, c));
  }

  lemma SortedSplit(a: seq<Node>, b: seq<Node>)
    requires Sorted(a + b)
    ensures Sorted(a) && Sorted(b)
    ensures forall i, j :: 0 <= i < |a| && 0 <= j < |b| ==> a[i].key <= b[j].key
  {
    var s := a + b;
    assert forall i :: 0 <= i < |a| ==> a[i] == s[i];
    assert forall j :: 0 <= j < |b| ==> b[j] == s[|a| + j];
  }

  /** Where the descent of an insertion ends, the new node belongs. */
  lemma InsertedHere(c: Context, n: Node)
    requires Sorted(Order(Leaf, c)) && Between(c, n.key)
    ensures Inserted(Order(Leaf, c), n) == Order(T(Leaf, n, Red, Leaf), c) == Before(c) + [n] + After(c)
    ensures Order(Leaf, c) == Before(c) + After(c)
  {
    assert InOrder(T(Leaf, n, Red, Leaf)) == [n] && InOrder(Leaf) == [];
    var a, b := Before(c), After(c);
    assert Order(Leaf, c) == a + b;
    InsertedBetween(a, n, b);
  }

  lemma InsertedBetween(a: seq<Node>, n: Node, b: seq<Node>)
    requires Sorted(a + b) && (a != [] ==> a[|a| - 1].key <= n.key) && (b != [] ==> n.key < b[0].key)
    ensures Inserted(a + b, n) == a + [n] + b
  {
    forall k | 0 <= k < |a| ensures a[k].key <= n.key {
      assert (a + b)[k] == a[k] && (a + b)[|a| - 1] == a[|a| - 1];
    }
    InsertedAt(a, n, b);
  }

  /** In a sequence without repetitions a node stands at one place only. */
  lemma SamePlace(s: seq<Node>, n: Node, a: seq<Node>, b: seq<Node>, a': seq<Node>, b': seq<Node>)
    requires Distinct(s) && s == a + [n] + b && s == a' + [n] + b'
    ensures a == a' && b == b'
  {
    assert s[|a|] == n && s[|a'|] == n;
    assert |a| == |a'|;
    assert a == s[..|a|] == a';
    assert b == s[|a| + 1..] == b';
  }

  /** A node of the tree in focus, with the nodes before and after it. */
  lemma FocusInOrder(mem: Memory, shape: Tree, root: Node?, n: Node, a: seq<Node>, b: seq<Node>) returns (t: Tree, c: Context)
    requires Focused(mem, shape, Top, root) && InOrder(shape) == a + [n] + b
    ensures Focused(mem, t, c, root) && t.T? && t.node == n && Plug(c, t) == shape
    ensures Before(c) + InOrder(t.left) == a && InOrder(t.right) + After(c) == b
  {
    assert InOrder(shape)[|a|] == n;
    InOrderAt(shape, |a|);
    t, c := FocusOn(mem, shape, Top, root, n);
    PlugOrder(t, c);
    InOrderDistinct(shape);
    var a', b' := Before(c) + InOrder(t.left), InOrder(t.right) + After(c);
    assert InOrder(shape) == a' + [n] + b';
    SamePlace(InOrder(shape), n, a, b, a', b');
  }

  lemma NoOrderNoTree(t: Tree)
    requires InOrder(t) == []
    ensures t == Leaf
  {}

  /** Above the hole of a tree of one node there is only its root. */
  lemma OnlyNodeIsRoot(mem: Memory, c: Context, root: Node?)
    requires Focused(mem, Leaf, c, root) && !c.Top?
    ensures c.node in mem && (|Order(Leaf, c)| == 1 ==> mem[c.node].parent == null)
  {
    SideFacts(mem, Leaf, c, root);
    assert !c.up.Top? ==> |Before(c.up)| + |After(c.up)| >= 1;
    assert |Before(c)| + |After(c)| >= |Before(c.up)| + |After(c.up)| + 1;
  }

  /** The new node became the left child of the old minimum exactly when it is the new minimum. */
  lemma MinimumAfterInsertion(mem: Memory, shape: Tree, root: Node?, n: Node, m: Node, a: seq<Node>, b: seq<Node>)
    requires Focused(mem, shape, Top, root) && InOrder(shape) == a + [n] + b
    requires FirstOf(a + b) == m && m in mem
    requires a == [] ==> n in mem && mem[n].right == null
    ensures (mem[m].left == n) <==> a == []
  {
    if a == [] {
      var t, c := FocusInOrder(mem, shape, root, n, a, b);
      NodeFacts(mem, t, c, root);
      SideFacts(mem, t, c, root);
      assert a + b == b;
      assert InOrder(t.right) == [];
      assert After(c) == b;
    } else {
      assert a + b == [a[0]] + (a[1..] + b);
      assert a + [n] + b == [] + [m] + (a[1..] + [n] + b);
      var t, c := FocusInOrder(mem, shape, root, m, [], a[1..] + [n] + b);
      NodeFacts(mem, t, c, root);
      NoOrderNoTree(t.left);
    }
  }

  lemma FirstInMemory(mem: Memory, t: Tree, c: Context, root: Node?)
    requires Focused(mem, t, c, root) && Order(t, c) != []
    ensures Order(t, c)[0] in mem
  {
    FocusTop(mem, t, c, root);
    PlugOrder(t, c);
    InOrderAt(Plug(c, t), 0);
  }

  lemma InsertedSize(s: seq<Node>, n: Node)
    ensures |Inserted(s, n)| == |s| + 1
  {
    InsertedCounts(s, n);
    assert |multiset(Inserted(s, n))| == |multiset(s)| + 1;
  }

  ghost function BlackHeight(t: Tree): (h: nat)
    requires RedBlack(t)
    ensures Balanced(t, h)
  {
    var h: nat :| Balanced(t, h);
    h
  }

  lemma SoundRedAt(n: Node, c: Context, h: nat)
    requires Sound(Leaf, c, h) && !c.Top?
    ensures RedAt(T(Leaf, n, Red, Leaf), c, h) && (c.up.Top? ==> c.color == Black)
  {}

  lemma SingleTree(n: Node)
    ensures RedBlack(T(Leaf, n, Black, Leaf)) && InOrder(T(Leaf, n, Black, Leaf)) == [n] && Inserted([], n) == [n]
    ensures Sorted([n])
  {
    assert Balanced(T(Leaf, n, Black, Leaf), 1);
  }

  lemma EmptyOrder()
    ensures Order(Leaf, Top) == [] && InOrder(Leaf) == []
  {}

  lemma OrderNotEmpty(t: Tree, c: Context)
    requires t.T? || !c.Top?
    ensures Order(t, c) != []
  {
    assert t.T? ==> InOrder(t)[|InOrder(t.left)|] == t.node;
    assert c.InRight? ==> Before(c)[|Before(c)| - 1] == c.node;
  }

  // ----- Neighbours in order -----

  /** The node s, or null at the end, comes next after n. */
  ghost predicate Follows(order: seq<Node>, n: Node, s: Node?) {
    forall i :: 0 <= i < |order| && order[i] == n ==> s == if i + 1 < |order| then order[i + 1] else null
  }

  lemma FollowsSplit(order: seq<Node>, a: seq<Node>, n: Node, b: seq<Node>)
    requires Distinct(order) && order == a + [n] + b
    ensures Follows(order, n, FirstOf(b))
  {
    assert order[|a|] == n;
    assert b != [] ==> order[|a| + 1] == b[0];
  }

  /** The node s, or null at the start, comes last before n. */
  ghost predicate Precedes(order: seq<Node>, s: Node?, n: Node) {
    forall i :: 0 <= i < |order| && order[i] == n ==> s == if i > 0 then order[i - 1] else null
  }

  lemma PrecedesSplit(order: seq<Node>, a: seq<Node>, n: Node, b: seq<Node>)
    requires Distinct(order) && order == a + [n] + b
    ensures Precedes(order, LastOf(a), n)
  {
    assert order[|a|] == n;
    assert a != [] ==> order[|a| - 1] == a[|a| - 1];
  }

  /** The order around the root of the focus. */
  lemma OrderAround(t: Tree, c: Context)
    requires t.T?
    ensures Order(t, c) == (Before(c) + InOrder(t.left)) + [t.node] + (InOrder(t.right) + After(c))
  {
    JoinedAround(Before(c), InOrder(t.left), t.node, InOrder(t.right), After(c));
  }

  lemma Joined(a: seq<Node>, l: seq<Node>, r: seq<Node>, b: seq<Node>)
    ensures a + (l + r) + b == (a + l) + (r + b)
  {}

  lemma JoinedAround(a: seq<Node>, l: seq<Node>, n: Node, r: seq<Node>, b: seq<Node>)
    ensures a + (l + [n] + r) + b == (a + l) + [n] + (r + b)
  {}

  lemma LeafOrder()
    ensures InOrder(Leaf) == []
  {}

  lemma NextBelow(t: Tree, c: Context, ts: Tree, cs: Context)
    requires t.T? && ts.T? && ts.left.Leaf? && Order(ts, cs) == Order(t, c)
    requires Before(cs) == Before(InRight(t.left, t.node, t.color, c))
    ensures FirstOf(InOrder(t.right) + After(c)) == ts.node
  {
    OrderAround(t, c);
    OrderAround(ts, cs);
    LeafOrder();
    NextIs(Before(c) + InOrder(t.left), t.node, InOrder(t.right) + After(c), ts.node, InOrder(ts.right) + After(cs));
  }

  lemma NextIs(a: seq<Node>, n: Node, b: seq<Node>, m: Node, rest: seq<Node>)
    requires a + [n] + b == ((a + [n]) + []) + [m] + rest
    ensures FirstOf(b) == m
  {
    assert (((a + [n]) + []) + [m] + rest)[|a| + 1] == m;
    assert |b| > 0 && (a + [n] + b)[|a| + 1] == b[0];
  }

  lemma PreviousIs(a: seq<Node>, n: Node, b: seq<Node>, m: Node, rest: seq<Node>)
    requires a + [n] + b == rest + [m] + ([] + ([n] + b))
    ensures LastOf(a) == m
  {
    assert |a| == |rest| + 1;
    assert (rest + [m] + ([] + ([n] + b)))[|a| - 1] == m;
    assert (a + [n] + b)[|a| - 1] == a[|a| - 1];
  }

  lemma PreviousBelow(t: Tree, c: Context, ts: Tree, cs: Context)
    requires t.T? && ts.T? && ts.right.Leaf? && Order(ts, cs) == Order(t, c)
    requires After(cs) == After(InLeft(t.node, t.color, t.right, c))
    ensures LastOf(Before(c) + InOrder(t.left)) == ts.node
  {
    OrderAround(t, c);
    OrderAround(ts, cs);
    LeafOrder();
    assert After(cs) == [t.node] + (InOrder(t.right) + After(c));
    PreviousIs(Before(c) + InOrder(t.left), t.node, InOrder(t.right) + After(c), ts.node, Before(cs) + InOrder(ts.left));
  }

  lemma NodeInOrder(t: Tree, c: Context)
    requires t.T?
    ensures t.node in Order(t, c)
  {
    assert InOrder(t)[|InOrder(t.left)|] == t.node;
    assert Order(t, c)[|Before(c)| + |InOrder(t.left)|] == t.node;
  }

  // ----- What the searches answer -----

  /** Some node with this key, or null when there is none. */
  ghost predicate Found(order: seq<Node>, key: int, r: Node?) {
    if r == null then forall i :: 0 <= i < |order| ==> order[i].key != key
    else r in order && r.key == key
  }

  /**
   A node with the largest key that is not above this one, or null when all are above it. When there is no node with
   the key itself, it is the last one of those with the largest key below it.
   */
  ghost predicate LargestNotAbove(order: seq<Node>, key: int, r: Node?) {
    if r == null then forall i :: 0 <= i < |order| ==> order[i].key > key
    else
      r in order && r.key <= key && (forall i :: 0 <= i < |order| && order[i].key <= key ==> order[i].key <= r.key) &&
      (r.key < key ==> IsLastNotAbove(order, key, r))
  }

  /** All nodes behind it have larger keys. */
  ghost predicate IsLastNotAbove(order: seq<Node>, key: int, r: Node) {
    exists k :: 0 <= k < |order| && order[k] == r && forall i :: k < i < |order| ==> order[i].key > key
  }

  /** A node with the smallest key that is not below this one, or null when all are below it. */
  ghost predicate SmallestNotBelow(order: seq<Node>, key: int, r: Node?) {
    if r == null then forall i :: 0 <= i < |order| ==> order[i].key < key
    else r in order && r.key >= key && forall i :: 0 <= i < |order| && order[i].key >= key ==> order[i].key >= r.key
  }

  lemma FoundHere(order: seq<Node>, n: Node)
    requires n in order
    ensures Found(order, n.key, n) && LargestNotAbove(order, n.key, n) && SmallestNotBelow(order, n.key, n)
  {}

  /** The key lies strictly between the nodes before the hole and those after it. */
  ghost predicate StrictlyBetween(a: seq<Node>, b: seq<Node>, key: int) {
    (a != [] ==> a[|a| - 1].key < key) && (b != [] ==> key < b[0].key)
  }

  /** A search that runs into a leaf knows the neighbours of the missing key. */
  lemma NotFoundHere(c: Context, key: int)
    requires Sorted(Order(Leaf, c)) && StrictlyBetween(Before(c), After(c), key)
    ensures Found(Order(Leaf, c), key, null)
    ensures LargestNotAbove(Order(Leaf, c), key, LastOf(Before(c)))
    ensures SmallestNotBelow(Order(Leaf, c), key, FirstOf(After(c)))
  {
    var a, b := Before(c), After(c);
    LeafOrder();
    assert Order(Leaf, c) == a + b;
    BetweenAnswers(a, b, key);
  }

  lemma BetweenAnswers(a: seq<Node>, b: seq<Node>, key: int)
    requires Sorted(a + b) && StrictlyBetween(a, b, key)
    ensures Found(a + b, key, null) && LargestNotAbove(a + b, key, LastOf(a)) && SmallestNotBelow(a + b, key, FirstOf(b))
  {
    var s := a + b;
    SortedSplit(a, b);
    forall i | 0 <= i < |s|
      ensures i < |a| ==> s[i].key < key && s[i].key <= a[|a| - 1].key
      ensures i >= |a| ==> s[i].key > key && s[i].key >= b[0].key
    {
      assert s[i] == if i < |a| then a[i] else b[i - |a|];
    }
    assert a != [] ==> s[|a| - 1] == a[|a| - 1];
    assert b != [] ==> s[|a|] == b[0];
    assert a != [] ==> IsLastNotAbove(s, key, a[|a| - 1]);
  }

  lemma BetweenDown(t: Tree, c: Context, key: int)
    requires t.T? && StrictlyBetween(Before(c), After(c), key)
    ensures ParentOf(InLeft(t.node, t.color, t.right, c)) == t.node
    ensures key < t.node.key ==>
              var c' := InLeft(t.node, t.color, t.right, c);
              StrictlyBetween(Before(c'), After(c'), key) && FirstOf(After(c')) == t.node && Before(c') == Before(c)
    ensures t.node.key < key ==>
              var c' := InRight(t.left, t.node, t.color, c);
              StrictlyBetween(Before(c'), After(c'), key) && LastOf(Before(c')) == t.node && After(c') == After(c)
  {}

  lemma StartBetween(t: Tree, key: int)
    ensures StrictlyBetween(Before(Top), After(Top), key) && Order(t, Top) == InOrder(t)
    ensures LastOf(Before(Top)) == null && FirstOf(After(Top)) == null
  {}
}
