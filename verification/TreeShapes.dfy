/**
 The nodes of a binary tree with parent pointers, the shapes they form, and shapes with a focus:
 a subtree and the context around it.
 */
module TreeShapes {

  datatype Color = Red | Black

  class Node {
    const key: int
    const value: int
    var left: Node?
    var right: Node?
    var parent: Node?
    var color: Color

    constructor (key: int, value: int)
      ensures this.key == key && this.value == value && left == null && right == null && parent == null && color == Red
    {
      this.key, this.value := key, value;
      left, right, parent, color := null, null, null, Red;
    }
  }

  /** What the mutable fields of a node hold. */
  datatype Cell = Cell(left: Node?, right: Node?, parent: Node?, color: Color)

  /** The fields of all nodes of a tree at one moment. */
  type Memory = map<Node, Cell>

  datatype Tree = Leaf | T(left: Tree, node: Node, color: Color, right: Tree)

  /** A tree with a subtree cut out: the way from the hole up to the root. */
  datatype Context =
    | Top
    | InLeft(node: Node, color: Color, right: Tree, up: Context)
    | InRight(left: Tree, node: Node, color: Color, up: Context)

  ghost function Nodes(t: Tree): set<Node> {
    match t
    case Leaf => {}
    case T(l, n, _, r) => Nodes(l) + {n} + Nodes(r)
  }

  ghost function ContextNodes(c: Context): set<Node> {
    match c
    case Top => {}
    case InLeft(n, _, r, up) => {n} + Nodes(r) + ContextNodes(up)
    case InRight(l, n, _, up) => Nodes(l) + {n} + ContextNodes(up)
  }

  /** No node occurs twice. */
  ghost predicate Separate(t: Tree) {
    match t
    case Leaf => true
    case T(l, n, _, r) =>
      n !in Nodes(l) && n !in Nodes(r) && Nodes(l) !! Nodes(r) && Separate(l) && Separate(r)
  }

  ghost predicate ContextSeparate(c: Context) {
    match c
    case Top => true
    case InLeft(n, _, r, up) =>
      n !in Nodes(r) && Separate(r) && n !in ContextNodes(up) && Nodes(r) !! ContextNodes(up) && ContextSeparate(up)
    case InRight(l, n, _, up) =>
      n !in Nodes(l) && Separate(l) && n !in ContextNodes(up) && Nodes(l) !! ContextNodes(up) && ContextSeparate(up)
  }

  function RootOf(t: Tree): Node? {
    match t
    case Leaf => null
    case T(_, n, _, _) => n
  }

  function ParentOf(c: Context): Node? {
    match c
    case Top => null
    case InLeft(n, _, _, _) => n
    case InRight(_, n, _, _) => n
  }

  /** The pointers of a node at which the tree t hangs, below p. */
  ghost predicate Forms(mem: Memory, t: Tree, p: Node?) {
    match t
    case Leaf => true
    case T(l, n, color, r) =>
      n in mem && mem[n] == Cell(RootOf(l), RootOf(r), p, color) && Forms(mem, l, n) && Forms(mem, r, n)
  }

  /** The pointers from root down to f, and everything beside that way, form the context c. */
  ghost predicate FormsContext(mem: Memory, c: Context, f: Node?, root: Node?) {
    match c
    case Top => f == root
    case InLeft(n, color, r, up) =>
      n in mem && mem[n] == Cell(f, RootOf(r), ParentOf(up), color) && Forms(mem, r, n) && FormsContext(mem, up, n, root)
    case InRight(l, n, color, up) =>
      n in mem && mem[n] == Cell(RootOf(l), f, ParentOf(up), color) && Forms(mem, l, n) && FormsContext(mem, up, n, root)
  }

  /** The nodes form one tree, seen as t in the context c. */
  ghost predicate Focused(mem: Memory, t: Tree, c: Context, root: Node?) {
    Separate(t) && ContextSeparate(c) && Nodes(t) !! ContextNodes(c) && mem.Keys == Nodes(t) + ContextNodes(c) &&
    Forms(mem, t, ParentOf(c)) && FormsContext(mem, c, RootOf(t), root)
  }

  lemma FocusedParts(mem: Memory, t: Tree, c: Context, root: Node?)
    requires Focused(mem, t, c, root)
    ensures Separate(t) && ContextSeparate(c) && Nodes(t) !! ContextNodes(c) && mem.Keys == Nodes(t) + ContextNodes(c)
    ensures Forms(mem, t, ParentOf(c)) && FormsContext(mem, c, RootOf(t), root)
  {}

  lemma FocusedWhole(mem: Memory, t: Tree, c: Context, root: Node?)
    requires Separate(t) && ContextSeparate(c) && Nodes(t) !! ContextNodes(c) && mem.Keys == Nodes(t) + ContextNodes(c)
    requires Forms(mem, t, ParentOf(c)) && FormsContext(mem, c, RootOf(t), root)
    ensures Focused(mem, t, c, root)
  {}

  // ----- Frames: what a change elsewhere leaves alone -----

  ghost predicate Agree(mem: Memory, mem': Memory, s: set<Node>) {
    forall n :: n in s && n in mem ==> n in mem' && mem'[n] == mem[n]
  }

  lemma {:induction false} FormsAgree(mem: Memory, mem': Memory, t: Tree, p: Node?)
    requires Forms(mem, t, p) && Agree(mem, mem', Nodes(t))
    ensures Forms(mem', t, p)
  {
    if t.T? {
      FormsAgree(mem, mem', t.left, t.node);
      FormsAgree(mem, mem', t.right, t.node);
    }
  }

  lemma {:induction false} ContextAgree(mem: Memory, mem': Memory, c: Context, f: Node?, root: Node?)
    requires FormsContext(mem, c, f, root) && Agree(mem, mem', ContextNodes(c))
    ensures FormsContext(mem', c, f, root)
  {
    match c {
      case Top =>
      case InLeft(n, _, r, up) =>
        FormsAgree(mem, mem', r, n);
        ContextAgree(mem, mem', up, n, root);
      case InRight(l, n, _, up) =>
        FormsAgree(mem, mem', l, n);
        ContextAgree(mem, mem', up, n, root);
    }
  }

  /** A subtree hung below another node: only its root's parent pointer differs. */
  lemma FormsReparented(mem: Memory, mem': Memory, t: Tree, p: Node?, p': Node?)
    requires Forms(mem, t, p) && Separate(t)
    requires t.T? ==> Agree(mem, mem', Nodes(t) - {t.node}) && t.node in mem' && mem'[t.node] == mem[t.node].(parent := p')
    ensures Forms(mem', t, p')
  {
    if t.T? {
      assert Nodes(t.left) <= Nodes(t) - {t.node} && Nodes(t.right) <= Nodes(t) - {t.node};
      FormsAgree(mem, mem', t.left, t.node);
      FormsAgree(mem, mem', t.right, t.node);
    }
  }

  /** The cell of the focus's parent when its child pointer to the focus becomes f. */
  function RepointedCell(mem: Memory, c: Context, f: Node?): Cell
    requires c.Top? || c.node in mem
  {
    match c
    case Top => Cell(null, null, null, Black)
    case InLeft(n, _, _, _) => mem[n].(left := f)
    case InRight(_, n, _, _) => mem[n].(right := f)
  }

  /** A context with another subtree in its hole: only the parent's child pointer, or the root, differs. */
  lemma ContextRepointed(mem: Memory, mem': Memory, c: Context, f: Node?, f': Node?, root: Node?, root': Node?)
    requires FormsContext(mem, c, f, root) && ContextSeparate(c)
    requires root' == if c.Top? then f' else root
    requires !c.Top? ==>
               Agree(mem, mem', ContextNodes(c) - {c.node}) && c.node in mem && c.node in mem' &&
               mem'[c.node] == RepointedCell(mem, c, f')
    ensures FormsContext(mem', c, f', root')
  {
    match c {
      case Top =>
      case InLeft(n, _, r, up) =>
        FormsAgree(mem, mem', r, n);
        ContextAgree(mem, mem', up, n, root);
      case InRight(l, n, _, up) =>
        FormsAgree(mem, mem', l, n);
        ContextAgree(mem, mem', up, n, root);
    }
  }

  // ----- Moving the focus -----

  /** The whole tree of a focus. */
  function Plug(c: Context, t: Tree): Tree
    decreases c
  {
    match c
    case Top => t
    case InLeft(n, color, r, up) => Plug(up, T(t, n, color, r))
    case InRight(l, n, color, up) => Plug(up, T(l, n, color, t))
  }

  lemma FocusLeft(mem: Memory, t: Tree, c: Context, root: Node?)
    requires Focused(mem, t, c, root) && t.T?
    ensures Focused(mem, t.left, InLeft(t.node, t.color, t.right, c), root)
  {}

  lemma FocusRight(mem: Memory, t: Tree, c: Context, root: Node?)
    requires Focused(mem, t, c, root) && t.T?
    ensures Focused(mem, t.right, InRight(t.left, t.node, t.color, c), root)
  {}

  /** The subtree one level up. */
  function UpTree(t: Tree, c: Context): Tree
    requires !c.Top?
  {
    match c
    case InLeft(n, color, r, _) => T(t, n, color, r)
    case InRight(l, n, color, _) => T(l, n, color, t)
  }

  lemma FocusUp(mem: Memory, t: Tree, c: Context, root: Node?)
    requires Focused(mem, t, c, root) && !c.Top?
    ensures Focused(mem, UpTree(t, c), c.up, root)
    ensures Plug(c.up, UpTree(t, c)) == Plug(c, t)
  {}

  lemma {:induction false} FocusTop(mem: Memory, t: Tree, c: Context, root: Node?)
    requires Focused(mem, t, c, root)
    ensures Focused(mem, Plug(c, t), Top, root)
    decreases c
  {
    if !c.Top? {
      FocusUp(mem, t, c, root);
      FocusTop(mem, UpTree(t, c), c.up, root);
    }
  }

  // ----- Rotations -----

  lemma Unfold(mem: Memory, t: Tree, p: Node?)
    requires t.T? && Forms(mem, t, p) && Separate(t)
    ensures t.node in mem && mem[t.node] == Cell(RootOf(t.left), RootOf(t.right), p, t.color)
    ensures Forms(mem, t.left, t.node) && Forms(mem, t.right, t.node) && Separate(t.left) && Separate(t.right)
    ensures Nodes(t) == Nodes(t.left) + {t.node} + Nodes(t.right)
    ensures t.node !in Nodes(t.left) && t.node !in Nodes(t.right) && Nodes(t.left) !! Nodes(t.right)
    ensures t.left.T? ==> t.left.node in Nodes(t.left)
    ensures t.right.T? ==> t.right.node in Nodes(t.right)
  {}

  function RotatedLeft(t: Tree): Tree
    requires t.T? && t.right.T?
  {
    T(T(t.left, t.node, t.color, t.right.left), t.right.node, t.right.color, t.right.right)
  }

  function RotatedRight(t: Tree): Tree
    requires t.T? && t.left.T?
  {
    T(t.left.left, t.left.node, t.left.color, T(t.left.right, t.node, t.color, t.right))
  }

  /** The nodes whose fields a rotation of t changes: two nodes, the subtree between them, the parent. */
  ghost predicate RotationCells(mem: Memory, mem': Memory, outer: Node, outerCell: Cell, inner: Node, innerCell: Cell,
                                middle: Tree, c: Context)
  {
    mem'.Keys == mem.Keys && inner in mem && outer in mem && mem'[inner] == innerCell && mem'[outer] == outerCell &&
    (middle.T? ==> middle.node in mem && mem'[middle.node] == mem[middle.node].(parent := inner)) &&
    (!c.Top? ==> c.node in mem && mem'[c.node] == RepointedCell(mem, c, outer)) &&
    Agree(mem, mem', mem.Keys - {inner, outer} - (if middle.T? then {middle.node} else {}) - (if c.Top? then {} else {c.node}))
  }

  lemma RotatedLeftSeparate(t: Tree)
    requires t.T? && t.right.T? && Separate(t)
    ensures Nodes(RotatedLeft(t)) == Nodes(t) && Separate(RotatedLeft(t))
  {
    assert t.right == T(t.right.left, t.right.node, t.right.color, t.right.right);
  }

  lemma RotatedRightSeparate(t: Tree)
    requires t.T? && t.left.T? && Separate(t)
    ensures Nodes(RotatedRight(t)) == Nodes(t) && Separate(RotatedRight(t))
  {
    assert t.left == T(t.left.left, t.left.node, t.left.color, t.left.right);
  }

  /** Assembling a tree from its parts and its root's cell. */
  lemma Assemble(mem: Memory, l: Tree, n: Node, color: Color, r: Tree, p: Node?)
    requires n in mem && mem[n] == Cell(RootOf(l), RootOf(r), p, color) && Forms(mem, l, n) && Forms(mem, r, n)
    ensures Forms(mem, T(l, n, color, r), p)
  {}

  /** Outside the inner part of the tree, a rotation changes at most the parent's child pointer. */
  lemma RotationContext(mem: Memory, mem': Memory, t: Tree, c: Context, f': Node, root: Node?, root': Node?, changed: set<Node>)
    requires Focused(mem, t, c, root) && t.T? && changed <= Nodes(t)
    requires root' == if c.Top? then f' else root
    requires !c.Top? ==> c.node in mem && c.node in mem' && mem'[c.node] == RepointedCell(mem, c, f')
    requires Agree(mem, mem', mem.Keys - changed - (if c.Top? then {} else {c.node}))
    ensures FormsContext(mem', c, f', root')
  {
    hide Forms, Separate, FormsContext;
    assert c.Top? || c.node in ContextNodes(c);
    ContextRepointed(mem, mem', c, t.node, f', root, root');
  }

  lemma RotateLeftForms(mem: Memory, mem': Memory, t: Tree, c: Context, root: Node?)
    requires Focused(mem, t, c, root) && t.T? && t.right.T?
    requires RotationCells(mem, mem', t.right.node, Cell(t.node, RootOf(t.right.right), ParentOf(c), t.right.color),
                           t.node, Cell(RootOf(t.left), RootOf(t.right.left), t.right.node, t.color), t.right.left, c)
    ensures Forms(mem', RotatedLeft(t), ParentOf(c))
  {
    var a, x, b, y, d := t.left, t.node, t.right.left, t.right.node, t.right.right;
    FocusedParts(mem, t, c, root);
    Unfold(mem, t, ParentOf(c));
    Unfold(mem, t.right, x);
    hide Forms, Separate, FormsContext, Focused, Nodes;
    assert c.Top? || c.node in ContextNodes(c);
    FormsAgree(mem, mem', a, x);
    FormsAgree(mem, mem', d, y);
    FormsReparented(mem, mem', b, y, x);
    Assemble(mem', a, x, t.color, b, y);
    Assemble(mem', T(a, x, t.color, b), y, t.right.color, d, ParentOf(c));
  }

  lemma RotateRightForms(mem: Memory, mem': Memory, t: Tree, c: Context, root: Node?)
    requires Focused(mem, t, c, root) && t.T? && t.left.T?
    requires RotationCells(mem, mem', t.left.node, Cell(RootOf(t.left.left), t.node, ParentOf(c), t.left.color),
                           t.node, Cell(RootOf(t.left.right), RootOf(t.right), t.left.node, t.color), t.left.right, c)
    ensures Forms(mem', RotatedRight(t), ParentOf(c))
  {
    var a, y, b, x, d := t.left.left, t.left.node, t.left.right, t.node, t.right;
    FocusedParts(mem, t, c, root);
    Unfold(mem, t, ParentOf(c));
    Unfold(mem, t.left, x);
    hide Forms, Separate, FormsContext, Focused, Nodes;
    assert c.Top? || c.node in ContextNodes(c);
    FormsAgree(mem, mem', a, y);
    FormsAgree(mem, mem', d, x);
    FormsReparented(mem, mem', b, y, x);
    Assemble(mem', b, x, t.color, d, y);
    Assemble(mem', a, y, t.left.color, T(b, x, t.color, d), ParentOf(c));
  }

  lemma RotateLeftFocused(mem: Memory, mem': Memory, t: Tree, c: Context, root: Node?, root': Node?)
    requires Focused(mem, t, c, root) && t.T? && t.right.T?
    requires root' == if c.Top? then t.right.node else root
    requires RotationCells(mem, mem', t.right.node, Cell(t.node, RootOf(t.right.right), ParentOf(c), t.right.color),
                           t.node, Cell(RootOf(t.left), RootOf(t.right.left), t.right.node, t.color), t.right.left, c)
    ensures Focused(mem', RotatedLeft(t), c, root')
  {
    FocusedParts(mem, t, c, root);
    Unfold(mem, t, ParentOf(c));
    Unfold(mem, t.right, t.node);
    RotatedLeftSeparate(t);
    RotateLeftForms(mem, mem', t, c, root);
    hide Forms, Separate, FormsContext, Nodes;
    var b := t.right.left;
    RotationContext(mem, mem', t, c, t.right.node, root, root', {t.node, t.right.node} + if b.T? then {b.node} else {});
  }

  lemma RotateRightFocused(mem: Memory, mem': Memory, t: Tree, c: Context, root: Node?, root': Node?)
    requires Focused(mem, t, c, root) && t.T? && t.left.T?
    requires root' == if c.Top? then t.left.node else root
    requires RotationCells(mem, mem', t.left.node, Cell(RootOf(t.left.left), t.node, ParentOf(c), t.left.color),
                           t.node, Cell(RootOf(t.left.right), RootOf(t.right), t.left.node, t.color), t.left.right, c)
    ensures Focused(mem', RotatedRight(t), c, root')
  {
    FocusedParts(mem, t, c, root);
    Unfold(mem, t, ParentOf(c));
    Unfold(mem, t.left, t.node);
    RotatedRightSeparate(t);
    RotateRightForms(mem, mem', t, c, root);
    hide Forms, Separate, FormsContext, Nodes;
    var b := t.left.right;
    RotationContext(mem, mem', t, c, t.left.node, root, root', {t.node, t.left.node} + if b.T? then {b.node} else {});
  }

  // ----- Colours -----

  function Recolored(t: Tree, color: Color): Tree
    requires t.T?
  {
    t.(color := color)
  }

  lemma RecolorFocused(mem: Memory, t: Tree, c: Context, root: Node?, color: Color)
    requires Focused(mem, t, c, root) && t.T?
    ensures t.node in mem
    ensures Focused(mem[t.node := mem[t.node].(color := color)], Recolored(t, color), c, root)
  {
    var mem' := mem[t.node := mem[t.node].(color := color)];
    FormsAgree(mem, mem', t.left, t.node);
    FormsAgree(mem, mem', t.right, t.node);
    ContextAgree(mem, mem', c, t.node, root);
  }

  function RecoloredContext(c: Context, color: Color): Context
    requires !c.Top?
  {
    match c
    case InLeft(n, _, r, up) => InLeft(n, color, r, up)
    case InRight(l, n, _, up) => InRight(l, n, color, up)
  }

  lemma RecolorParentFocused(mem: Memory, t: Tree, c: Context, root: Node?, color: Color)
    requires Focused(mem, t, c, root) && !c.Top?
    ensures c.node in mem
    ensures Focused(mem[c.node := mem[c.node].(color := color)], t, RecoloredContext(c, color), root)
  {
    hide Focused;
    FocusUp(mem, t, c, root);
    RecolorFocused(mem, UpTree(t, c), c.up, root, color);
    var mem' := mem[c.node := mem[c.node].(color := color)];
    var up := Recolored(UpTree(t, c), color);
    if c.InLeft? {
      FocusLeft(mem', up, c.up, root);
    } else {
      FocusRight(mem', up, c.up, root);
    }
  }
}
