/**
 The red-black tree with parent pointers: insertion and removal with their fix-ups, searches, and the
 cached minimum.
 */
module RedBlackTrees {
  import opened Basics
  import opened TreeShapes
  import opened TreeOrder
  import opened TreeRelinking
  import opened TreeBalance
  import opened TreeRemoval
  import opened TreeExchange

  class RedBlackTree {
    var root: Node?
    var size: nat
    var minimum: Node?

    /** The fields of all the tree's nodes, and the tree they form. */
    ghost var mem: Memory
    ghost var shape: Tree

    ghost predicate Mirror()
      reads this`mem, mem.Keys
    {
      forall n :: n in mem ==> mem[n] == Cell(n.left, n.right, n.parent, n.color)
    }

    /** The nodes in order. */
    ghost function Contents(): seq<Node>
      reads this
    {
      InOrder(shape)
    }

    ghost predicate Valid()
      reads this, mem.Keys
    {
      Mirror() && Focused(mem, shape, Top, root) && RedBlack(shape) && Sorted(Contents()) &&
      size == |Contents()| && minimum == FirstOf(Contents())
    }

    constructor ()
      ensures Valid() && Contents() == [] && mem == map[]
    {
      root, size, minimum, mem, shape := null, 0, null, map[], Leaf;
      new;
      assert Balanced(Leaf, 0);
    }

    // ----- Single fields -----

    method SetLeft(n: Node, child: Node?)
      requires Mirror() && n in mem
      modifies this`mem, n`left
      ensures Mirror() && mem == old(mem)[n := old(mem)[n].(left := child)]
    {
      n.left := child;
      mem := mem[n := mem[n].(left := child)];
    }

    method SetRight(n: Node, child: Node?)
      requires Mirror() && n in mem
      modifies this`mem, n`right
      ensures Mirror() && mem == old(mem)[n := old(mem)[n].(right := child)]
    {
      n.right := child;
      mem := mem[n := mem[n].(right := child)];
    }

    method SetParent(n: Node, parent: Node?)
      requires Mirror() && n in mem
      modifies this`mem, n`parent
      ensures Mirror() && mem == old(mem)[n := old(mem)[n].(parent := parent)]
    {
      n.parent := parent;
      mem := mem[n := mem[n].(parent := parent)];
    }

    method SetColor(n: Node, color: Color)
      requires Mirror() && n in mem
      modifies this`mem, n`color
      ensures Mirror() && mem == Painted(old(mem), n, color)
    {
      n.color := color;
      mem := Painted(mem, n, color);
    }

    lemma Read(n: Node)
      requires Mirror() && n in mem
      ensures mem[n] == Cell(n.left, n.right, n.parent, n.color)
    {}

    /** Makes the parent of child, or the root pointer, refer to another node instead. */
    method Repoint(parent: Node?, child: Node?, other: Node?)
      requires Mirror() && (parent != null ==> parent in mem)
      modifies this`mem, this`root, mem.Keys
      ensures Mirror() && mem == RepointedMemory(old(mem), parent, child, other)
      ensures root == if parent == null then other else old(root)
    {
      if parent == null {
        root := other;
      } else if parent.left == child {
        SetLeft(parent, other);
      } else {
        SetRight(parent, other);
      }
    }

    // ----- Rotations -----

    method RotateLeft(x: Node, ghost t: Tree, ghost c: Context)
      requires Mirror() && Focused(mem, t, c, root) && t.T? && t.node == x && t.right.T?
      modifies this`mem, this`root, mem.Keys
      ensures Mirror() && Focused(mem, RotatedLeft(t), c, root) && mem.Keys == old(mem.Keys)
      ensures forall n :: n in mem && old(mem)[n].right == null ==> mem[n].right == null
    {
      hide Focused, Mirror, RepointedMemory, RotatedLeftMemory;
      RotationFacts(mem, t, c, root, t.right);
      Read(x);
      Read(x.right);
      ghost var mem0, root0 := mem, root;
      TurnLeft(x, x.right, x.parent, x.right.left);
      LeftRotation(mem0, mem, t, c, root0, root);
    }

    /** The pointers a rotation to the left changes. */
    method TurnLeft(x: Node, pivot: Node, parent: Node?, middle: Node?)
      requires Mirror() && x in mem && pivot in mem && x != pivot && (middle != null ==> middle in mem)
      requires parent != null ==> parent in mem
      modifies this`mem, this`root, mem.Keys
      ensures Mirror() && mem == RotatedLeftMemory(old(mem), x, pivot, middle, parent)
      ensures root == if parent == null then pivot else old(root)
    {
      hide Mirror, RepointedMemory;
      SetRight(x, middle);
      if middle != null {
        SetParent(middle, x);
      }
      SetLeft(pivot, x);
      SetParent(x, pivot);
      SetParent(pivot, parent);
      Repoint(parent, x, pivot);
    }

    method RotateRight(x: Node, ghost t: Tree, ghost c: Context)
      requires Mirror() && Focused(mem, t, c, root) && t.T? && t.node == x && t.left.T?
      modifies this`mem, this`root, mem.Keys
      ensures Mirror() && Focused(mem, RotatedRight(t), c, root) && mem.Keys == old(mem.Keys)
      ensures forall n :: n in mem && n != t.left.node && old(mem)[n].right == null ==> mem[n].right == null
    {
      hide Focused, Mirror, RepointedMemory, RotatedRightMemory;
      RotationFacts(mem, t, c, root, t.left);
      Read(x);
      Read(x.left);
      ghost var mem0, root0 := mem, root;
      TurnRight(x, x.left, x.parent, x.left.right);
      RightRotation(mem0, mem, t, c, root0, root);
    }

    /** The pointers a rotation to the right changes. */
    method TurnRight(x: Node, pivot: Node, parent: Node?, middle: Node?)
      requires Mirror() && x in mem && pivot in mem && x != pivot && (middle != null ==> middle in mem)
      requires parent != null ==> parent in mem
      modifies this`mem, this`root, mem.Keys
      ensures Mirror() && mem == RotatedRightMemory(old(mem), x, pivot, middle, parent)
      ensures root == if parent == null then pivot else old(root)
    {
      hide Mirror, RepointedMemory;
      SetLeft(x, middle);
      if middle != null {
        SetParent(middle, x);
      }
      SetRight(pivot, x);
      SetParent(x, pivot);
      SetParent(pivot, parent);
      Repoint(parent, x, pivot);
    }

    // ----- Insertion -----

    /** The same nodes, and n has not been given a right child. */
    twostate predicate StaysBare(n: Node)
      reads this
    {
      mem.Keys == old(mem.Keys) && n in mem && (old(mem)[n].right == null ==> mem[n].right == null)
    }

    /** Parent and uncle are red: they turn black, the grandparent red. */
    method RecolorUp(parent: Node, uncle: Node, grand: Node, ghost t: Tree, ghost c: Context,
                     ghost first: Node)
      requires Mirror() && Focused(mem, t, c, root) && !c.Top? && !c.up.Top? && Beside(c.up).T? && first in mem
      requires parent == c.node && uncle == Beside(c.up).node && grand == c.up.node && c.up.color == Black
      modifies this`mem, mem.Keys
      ensures Mirror() && Focused(mem, PushedUp(t, c), c.up.up, root) && StaysBare(first)
    {
      hide Focused, Mirror, Painted, PushedUp, Forms, FormsContext, Nodes, ContextNodes, Separate, ContextSeparate, Plug;
      PushedUpFocused(mem, t, c, root);
      PaintedRight(mem, parent, Black, first);
      SetColor(parent, Black);
      PaintedRight(mem, uncle, Black, first);
      SetColor(uncle, Black);
      PaintedRight(mem, grand, Red, first);
      SetColor(grand, Red);
    }

    /** A red inner child of a red parent on the right of the grandparent takes the parent's place. */
    method TurnOutFromRight(node: Node, ghost t: Tree, ghost c: Context, ghost h: nat, ghost first: Node)
      returns (node': Node, ghost t': Tree, ghost c': Context)
      requires Mirror() && Focused(mem, t, c, root) && RedAt(t, c, h) && !c.Top? && c.color == Red
      requires t.node == node && !c.up.Top? && c.up.InRight? && IsBlack(Beside(c.up))
      requires first in mem && Order(t, c) != [] && Order(t, c)[0] == first
      modifies this`mem, this`root, mem.Keys
      ensures Mirror() && Focused(mem, t', c', root) && RedAt(t', c', h) && t'.node == node'
      ensures Order(t', c') == Order(t, c) && c'.InRight? && c'.color == Red && c'.up == c.up
      ensures StaysBare(first)
    {
      hide Focused, Mirror, Order, Balanced, Holds;
      GrandparentFacts(mem, t, c, root, h);
      NodeFacts(mem, t, c, root);
      Read(node);
      Read(node.parent);
      node', t', c' := node, t, c;
      if node.parent.left == node {
        node' := node.parent;
        TurnedOutRedAt(t, c, h);
        InnerNotFirst(mem, t, c, root);
        RotateRight(node', UpTree(t, c), c.up);
        t', c' := T(t.right, c.node, Red, c.right), InRight(t.left, t.node, Red, c.up);
        FocusRight(mem, UpTree(t', c'), c'.up, root);
      }
    }

    /** The red parent of a red outer child on the right rises over the grandparent. */
    method TurnUpFromRight(node: Node, ghost t: Tree, ghost c: Context, ghost h: nat, ghost first: Node)
      returns (ghost c': Context)
      requires Mirror() && Focused(mem, t, c, root) && RedAt(t, c, h) && c.InRight? && c.color == Red
      requires t.node == node && !c.up.Top? && c.up.InRight? && IsBlack(Beside(c.up))
      requires first in mem && Order(t, c) != [] && Order(t, c)[0] == first
      modifies this`mem, this`root, mem.Keys
      ensures Mirror() && Focused(mem, t, c', root) && RedAt(t, c', h)
      ensures Order(t, c') == Order(t, c) && !c'.Top? && c'.color == Black && c'.up == c.up.up
      ensures StaysBare(first)
    {
      hide Focused, Mirror, Order, Balanced, Holds, Painted;
      GrandparentFacts(mem, t, c, root, h);
      NodeFacts(mem, t, c, root);
      Read(node);
      Read(node.parent);
      var parent := node.parent;
      var grand := parent.parent;
      ReadyToTurnFocused(mem, t, c, root);
      TurnedUpRedAt(t, c, h);
      PaintedRight(mem, parent, Black, first);
      SetColor(parent, Black);
      PaintedRight(mem, grand, Red, first);
      SetColor(grand, Red);
      RotateLeft(grand, T(c.up.left, grand, Red, T(c.left, parent, Black, t)), c.up.up);
      c' := InRight(T(c.up.left, grand, Red, c.left), parent, Black, c.up.up);
      FocusRight(mem, UpTree(t, c'), c'.up, root);
    }

    /** A red inner child of a red parent on the left of the grandparent takes the parent's place. */
    method TurnOutFromLeft(node: Node, ghost t: Tree, ghost c: Context, ghost h: nat, ghost first: Node)
      returns (node': Node, ghost t': Tree, ghost c': Context)
      requires Mirror() && Focused(mem, t, c, root) && RedAt(t, c, h) && !c.Top? && c.color == Red
      requires t.node == node && !c.up.Top? && c.up.InLeft? && IsBlack(Beside(c.up))
      requires first in mem && Order(t, c) != [] && Order(t, c)[0] == first
      modifies this`mem, this`root, mem.Keys
      ensures Mirror() && Focused(mem, t', c', root) && RedAt(t', c', h) && t'.node == node'
      ensures Order(t', c') == Order(t, c) && c'.InLeft? && c'.color == Red && c'.up == c.up
      ensures StaysBare(first)
    {
      hide Focused, Mirror, Order, Balanced, Holds;
      GrandparentFacts(mem, t, c, root, h);
      NodeFacts(mem, t, c, root);
      Read(node);
      Read(node.parent);
      node', t', c' := node, t, c;
      if node.parent.right == node {
        node' := node.parent;
        TurnedOutRedAt(t, c, h);
        RotateLeft(node', UpTree(t, c), c.up);
        t', c' := T(c.left, c.node, Red, t.left), InLeft(t.node, Red, t.right, c.up);
        FocusLeft(mem, UpTree(t', c'), c'.up, root);
      }
    }

    /** The red parent of a red outer child on the left rises over the grandparent. */
    method TurnUpFromLeft(node: Node, ghost t: Tree, ghost c: Context, ghost h: nat, ghost first: Node)
      returns (ghost c': Context)
      requires Mirror() && Focused(mem, t, c, root) && RedAt(t, c, h) && c.InLeft? && c.color == Red
      requires t.node == node && !c.up.Top? && c.up.InLeft? && IsBlack(Beside(c.up))
      requires first in mem && Order(t, c) != [] && Order(t, c)[0] == first
      modifies this`mem, this`root, mem.Keys
      ensures Mirror() && Focused(mem, t, c', root) && RedAt(t, c', h)
      ensures Order(t, c') == Order(t, c) && !c'.Top? && c'.color == Black && c'.up == c.up.up
      ensures StaysBare(first)
    {
      hide Focused, Mirror, Order, Balanced, Holds, Painted;
      GrandparentFacts(mem, t, c, root, h);
      NodeFacts(mem, t, c, root);
      Read(node);
      Read(node.parent);
      var parent := node.parent;
      var grand := parent.parent;
      ReadyToTurnFocused(mem, t, c, root);
      TurnedUpRedAt(t, c, h);
      OuterNotFirst(mem, t, c, root);
      PaintedRight(mem, parent, Black, first);
      SetColor(parent, Black);
      PaintedRight(mem, grand, Red, first);
      SetColor(grand, Red);
      RotateRight(grand, T(T(t, parent, Black, c.right), grand, Red, c.up.right), c.up.up);
      c' := InLeft(parent, Black, T(c.right, grand, Red, c.up.right), c.up.up);
      FocusLeft(mem, UpTree(t, c'), c'.up, root);
    }

    /** One step of the fix-up with the red parent on the right of the grandparent. */
    method FixParentOnRight(node: Node, ghost t: Tree, ghost c: Context, ghost h: nat, ghost first: Node)
      returns (node': Node, ghost t': Tree, ghost c': Context, ghost h': nat)
      requires Mirror() && Focused(mem, t, c, root) && RedAt(t, c, h) && !c.Top? && c.color == Red
      requires t.node == node && !c.up.Top? && c.up.InRight?
      requires first in mem && Order(t, c) != [] && Order(t, c)[0] == first
      modifies this`mem, this`root, mem.Keys
      ensures Mirror() && Focused(mem, t', c', root) && RedAt(t', c', h') && t'.node == node'
      ensures Order(t', c') == Order(t, c) && StaysBare(first)
      ensures c' == c.up.up || (!c'.Top? && c'.up == c.up.up)
    {
      hide Mirror, Focused, Order, Balanced, Holds, Painted;
      GrandparentFacts(mem, t, c, root, h);
      NodeFacts(mem, t, c, root);
      Read(node);
      Read(node.parent);
      var grand := node.parent.parent;
      Read(grand);
      node', t', c', h' := node, t, c, h;
      var uncle := grand.left;
      BesideColor(UpTree(t, c), c.up);
      if uncle != null && uncle.color == Red {
        PushedUpRedAt(t, c, h);
        RecolorUp(node.parent, uncle, grand, t, c, first);
        t', c', h' := PushedUp(t, c), c.up.up, h + 1;
        node' := grand;
      } else {
        node', t', c' := TurnOutFromRight(node, t, c, h, first);
        c' := TurnUpFromRight(node', t', c', h, first);
      }
    }

    /** One step of the fix-up with the red parent on the left of the grandparent. */
    method FixParentOnLeft(node: Node, ghost t: Tree, ghost c: Context, ghost h: nat, ghost first: Node)
      returns (node': Node, ghost t': Tree, ghost c': Context, ghost h': nat)
      requires Mirror() && Focused(mem, t, c, root) && RedAt(t, c, h) && !c.Top? && c.color == Red
      requires t.node == node && !c.up.Top? && c.up.InLeft?
      requires first in mem && Order(t, c) != [] && Order(t, c)[0] == first
      modifies this`mem, this`root, mem.Keys
      ensures Mirror() && Focused(mem, t', c', root) && RedAt(t', c', h') && t'.node == node'
      ensures Order(t', c') == Order(t, c) && StaysBare(first)
      ensures c' == c.up.up || (!c'.Top? && c'.up == c.up.up)
    {
      hide Mirror, Focused, Order, Balanced, Holds, Painted;
      GrandparentFacts(mem, t, c, root, h);
      NodeFacts(mem, t, c, root);
      Read(node);
      Read(node.parent);
      var grand := node.parent.parent;
      Read(grand);
      node', t', c', h' := node, t, c, h;
      var uncle := grand.right;
      BesideColor(UpTree(t, c), c.up);
      if uncle != null && uncle.color == Red {
        PushedUpRedAt(t, c, h);
        RecolorUp(node.parent, uncle, grand, t, c, first);
        t', c', h' := PushedUp(t, c), c.up.up, h + 1;
        node' := grand;
      } else {
        node', t', c' := TurnOutFromLeft(node, t, c, h, first);
        c' := TurnUpFromLeft(node', t', c', h, first);
      }
    }

    /** Restores the red-black rules above a red node: the order of the nodes stays as it is. */
    method InsertFixups(newNode: Node, ghost t0: Tree, ghost c0: Context, ghost h0: nat, ghost first: Node)
      requires Mirror() && Focused(mem, t0, c0, root) && RedAt(t0, c0, h0) && t0.node == newNode
      requires first in mem && Order(t0, c0) != [] && Order(t0, c0)[0] == first
      modifies this`mem, this`root, this`shape, mem.Keys
      ensures Mirror() && Focused(mem, shape, Top, root) && RedBlack(shape)
      ensures InOrder(shape) == Order(t0, c0) && StaysBare(first)
    {
      hide Mirror, Focused, Order, Balanced, Holds, Painted;
      var node := newNode;
      ghost var t, c, h := t0, c0, h0;
      NodeFacts(mem, t, c, root);
      Read(node);
      ParentColor(t, c);
      while node.parent != null && node.parent.color == Red
        invariant Mirror() && Focused(mem, t, c, root) && RedAt(t, c, h) && t.node == node
        invariant Order(t, c) == Order(t0, c0) && StaysBare(first)
        invariant node.parent == ParentOf(c) && (!c.Top? ==> c.node.color == c.color)
        decreases Depth(c)
      {
        GrandparentFacts(mem, t, c, root, h);
        ghost var depth := Depth(c.up.up);
        assert Depth(c) == 2 + depth;
        Read(node.parent);
        var grand := node.parent.parent;
        Read(grand);
        if grand.right == node.parent {
          node, t, c, h := FixParentOnRight(node, t, c, h, first);
        } else {
          node, t, c, h := FixParentOnLeft(node, t, c, h, first);
        }
        NodeFacts(mem, t, c, root);
        Read(node);
        ParentColor(t, c);
        assert Depth(c) <= 1 + depth;
      }
      RedAtSettled(t, c, h);
      FocusTop(mem, t, c, root);
      shape := Recolored(Plug(c, t), Black);
      NodeFacts(mem, Plug(c, t), Top, root);
      RootFacts(mem, Plug(c, t), Top, root);
      PaintFocused(mem, Plug(c, t), Top, root, Black);
      PaintedRight(mem, root, Black, first);
      SetColor(root, Black);
    }

    lemma ParentColor(t: Tree, c: Context)
      requires Mirror() && Focused(mem, t, c, root)
      ensures !c.Top? ==> c.node.color == c.color
    {
      SideFacts(mem, t, c, root);
    }

    lemma BesideColor(t: Tree, c: Context)
      requires Mirror() && Focused(mem, t, c, root) && !c.Top?
      ensures Beside(c).T? ==> Beside(c).node.color == Beside(c).color
    {
      BesideFacts(mem, t, c, root);
    }

    /** The node below which a node with this key is to hang. */
    method FindParent(key: int) returns (parent: Node?, ghost c: Context, ghost h: nat)
      requires Valid()
      ensures Focused(mem, Leaf, c, root) && Sound(Leaf, c, h) && ParentOf(c) == parent
      ensures Between(c, key) && Order(Leaf, c) == Contents()
      ensures !c.Top? ==> (c.InLeft? <==> key < c.node.key)
    {
      hide Mirror, Focused, Sorted;
      parent := null;
      var temp := root;
      ghost var t;
      t, c, h := shape, Top, BlackHeight(shape);
      RootFacts(mem, shape, Top, root);
      while temp != null
        invariant Focused(mem, t, c, root) && Sound(t, c, h) && Order(t, c) == Contents() && Between(c, key)
        invariant RootOf(t) == temp && ParentOf(c) == parent
        invariant !c.Top? ==> (c.InLeft? <==> key < c.node.key)
        decreases t
      {
        NodeFacts(mem, t, c, root);
        Read(temp);
        OrderDown(t, c);
        h := SoundDown(t, c, h);
        parent := temp;
        if key < temp.key {
          FocusLeft(mem, t, c, root);
          temp := temp.left;
          t, c := t.left, InLeft(t.node, t.color, t.right, c);
        } else {
          FocusRight(mem, t, c, root);
          temp := temp.right;
          t, c := t.right, InRight(t.left, t.node, t.color, c);
        }
      }
    }

    /** The first node of an empty tree. */
    method PlantRoot(node: Node)
      requires Mirror() && Focused(mem, Leaf, Top, root) && node !in mem
      requires node.left == null && node.right == null && node.parent == null
      modifies this, node`color
      ensures Mirror() && Focused(mem, shape, Top, root) && shape == T(Leaf, node, Black, Leaf)
      ensures size == 1 && minimum == node && mem.Keys == old(mem.Keys) + {node}
    {
      hide Focused;
      assert mem.Keys == {} by {
        FocusedParts(mem, Leaf, Top, root);
      }
      RootFacts(mem, Leaf, Top, root);
      node.color := Black;
      root := node;
      size := 1;
      minimum := node;
      AttachFocused(mem, mem[node := Cell(null, null, null, Black)], Top, null, node, node, Black);
      mem := mem[node := Cell(null, null, null, Black)];
      shape := T(Leaf, node, Black, Leaf);
    }

    /** Adds a node: behind all nodes whose keys are not larger. */
    method Insert(node: Node)
      requires Valid() && node !in mem
      requires node.left == null && node.right == null && node.parent == null && node.color == Red
      modifies this, mem.Keys, node
      ensures Valid() && Contents() == Inserted(old(Contents()), node)
      ensures mem.Keys == old(mem.Keys) + {node}
      ensures |old(Contents())| == 1 ==> root == old(root)
    {
      hide Mirror, Focused, Sorted, Inserted, Order, Before, After, Balanced, Holds, RedBlack, InOrder, Sound, Between;
      ghost var order := Contents();
      var parent;
      ghost var c, h;
      parent, c, h := FindParent(node.key);
      InsertedHere(c, node);
      InsertedSorted(order, node);
      if parent == null {
        assert c == Top;
        EmptyOrder();
        PlantRoot(node);
        SingleTree(node);
        return;
      }
      OrderNotEmpty(Leaf, c);
      FirstInMemory(mem, Leaf, c, root);
      OnlyNodeIsRoot(mem, c, root);
      Attach(node, parent, c);
      Settle(node, parent, c, h, order);
      InsertedSize(order, node);
    }

    /** The only node of a tree is its root. */
    lemma OnlyNode(node: Node)
      requires Valid() && Contents() == [node]
      ensures root == node
    {
      FocusedParts(mem, shape, Top, root);
      assert shape.T? && |InOrder(shape.left)| + 1 + |InOrder(shape.right)| == 1;
      assert [][..] + [shape.node] + [] == [shape.node];
    }

    /** Repairs the tree around a node just attached, and keeps the size and the minimum. */
    method Settle(node: Node, parent: Node, ghost c: Context, ghost h: nat, ghost order: seq<Node>)
      requires Mirror() && Focused(mem, T(Leaf, node, Red, Leaf), c, root) && ParentOf(c) == parent && Sound(Leaf, c, h)
      requires order == Before(c) + After(c) && Order(T(Leaf, node, Red, Leaf), c) == Before(c) + [node] + After(c)
      requires minimum == FirstOf(order) && minimum != null && minimum in mem && mem[node].right == null
      modifies this, mem.Keys
      ensures Mirror() && Focused(mem, shape, Top, root) && RedBlack(shape) && mem.Keys == old(mem.Keys)
      ensures InOrder(shape) == Before(c) + [node] + After(c)
      ensures size == old(size) + 1 && minimum == FirstOf(Before(c) + [node] + After(c))
      ensures parent in mem && (old(mem)[parent].parent == null ==> root == old(root))
    {
      hide Mirror, Focused, Order, Before, After, Balanced, InOrder, RedBlack;
      ghost var t := T(Leaf, node, Red, Leaf);
      ghost var first := Order(t, c)[0];
      SoundRedAt(node, c, h);
      SideFacts(mem, t, c, root);
      NodeFacts(mem, t, c, root);
      Read(parent);
      FirstInMemory(mem, t, c, root);
      if parent.parent != null {
        InsertFixups(node, t, c, h, first);
      } else {
        RedAtSettled(t, c, h);
        FocusTop(mem, t, c, root);
        shape := Plug(c, t);
      }
      size := size + 1;
      MinimumAfterInsertion(mem, shape, root, node, minimum, Before(c), After(c));
      Read(minimum);
      if minimum.left == node {
        minimum := node;
      }
    }

    /** Hangs a new node below its parent. */
    method Attach(node: Node, parent: Node, ghost c: Context)
      requires Mirror() && Focused(mem, Leaf, c, root) && ParentOf(c) == parent && node !in mem
      requires node.left == null && node.right == null && node.parent == null && node.color == Red
      requires c.InLeft? <==> node.key < parent.key
      modifies this`mem, mem.Keys, node
      ensures Mirror() && Focused(mem, T(Leaf, node, Red, Leaf), c, root)
      ensures mem.Keys == old(mem.Keys) + {node} && mem[node].right == null
      ensures parent in old(mem) && mem[parent].parent == old(mem)[parent].parent && root == old(root)
    {
      hide Focused, Mirror;
      SideFacts(mem, Leaf, c, root);
      ghost var mem0 := mem;
      Enter(node);
      if node.key < parent.key {
        SetLeft(parent, node);
      } else {
        SetRight(parent, node);
      }
      SetParent(node, parent);
      AttachFocused(mem0, mem, c, root, root, node, Red);
    }

    ghost method Enter(node: Node)
      requires Mirror() && node !in mem
      modifies this`mem
      ensures Mirror() && mem == old(mem)[node := Cell(node.left, node.right, node.parent, node.color)]
    {
      mem := mem[node := Cell(node.left, node.right, node.parent, node.color)];
    }

    // ----- Removal -----

    lemma NephewColors(t: Tree, c: Context)
      requires Mirror() && Focused(mem, t, c, root) && !c.Top? && Beside(c).T?
      ensures Beside(c).node in mem && Beside(c).node.color == Beside(c).color
      ensures c.InLeft? ==> Beside(c).node.left == RootOf(Near(c)) && Beside(c).node.right == RootOf(Far(c))
      ensures c.InRight? ==> Beside(c).node.right == RootOf(Near(c)) && Beside(c).node.left == RootOf(Far(c))
      ensures Near(c).T? ==> Near(c).node in mem && Near(c).node.color == Near(c).color
      ensures Far(c).T? ==> Far(c).node in mem && Far(c).node.color == Far(c).color
    {
      BesideFacts(mem, t, c, root);
      NephewFacts(mem, t, c, root);
    }

    lemma ParentLinks(t: Tree, c: Context)
      requires Mirror() && Focused(mem, t, c, root) && !c.Top?
      ensures c.node in mem && c.node.color == c.color && c.node.parent == ParentOf(c.up)
      ensures c.InLeft? ==> c.node.left == RootOf(t) && c.node.right == RootOf(Beside(c))
      ensures c.InRight? ==> c.node.right == RootOf(t) && c.node.left == RootOf(Beside(c))
      ensures c.InRight? && Beside(c).T? ==> c.node.left != RootOf(t)
    {
      SideFacts(mem, t, c, root);
    }

    /** Beside a focus on the left, a red sibling makes way for a black one. */
    method BlackSiblingOnRight(parent: Node, sibling0: Node, ghost t: Tree, ghost c: Context, ghost h: nat)
      returns (sibling: Node, ghost c': Context)
      requires Mirror() && Focused(mem, t, c, root) && ShortAt(t, c, h) && c.InLeft? && c.node == parent
      requires Beside(c).T? && Beside(c).node == sibling0
      modifies this`mem, this`root, mem.Keys
      ensures Mirror() && Focused(mem, t, c', root) && ShortAt(t, c', h) && c'.InLeft? && c'.node == parent
      ensures Beside(c').T? && Beside(c').node == sibling && Beside(c').color == Black
      ensures Order(t, c') == Order(t, c) && (c' == c || c'.color == Red) && mem.Keys == old(mem.Keys)
    {
      hide Mirror, Focused, Order, Holds, Short, Painted;
      sibling, c' := sibling0, c;
      NephewColors(t, c);
      if sibling.color == Red {
        SiblingTurnedShort(t, c, h);
        SiblingReadyFocused(mem, t, c, root);
        SetColor(sibling, Black);
        SetColor(parent, Red);
        RotateLeft(parent, T(t, parent, Red, Recolored(c.right, Black)), c.up);
        c' := SiblingTurned(c);
        FocusLeft(mem, UpTree(UpTree(t, c'), c'.up), c.up, root);
        FocusLeft(mem, UpTree(t, c'), c'.up, root);
        ParentLinks(t, c');
        sibling := parent.right;
      }
    }

    /** Beside a focus on the left, a red near nephew becomes the sibling, with a red far nephew. */
    method RedFarNephewOnRight(parent: Node, sibling0: Node, ghost t: Tree, ghost c: Context, ghost h: nat)
      returns (sibling: Node, ghost c': Context)
      requires Mirror() && Focused(mem, t, c, root) && ShortAt(t, c, h) && c.InLeft? && c.node == parent
      requires Beside(c).T? && Beside(c).node == sibling0 && Beside(c).color == Black
      requires !IsBlack(Near(c)) || !IsBlack(Far(c))
      modifies this`mem, this`root, mem.Keys
      ensures Mirror() && Focused(mem, t, c', root) && ShortAt(t, c', h) && c'.InLeft? && c'.node == parent
      ensures Beside(c').T? && Beside(c').node == sibling && Beside(c').color == Black && !IsBlack(Far(c'))
      ensures Order(t, c') == Order(t, c) && c'.up == c.up && mem.Keys == old(mem.Keys)
    {
      hide Mirror, Focused, Order, Holds, Short, Painted;
      sibling, c' := sibling0, c;
      NephewColors(t, c);
      if sibling.right == null || sibling.right.color == Black {
        NephewTurnedShort(t, c, h);
        NephewReadyFocused(mem, t, c, root);
        SetColor(sibling.left, Black);
        SetColor(sibling, Red);
        RotateRight(sibling, T(Recolored(c.right.left, Black), sibling, Red, c.right.right), Across(t, c));
        c' := NephewTurned(c);
        FocusBack(mem, t, c, root, Beside(c'));
        ParentLinks(t, c');
        sibling := parent.right;
      }
    }

    /** Beside a focus on the left, a red far nephew gives the black node that is missing. */
    method FinishFromRight(parent: Node, sibling: Node, ghost t: Tree, ghost c: Context, ghost h: nat)
      requires Mirror() && Focused(mem, t, c, root) && ShortAt(t, c, h) && IsBlack(t) && c.InLeft? && c.node == parent
      requires Beside(c).T? && Beside(c).node == sibling && Beside(c).color == Black && !IsBlack(Far(c))
      modifies this`mem, this`root, mem.Keys
      ensures Mirror() && Focused(mem, Plug(c.up, Finished(t, c)), Top, root) && RedBlack(Plug(c.up, Finished(t, c)))
      ensures InOrder(Plug(c.up, Finished(t, c))) == Order(t, c) && mem.Keys == old(mem.Keys)
      ensures Plug(c.up, Finished(t, c)).T?
    {
      hide Mirror, Focused, Order, Holds, Short, Painted, RedBlack, Balanced, InOrder, Plug;
      NephewColors(t, c);
      ParentLinks(t, c);
      FinishedRedBlack(t, c, h);
      PlugKeeps(Finished(t, c), c.up);
      FinishReadyFocused(mem, t, c, root);
      SetColor(sibling, parent.color);
      SetColor(parent, Black);
      assert sibling.right == Far(c).node;
      SetColor(sibling.right, Black);
      RotateLeft(parent, T(t, parent, Black, c.right.(color := c.color, right := Recolored(c.right.right, Black))), c.up);
      FocusTop(mem, Finished(t, c), c.up, root);
    }

    /** Beside a focus on the right, a red sibling makes way for a black one. */
    method BlackSiblingOnLeft(parent: Node, sibling0: Node, ghost t: Tree, ghost c: Context, ghost h: nat)
      returns (sibling: Node, ghost c': Context)
      requires Mirror() && Focused(mem, t, c, root) && ShortAt(t, c, h) && c.InRight? && c.node == parent
      requires Beside(c).T? && Beside(c).node == sibling0
      modifies this`mem, this`root, mem.Keys
      ensures Mirror() && Focused(mem, t, c', root) && ShortAt(t, c', h) && c'.InRight? && c'.node == parent
      ensures Beside(c').T? && Beside(c').node == sibling && Beside(c').color == Black
      ensures Order(t, c') == Order(t, c) && (c' == c || c'.color == Red) && mem.Keys == old(mem.Keys)
    {
      hide Mirror, Focused, Order, Holds, Short, Painted;
      sibling, c' := sibling0, c;
      NephewColors(t, c);
      if sibling.color == Red {
        SiblingTurnedShort(t, c, h);
        SiblingReadyFocused(mem, t, c, root);
        SetColor(sibling, Black);
        SetColor(parent, Red);
        RotateRight(parent, T(Recolored(c.left, Black), parent, Red, t), c.up);
        c' := SiblingTurned(c);
        FocusRight(mem, UpTree(UpTree(t, c'), c'.up), c.up, root);
        FocusRight(mem, UpTree(t, c'), c'.up, root);
        ParentLinks(t, c');
        sibling := parent.left;
      }
    }

    /** Beside a focus on the right, a red near nephew becomes the sibling, with a red far nephew. */
    method RedFarNephewOnLeft(parent: Node, sibling0: Node, ghost t: Tree, ghost c: Context, ghost h: nat)
      returns (sibling: Node, ghost c': Context)
      requires Mirror() && Focused(mem, t, c, root) && ShortAt(t, c, h) && c.InRight? && c.node == parent
      requires Beside(c).T? && Beside(c).node == sibling0 && Beside(c).color == Black
      requires !IsBlack(Near(c)) || !IsBlack(Far(c))
      modifies this`mem, this`root, mem.Keys
      ensures Mirror() && Focused(mem, t, c', root) && ShortAt(t, c', h) && c'.InRight? && c'.node == parent
      ensures Beside(c').T? && Beside(c').node == sibling && Beside(c').color == Black && !IsBlack(Far(c'))
      ensures Order(t, c') == Order(t, c) && c'.up == c.up && mem.Keys == old(mem.Keys)
    {
      hide Mirror, Focused, Order, Holds, Short, Painted;
      sibling, c' := sibling0, c;
      NephewColors(t, c);
      if sibling.left == null || sibling.left.color == Black {
        NephewTurnedShort(t, c, h);
        NephewReadyFocused(mem, t, c, root);
        SetColor(sibling.right, Black);
        SetColor(sibling, Red);
        RotateLeft(sibling, T(c.left.left, sibling, Red, Recolored(c.left.right, Black)), Across(t, c));
        c' := NephewTurned(c);
        FocusBack(mem, t, c, root, Beside(c'));
        ParentLinks(t, c');
        sibling := parent.left;
      }
    }

    /** Beside a focus on the right, a red far nephew gives the black node that is missing. */
    method FinishFromLeft(parent: Node, sibling: Node, ghost t: Tree, ghost c: Context, ghost h: nat)
      requires Mirror() && Focused(mem, t, c, root) && ShortAt(t, c, h) && IsBlack(t) && c.InRight? && c.node == parent
      requires Beside(c).T? && Beside(c).node == sibling && Beside(c).color == Black && !IsBlack(Far(c))
      modifies this`mem, this`root, mem.Keys
      ensures Mirror() && Focused(mem, Plug(c.up, Finished(t, c)), Top, root) && RedBlack(Plug(c.up, Finished(t, c)))
      ensures InOrder(Plug(c.up, Finished(t, c))) == Order(t, c) && mem.Keys == old(mem.Keys)
      ensures Plug(c.up, Finished(t, c)).T?
    {
      hide Mirror, Focused, Order, Holds, Short, Painted, RedBlack, Balanced, InOrder, Plug;
      NephewColors(t, c);
      ParentLinks(t, c);
      FinishedRedBlack(t, c, h);
      PlugKeeps(Finished(t, c), c.up);
      FinishReadyFocused(mem, t, c, root);
      SetColor(sibling, parent.color);
      SetColor(parent, Black);
      assert sibling.left == Far(c).node;
      SetColor(sibling.left, Black);
      RotateRight(parent, T(c.left.(color := c.color, left := Recolored(c.left.left, Black)), parent, Black, t), c.up);
      FocusTop(mem, Finished(t, c), c.up, root);
    }

    /** What is left to do: nothing more once the focus is the root or red. */
    static ghost function Missing(t: Tree, c: Context): nat {
      if c.Top? || !IsBlack(t) then 0 else 1 + Depth(c)
    }

    /** One step of the fix-up with the focus on the left of its parent. */
    method FixBesideRight(parent: Node, ghost t: Tree, ghost c: Context, ghost h: nat)
      returns (node: Node, ghost t': Tree, ghost c': Context, ghost h': nat)
      requires Mirror() && Focused(mem, t, c, root) && ShortAt(t, c, h) && IsBlack(t) && c.InLeft? && c.node == parent
      requires parent in mem && parent.right == RootOf(Beside(c))
      modifies this`mem, this`root, mem.Keys
      ensures Mirror() && Focused(mem, t', c', root) && ShortAt(t', c', h') && mem.Keys == old(mem.Keys)
      ensures Order(t', c') == Order(t, c) && t'.T? && t'.node == node && Missing(t', c') < Missing(t, c)
    {
      hide Mirror, Focused, Order, Holds, Short, Painted, RedBlack, Balanced, InOrder, Plug;
      SiblingExists(t, c, h);
      var sibling := parent.right;
      ghost var c1;
      sibling, c1 := BlackSiblingOnRight(parent, sibling, t, c, h);
      NephewColors(t, c1);
      if (sibling.left == null || sibling.left.color == Black) && (sibling.right == null || sibling.right.color == Black) {
        SiblingPaintedShort(t, c1, h);
        PaintBesideFocused(mem, t, c1, root, Red);
        SetColor(sibling, Red);
        FocusUp(mem, t, WithBeside(c1, Recolored(Beside(c1), Red)), root);
        t', c', h' := UpTree(t, WithBeside(c1, Recolored(Beside(c1), Red))), c1.up, if c1.color == Red then h else h + 1;
        node := parent;
      } else {
        sibling, c1 := RedFarNephewOnRight(parent, sibling, t, c1, h);
        FinishFromRight(parent, sibling, t, c1, h);
        t', c' := Plug(c1.up, Finished(t, c1)), Top;
        h' := BlackHeight(t');
        WholeShort(t', h');
        RootFacts(mem, t', c', root);
        node := root;
      }
    }

    /** One step of the fix-up with the focus on the right of its parent. */
    method FixBesideLeft(parent: Node, ghost t: Tree, ghost c: Context, ghost h: nat)
      returns (node: Node, ghost t': Tree, ghost c': Context, ghost h': nat)
      requires Mirror() && Focused(mem, t, c, root) && ShortAt(t, c, h) && IsBlack(t) && c.InRight? && c.node == parent
      requires parent in mem && parent.left == RootOf(Beside(c))
      modifies this`mem, this`root, mem.Keys
      ensures Mirror() && Focused(mem, t', c', root) && ShortAt(t', c', h') && mem.Keys == old(mem.Keys)
      ensures Order(t', c') == Order(t, c) && t'.T? && t'.node == node && Missing(t', c') < Missing(t, c)
    {
      hide Mirror, Focused, Order, Holds, Short, Painted, RedBlack, Balanced, InOrder, Plug;
      SiblingExists(t, c, h);
      var sibling := parent.left;
      ghost var c1;
      sibling, c1 := BlackSiblingOnLeft(parent, sibling, t, c, h);
      NephewColors(t, c1);
      if (sibling.left == null || sibling.left.color == Black) && (sibling.right == null || sibling.right.color == Black) {
        SiblingPaintedShort(t, c1, h);
        PaintBesideFocused(mem, t, c1, root, Red);
        SetColor(sibling, Red);
        FocusUp(mem, t, WithBeside(c1, Recolored(Beside(c1), Red)), root);
        t', c', h' := UpTree(t, WithBeside(c1, Recolored(Beside(c1), Red))), c1.up, if c1.color == Red then h else h + 1;
        node := parent;
      } else {
        sibling, c1 := RedFarNephewOnLeft(parent, sibling, t, c1, h);
        FinishFromLeft(parent, sibling, t, c1, h);
        t', c' := Plug(c1.up, Finished(t, c1)), Top;
        h' := BlackHeight(t');
        WholeShort(t', h');
        RootFacts(mem, t', c', root);
        node := root;
      }
    }

    /** Restores equal black heights when every way through the focus, possibly a leaf, lacks one black node. */
    method RemoveFixups(node0: Node?, parent0: Node?, ghost t0: Tree, ghost c0: Context, ghost h0: nat)
      requires Mirror() && Focused(mem, t0, c0, root) && ShortAt(t0, c0, h0)
      requires RootOf(t0) == node0 && ParentOf(c0) == parent0 && (t0.T? || !c0.Top?)
      modifies this`mem, this`root, this`shape, mem.Keys
      ensures Mirror() && Focused(mem, shape, Top, root) && RedBlack(shape)
      ensures InOrder(shape) == Order(t0, c0) && mem.Keys == old(mem.Keys)
    {
      hide Mirror, Focused, Order, Holds, Short, Painted, RedBlack, Balanced, InOrder, Plug, Missing;
      var node, parent := node0, parent0;
      ghost var t, c, h := t0, c0, h0;
      RootFacts(mem, t, c, root);
      FocusColor(t, c);
      while node != root && (node == null || node.color == Black)
        invariant Mirror() && Focused(mem, t, c, root) && ShortAt(t, c, h) && mem.Keys == old(mem.Keys)
        invariant Order(t, c) == Order(t0, c0)
        invariant RootOf(t) == node && ParentOf(c) == parent && (t.T? || !c.Top?)
        invariant c.Top? <==> node == root
        invariant node != null ==> node in mem && node.color == t.color
        decreases Missing(t, c)
      {
        SiblingExists(t, c, h);
        ParentLinks(t, c);
        if parent.left == node {
          node, t, c, h := FixBesideRight(parent, t, c, h);
        } else {
          node, t, c, h := FixBesideLeft(parent, t, c, h);
        }
        RootFacts(mem, t, c, root);
        FocusColor(t, c);
        parent := node.parent;
      }
      ShortSettled(t, c, h);
      PaintFocused(mem, t, c, root, Black);
      SetColor(node, Black);
      FocusTop(mem, Recolored(t, Black), c, root);
      shape := Plug(c, Recolored(t, Black));
    }

    lemma FocusColor(t: Tree, c: Context)
      requires Mirror() && Focused(mem, t, c, root)
      ensures t.T? ==> t.node in mem && t.node.color == t.color && t.node.parent == ParentOf(c)
    {
      if t.T? {
        NodeFacts(mem, t, c, root);
      }
    }

    // ----- Neighbours in order -----

    lemma NodeChildren(t: Tree, c: Context)
      requires Mirror() && Focused(mem, t, c, root) && t.T?
      ensures t.node in mem && t.node.left == RootOf(t.left) && t.node.right == RootOf(t.right)
    {
      NodeFacts(mem, t, c, root);
    }

    lemma Sides(t: Tree, c: Context)
      requires Mirror() && Focused(mem, t, c, root) && t.T?
      ensures t.node.parent == ParentOf(c)
      ensures !c.Top? ==> c.node in mem && c.node.parent == ParentOf(c.up)
      ensures !c.Top? ==> (c.InLeft? <==> t.node == c.node.left) && (c.InRight? <==> t.node == c.node.right)
    {
      NodeFacts(mem, t, c, root);
      SideFacts(mem, t, c, root);
    }

    lemma FocusOnNode(n: Node) returns (t: Tree, c: Context)
      requires Focused(mem, shape, Top, root) && n in mem
      ensures Focused(mem, t, c, root) && t.T? && t.node == n && Plug(c, t) == shape
      ensures Order(t, c) == InOrder(shape) && Distinct(Order(t, c))
    {
      t, c := FocusOn(mem, shape, Top, root, n);
      PlugOrder(t, c);
      OrderDistinct(mem, t, c, root);
    }

    /** The first node in order of a subtree. */
    method Leftmost(node: Node, ghost t: Tree, ghost c: Context) returns (s: Node, ghost ts: Tree, ghost cs: Context)
      requires Mirror() && Focused(mem, t, c, root) && t.T? && t.node == node
      ensures Focused(mem, ts, cs, root) && ts.T? && ts.node == s && ts.left.Leaf? && s in mem && s in Nodes(t)
      ensures Before(cs) == Before(c) && Order(ts, cs) == Order(t, c) && Plug(cs, ts) == Plug(c, t)
    {
      hide Mirror, Focused, Order;
      s, ts, cs := node, t, c;
      FocusColor(ts, cs);
      NodeChildren(ts, cs);
      while s.left != null
        invariant Focused(mem, ts, cs, root) && ts.T? && ts.node == s && s in mem && Nodes(ts) <= Nodes(t)
        invariant s.left == RootOf(ts.left)
        invariant Before(cs) == Before(c) && Order(ts, cs) == Order(t, c) && Plug(cs, ts) == Plug(c, t)
        decreases ts
      {
        FocusLeft(mem, ts, cs, root);
        OrderDown(ts, cs);
        s := s.left;
        ts, cs := ts.left, InLeft(ts.node, ts.color, ts.right, cs);
        FocusColor(ts, cs);
        NodeChildren(ts, cs);
      }
    }

    /** The last node in order of a subtree. */
    method Rightmost(node: Node, ghost t: Tree, ghost c: Context) returns (s: Node, ghost ts: Tree, ghost cs: Context)
      requires Mirror() && Focused(mem, t, c, root) && t.T? && t.node == node
      ensures Focused(mem, ts, cs, root) && ts.T? && ts.node == s && ts.right.Leaf? && s in mem && s in Nodes(t)
      ensures After(cs) == After(c) && Order(ts, cs) == Order(t, c) && Plug(cs, ts) == Plug(c, t)
    {
      hide Mirror, Focused, Order;
      s, ts, cs := node, t, c;
      FocusColor(ts, cs);
      NodeChildren(ts, cs);
      while s.right != null
        invariant Focused(mem, ts, cs, root) && ts.T? && ts.node == s && s in mem && Nodes(ts) <= Nodes(t)
        invariant s.right == RootOf(ts.right)
        invariant After(cs) == After(c) && Order(ts, cs) == Order(t, c) && Plug(cs, ts) == Plug(c, t)
        decreases ts
      {
        FocusRight(mem, ts, cs, root);
        OrderDown(ts, cs);
        s := s.right;
        ts, cs := ts.right, InRight(ts.left, ts.node, ts.color, cs);
        FocusColor(ts, cs);
        NodeChildren(ts, cs);
      }
    }

    /** The next node in order, or null behind the last one. */
    method Successor(n: Node) returns (s: Node?, ghost ts: Tree, ghost cs: Context)
      requires Mirror() && Focused(mem, shape, Top, root) && n in mem
      ensures Follows(InOrder(shape), n, s) && (s != null ==> s in mem)
      ensures n.right != null ==>
                s != null && Focused(mem, ts, cs, root) && ts.T? && ts.node == s && ts.left.Leaf? && Plug(cs, ts) == shape
      ensures n.left != null && n.right != null ==> Exchangeable(mem, root, n, s)
    {
      hide Mirror, Focused, Order, Distinct, Follows, Precedes, Exchangeable;
      ghost var t, c := FocusOnNode(n);
      NodeChildren(t, c);
      OrderAround(t, c);
      LeafOrder();
      FollowsSplit(Order(t, c), Before(c) + InOrder(t.left), n, InOrder(t.right) + After(c));
      if n.right != null {
        FocusRight(mem, t, c, root);
        OrderDown(t, c);
        s, ts, cs := Leftmost(n.right, t.right, InRight(t.left, t.node, t.color, c));
        NextBelow(t, c, ts, cs);
        if n.left != null {
          LinksAgree(mem, shape, root);
          NodeFacts(mem, ts, cs, root);
          BelowIsExchangeable(mem, t, c, root, s);
        }
        return;
      }
      ts, cs := t, c;
      var node := n;
      s := n.parent;
      Sides(ts, cs);
      while s != null && node == s.right
        invariant Focused(mem, ts, cs, root) && ts.T? && ts.node == node && ParentOf(cs) == s && After(cs) == After(c)
        invariant s != null ==> s in mem && (cs.InRight? <==> node == s.right)
        decreases Depth(cs)
      {
        FocusUp(mem, ts, cs, root);
        node := s;
        s := s.parent;
        ts, cs := UpTree(ts, cs), cs.up;
        Sides(ts, cs);
      }
    }

    /** The previous node in order, or null before the first one. */
    method Predecessor(n: Node) returns (s: Node?)
      requires Mirror() && Focused(mem, shape, Top, root) && n in mem
      ensures Precedes(InOrder(shape), s, n) && (s != null ==> s in mem)
    {
      hide Mirror, Focused, Order, Distinct, Follows, Precedes, Exchangeable;
      ghost var t, c := FocusOnNode(n);
      NodeChildren(t, c);
      OrderAround(t, c);
      LeafOrder();
      PrecedesSplit(Order(t, c), Before(c) + InOrder(t.left), n, InOrder(t.right) + After(c));
      if n.left != null {
        FocusLeft(mem, t, c, root);
        OrderDown(t, c);
        ghost var ts, cs;
        s, ts, cs := Rightmost(n.left, t.left, InLeft(t.node, t.color, t.right, c));
        PreviousBelow(t, c, ts, cs);
        return;
      }
      ghost var ts, cs := t, c;
      var node := n;
      s := n.parent;
      Sides(ts, cs);
      while s != null && node == s.left
        invariant Focused(mem, ts, cs, root) && ts.T? && ts.node == node && ParentOf(cs) == s && Before(cs) == Before(c)
        invariant s != null ==> s in mem && (cs.InLeft? <==> node == s.left)
        decreases Depth(cs)
      {
        FocusUp(mem, ts, cs, root);
        node := s;
        s := s.parent;
        ts, cs := UpTree(ts, cs), cs.up;
        Sides(ts, cs);
      }
    }

    /** The nodes around a node with two children and around its successor refer to the other of the two. */
    method RenameNeighbours(node: Node, successor: Node, neighborSwap: bool)
      requires Mirror() && Exchangeable(mem, root, node, successor) && (neighborSwap <==> successor.parent == node)
      modifies this`mem, this`root, mem.Keys
      ensures Surrounded(old(mem), node, successor) && Mirror() && mem == NeighboursRenamed(old(mem), node, successor)
      ensures root == if old(mem)[node].parent == null then successor else old(root)
    {
      hide Exchangeable, Mirror, RepointedMemory;
      ExchangeableSurrounded(mem, root, node, successor);
      ghost var mem0, cell := mem, mem[node];
      Read(node);
      Read(successor);
      SetParent(node.left, successor);
      assert mem == ParentSet(mem0, cell.left, successor) && mem[node] == cell && mem[successor] == mem0[successor];
      Read(node);
      if !neighborSwap {
        SetParent(node.right, successor);
      }
      assert mem[node] == cell && mem[successor] == mem0[successor];
      ghost var m2 := mem;
      Read(node);
      Repoint(node.parent, node, successor);
      RepointedAt(m2, cell.parent, node, successor, successor);
      Read(successor);
      if successor.right != null {
        SetParent(successor.right, node);
      }
    }

    /** The two nodes exchange their children and colours; the upper one may be the lower one's parent. */
    method ExchangeCells(node: Node, successor: Node, neighborSwap: bool, ghost base: Memory, ghost n: Cell, ghost s: Cell)
      requires Mirror() && node in base && successor in base && node != successor
      requires mem == WithCells(base, node, successor, n, s)
      modifies this`mem, mem.Keys
      ensures Mirror()
      ensures mem == WithCells(base, node, successor,
                               Cell(s.left, s.right, n.parent, s.color),
                               Cell(n.left, if neighborSwap then node else n.right, s.parent, n.color))
    {
      hide Mirror, WithCells, Painted;
      ExchangeLefts(node, successor, base, n, s);
      ghost var n1, s1 := n.(left := s.left), s.(left := n.left);
      ExchangeRights(node, successor, neighborSwap, base, n1, s1);
      ExchangeColors(node, successor, base, n1.(right := s.right), s1.(right := if neighborSwap then node else n.right));
    }

    method ExchangeRights(node: Node, successor: Node, neighborSwap: bool, ghost base: Memory, ghost n: Cell, ghost s: Cell)
      requires Mirror() && node in base && successor in base && node != successor
      requires mem == WithCells(base, node, successor, n, s)
      modifies this`mem, mem.Keys
      ensures Mirror()
      ensures mem == WithCells(base, node, successor, n.(right := s.right), s.(right := if neighborSwap then node else n.right))
    {
      hide Mirror, WithCells;
      Read(node);
      Read(successor);
      var right := if neighborSwap then node else node.right;
      WithCellsSet(base, node, successor, n, s, n.(right := s.right));
      SetRight(node, successor.right);
      WithCellsSet(base, node, successor, n.(right := s.right), s, s.(right := right));
      SetRight(successor, right);
    }

    method ExchangeLefts(node: Node, successor: Node, ghost base: Memory, ghost n: Cell, ghost s: Cell)
      requires Mirror() && node in base && successor in base && node != successor
      requires mem == WithCells(base, node, successor, n, s)
      modifies this`mem, mem.Keys
      ensures Mirror() && mem == WithCells(base, node, successor, n.(left := s.left), s.(left := n.left))
    {
      hide Mirror, WithCells;
      Read(node);
      Read(successor);
      var left := node.left;
      WithCellsSet(base, node, successor, n, s, n.(left := s.left));
      SetLeft(node, successor.left);
      WithCellsSet(base, node, successor, n.(left := s.left), s, s.(left := left));
      SetLeft(successor, left);
    }

    method ExchangeColors(node: Node, successor: Node, ghost base: Memory, ghost n: Cell, ghost s: Cell)
      requires Mirror() && node in base && successor in base && node != successor
      requires mem == WithCells(base, node, successor, n, s)
      modifies this`mem, mem.Keys
      ensures Mirror() && mem == WithCells(base, node, successor, n.(color := s.color), s.(color := n.color))
    {
      hide Mirror, WithCells;
      Read(node);
      Read(successor);
      var color := node.color;
      WithCellsSet(base, node, successor, n, s, n.(color := s.color));
      SetColor(node, successor.color);
      WithCellsSet(base, node, successor, n.(color := s.color), s, s.(color := color));
      SetColor(successor, color);
    }

    /** Each of the two nodes, which are not parent and child, gets the other one's parent. */
    method ExchangeParents(node: Node, successor: Node, ghost base: Memory, ghost n: Cell, ghost s: Cell)
      requires Mirror() && node in base && successor in base && node != successor
      requires mem == WithCells(base, node, successor, n, s)
      modifies this`mem, mem.Keys
      ensures Mirror() && mem == WithCells(base, node, successor, n.(parent := s.parent), s.(parent := n.parent))
    {
      hide Mirror, WithCells;
      Read(node);
      Read(successor);
      var parent := node.parent;
      WithCellsSet(base, node, successor, n, s, n.(parent := s.parent));
      SetParent(node, successor.parent);
      WithCellsSet(base, node, successor, n.(parent := s.parent), s, s.(parent := parent));
      SetParent(successor, parent);
    }

    /** A node hung below its own right child, which gets its parent. */
    method ExchangeWithChild(node: Node, successor: Node, ghost base: Memory, ghost n: Cell, ghost s: Cell)
      requires Mirror() && node in base && successor in base && node != successor
      requires mem == WithCells(base, node, successor, n, s)
      modifies this`mem, mem.Keys
      ensures Mirror() && mem == WithCells(base, node, successor, n.(parent := successor), s.(parent := n.parent))
    {
      hide Mirror, WithCells;
      Read(node);
      WithCellsSet(base, node, successor, n, s, s.(parent := n.parent));
      SetParent(successor, node.parent);
      WithCellsSet(base, node, successor, n, s.(parent := n.parent), n.(parent := successor));
      SetParent(node, successor);
    }

    /** Relinks a node with two children so that it and its successor trade places. */
    method Exchange(node: Node, successor: Node)
      requires Mirror() && Exchangeable(mem, root, node, successor)
      modifies this`mem, this`root, mem.Keys
      ensures Mirror() && Surrounded(old(mem), node, successor)
      ensures mem == Exchanged(old(mem), node, successor) && root == Swapped(old(root), node, successor)
    {
      hide Mirror, Exchangeable, NeighboursRenamed, RepointedMemory, ParentSet, WithCells;
      ExchangeableSurrounded(mem, root, node, successor);
      ExchangeableRoot(mem, root, node, successor);
      OwnCellsKept(mem, root, node, successor);
      Read(successor);
      ghost var mem0, root0, n, s := mem, root, mem[node], mem[successor];
      var neighborSwap := successor.parent == node;
      RenameNeighbours(node, successor, neighborSwap);
      ghost var base := mem;
      Read(successor);
      if neighborSwap {
        WithCellsSet(base, node, successor, n, s, n);
        ExchangeWithChild(node, successor, base, n, s);
      } else {
        Repoint(successor.parent, successor, node);
        OwnCellsAfterRepointing(mem0, root0, node, successor);
        base := mem;
        WithCellsSet(base, node, successor, n, s, n);
        ExchangeParents(node, successor, base, n, s);
      }
      ExchangeCells(node, successor, neighborSwap, base,
                    n.(parent := if neighborSwap then successor else s.parent), s.(parent := n.parent));
    }

    /** Takes a node with at most one child out of the tree and repairs what that breaks. */
    method Splice(node: Node, ghost t: Tree, ghost c: Context, ghost h: nat)
      requires Mirror() && Focused(mem, t, c, root) && Sound(t, c, h) && t.T? && t.node == node
      requires t.left.Leaf? || t.right.Leaf?
      requires !c.Top? || OnlyChild(t).T?
      modifies this`mem, this`root, this`shape, mem.Keys
      ensures Mirror() && Focused(mem, shape, Top, root) && RedBlack(shape)
      ensures InOrder(shape) == Order(OnlyChild(t), c) && mem.Keys == old(mem.Keys) - {node}
    {
      hide Mirror, Focused, Order, RedBlack, Sound, InOrder, Balanced, Holds;
      NodeChildren(t, c);
      Unlink(node, t, c);
      ghost var child := OnlyChild(t);
      if node.color != Red {
        BlackSpliced(t, c, h);
        RemoveFixups(if node.left != null then node.left else node.right, node.parent, child, c, h - 1);
      } else {
        RedSpliced(t, c, h);
        PlugOrder(child, c);
        FocusTop(mem, child, c, root);
        shape := Plug(c, child);
      }
    }

    /** Puts the only child of a node, if any, in the node's place. */
    method Unlink(node: Node, ghost t: Tree, ghost c: Context)
      requires Mirror() && Focused(mem, t, c, root) && t.T? && t.node == node
      requires t.left.Leaf? || t.right.Leaf?
      modifies this`mem, this`root, mem.Keys
      ensures Mirror() && Focused(mem, OnlyChild(t), c, root) && mem.Keys == old(mem.Keys) - {node}
      ensures node.left == RootOf(t.left) && node.right == RootOf(t.right) && node.parent == ParentOf(c) && node.color == t.color
    {
      hide Mirror, Focused;
      var mem0, root0 := mem, root;
      SpliceFacts(mem, t, c, root);
      NodeFacts(mem, t, c, root);
      Read(node);
      var child := if node.left != null then node.left else node.right;
      if child != null {
        SetParent(child, node.parent);
      }
      Read(node);
      Repoint(node.parent, node, child);
      Read(node);
      Leave(node);
      SplicedCells(mem0, t, c, root0);
      SpliceFocused(mem0, mem, t, c, root0, root);
    }

    ghost method Leave(node: Node)
      requires Mirror()
      modifies this`mem
      ensures Mirror() && mem == old(mem) - {node}
    {
      mem := mem - {node};
    }

    /** Removes a node: all others stay, in their order. */
    method Remove(node: Node)
      requires Valid() && node in mem
      modifies this, mem.Keys
      ensures Valid() && Contents() == Without(old(Contents()), node)
      ensures mem.Keys == old(mem.Keys) - {node}
    {
      hide Mirror, Focused, Order, RedBlack, Sound, InOrder, Sorted, Without, Distinct, Follows;
      ghost var order := Contents();
      if size == 1 {
        LastNode(mem, shape, root, node);
        EmptyTree();
        root := null;
        minimum := null;
        size := 0;
        Leave(node);
        shape := Leaf;
        return;
      }
      ghost var ts, cs;
      var next;
      ghost var t, c := FocusOnNode(node);
      ghost var h := SoundUnplug(t, c);
      NodeInOrder(t, c);
      WithoutSorted(order, node);
      WithoutSize(order, node);
      if minimum == node {
        next, ts, cs := Successor(node);
        MinimumWithout(order, node, minimum, next);
        minimum := next;
      } else {
        MinimumWithout(order, node, minimum, null);
      }
      NodeChildren(t, c);
      if node.left != null && node.right != null {
        t, c, h := TradeWithSuccessor(node);
      }
      OrderDistinct(mem, t, c, root);
      WithoutAround(t, c);
      EmptyOrder();
      Splice(node, t, c, h);
      size := size - 1;
    }

    /** Puts a node with two children in its successor's place, where it has at most one. */
    method TradeWithSuccessor(node: Node) returns (ghost t: Tree, ghost c: Context, ghost h: nat)
      requires Mirror() && Focused(mem, shape, Top, root) && RedBlack(shape) && node in mem
      requires node.left != null && node.right != null
      modifies this`mem, this`root, mem.Keys
      ensures Mirror() && Focused(mem, t, c, root) && Sound(t, c, h) && t.T? && t.node == node && t.left.Leaf?
      ensures Without(Order(t, c), node) == Without(InOrder(shape), node) && mem.Keys == old(mem.Keys)
    {
      hide Mirror, Focused, Order, RedBlack, Sound, InOrder, Without, Distinct, Follows, Exchangeable, SwappedTree,
        SwappedContext;
      var successor;
      ghost var ts, cs;
      successor, ts, cs := Successor(node);
      ghost var t0, c0 := FocusOnNode(node);
      NodeInOrder(t0, c0);
      PlugOrder(ts, cs);
      h := TradedOrder(ts, cs, node, successor);
      ExchangeFocused(node, successor, ts, cs);
      t, c := SwappedTree(ts, node, successor), SwappedContext(cs, node, successor);
    }

    method ExchangeFocused(node: Node, successor: Node, ghost t: Tree, ghost c: Context)
      requires Mirror() && Focused(mem, shape, Top, root) && Exchangeable(mem, root, node, successor)
      requires Focused(mem, t, c, root)
      modifies this`mem, this`root, mem.Keys
      ensures Mirror() && Focused(mem, SwappedTree(t, node, successor), SwappedContext(c, node, successor), root)
      ensures mem.Keys == old(mem.Keys)
    {
      hide Mirror, Focused, Exchangeable, Consistent, Exchanged;
      ghost var mem0, root0 := mem, root;
      LinksAgree(mem, shape, root);
      ExchangedTrades(mem, root, node, successor);
      Exchange(node, successor);
      TradeFocused(mem0, mem, t, c, root0, node, successor);
    }

    // ----- Searching -----

    /** Some node with this key, or null when there is none. */
    method Find(key: int) returns (r: Node?)
      requires Valid()
      ensures Found(Contents(), key, r)
    {
      hide Mirror, Focused, Sorted, Order, StrictlyBetween, Found, LargestNotAbove, SmallestNotBelow, Before, After;
      var node := root;
      ghost var t, c := shape, Top;
      RootFacts(mem, shape, Top, root);
      StartBetween(shape, key);
      if node != null {
        NodeChildren(t, c);
      }
      while node != null && node.key != key
        invariant Focused(mem, t, c, root) && RootOf(t) == node && Order(t, c) == Contents()
        invariant node != null ==> node in mem && node.left == RootOf(t.left) && node.right == RootOf(t.right)
        invariant StrictlyBetween(Before(c), After(c), key)
        decreases t
      {
        NodeInOrder(t, c);
        BetweenDown(t, c, key);
        OrderDown(t, c);
        if key < node.key {
          FocusLeft(mem, t, c, root);
          node := node.left;
          t, c := t.left, InLeft(t.node, t.color, t.right, c);
        } else {
          FocusRight(mem, t, c, root);
          node := node.right;
          t, c := t.right, InRight(t.left, t.node, t.color, c);
        }
        if node != null {
          NodeChildren(t, c);
        }
      }
      if node == null {
        NotFoundHere(c, key);
      } else {
        NodeInOrder(t, c);
        FoundHere(Contents(), node);
      }
      return node;
    }

    /** A node with the largest key that is not above this one. */
    method FindLargestNotAbove(key: int) returns (r: Node?)
      requires Valid()
      ensures LargestNotAbove(Contents(), key, r)
      ensures root != null && root.key == key ==> r == root
    {
      hide Mirror, Focused, Sorted, Order, StrictlyBetween, Found, LargestNotAbove, SmallestNotBelow, Before, After;
      var node := root;
      var candidate: Node? := null;
      ghost var t, c := shape, Top;
      RootFacts(mem, shape, Top, root);
      StartBetween(shape, key);
      if node != null {
        NodeChildren(t, c);
      }
      while node != null
        invariant Focused(mem, t, c, root) && RootOf(t) == node && Order(t, c) == Contents()
        invariant node != null ==> node in mem && node.left == RootOf(t.left) && node.right == RootOf(t.right)
        invariant StrictlyBetween(Before(c), After(c), key)
        invariant candidate == LastOf(Before(c))
        invariant root != null && root.key == key ==> node == root
        decreases t
      {
        NodeInOrder(t, c);
        BetweenDown(t, c, key);
        OrderDown(t, c);
        if key == node.key {
          FoundHere(Contents(), node);
          return node;
        }
        if key < node.key {
          FocusLeft(mem, t, c, root);
          node := node.left;
          t, c := t.left, InLeft(t.node, t.color, t.right, c);
        } else {
          candidate := node;
          FocusRight(mem, t, c, root);
          node := node.right;
          t, c := t.right, InRight(t.left, t.node, t.color, c);
        }
        if node != null {
          NodeChildren(t, c);
        }
      }
      NotFoundHere(c, key);
      return candidate;
    }

    /** A node with the smallest key that is not below this one. */
    method FindSmallestNotBelow(key: int) returns (r: Node?)
      requires Valid()
      ensures SmallestNotBelow(Contents(), key, r)
    {
      hide Mirror, Focused, Sorted, Order, StrictlyBetween, Found, LargestNotAbove, SmallestNotBelow, Before, After;
      var node := root;
      var candidate: Node? := null;
      ghost var t, c := shape, Top;
      RootFacts(mem, shape, Top, root);
      StartBetween(shape, key);
      if node != null {
        NodeChildren(t, c);
      }
      while node != null
        invariant Focused(mem, t, c, root) && RootOf(t) == node && Order(t, c) == Contents()
        invariant node != null ==> node in mem && node.left == RootOf(t.left) && node.right == RootOf(t.right)
        invariant StrictlyBetween(Before(c), After(c), key)
        invariant candidate == FirstOf(After(c))
        decreases t
      {
        NodeInOrder(t, c);
        BetweenDown(t, c, key);
        OrderDown(t, c);
        if node.key == key {
          FoundHere(Contents(), node);
          return node;
        }
        if node.key <= key {
          FocusRight(mem, t, c, root);
          node := node.right;
          t, c := t.right, InRight(t.left, t.node, t.color, c);
        } else {
          candidate := node;
          FocusLeft(mem, t, c, root);
          node := node.left;
          t, c := t.left, InLeft(t.node, t.color, t.right, c);
        }
        if node != null {
          NodeChildren(t, c);
        }
      }
      NotFoundHere(c, key);
      return candidate;
    }

    // ----- Keys and values -----

    /** Inserts a new node with this key and value. */
    method InsertKeyValue(key: int, value: int) returns (ghost node: Node)
      requires Valid()
      modifies this, mem.Keys
      ensures Valid() && fresh(node) && node.key == key && node.value == value
      ensures Contents() == Inserted(old(Contents()), node) && mem.Keys == old(mem.Keys) + {node}
    {
      var n := new Node(key, value);
      Insert(n);
      node := n;
    }

    /** Removes a node with this key, if there is one. */
    method RemoveKeyIfAny(key: int) returns (removed: bool, ghost node: Node?)
      requires Valid()
      modifies this, mem.Keys
      ensures Valid() && (removed <==> node != null) && mem.Keys == old(mem.Keys) - (if node != null then {node} else {})
      ensures removed ==> node in old(Contents()) && node.key == key && Contents() == Without(old(Contents()), node)
      ensures !removed ==> Contents() == old(Contents()) && forall i :: 0 <= i < |Contents()| ==> Contents()[i].key != key
    {
      hide Mirror, Focused, Order, RedBlack, InOrder, Sorted, Without;
      var n := Find(key);
      node := n;
      if n == null {
        return false, null;
      }
      NodeListed(n);
      Remove(n);
      return true, node;
    }

    lemma NodeListed(node: Node)
      requires Valid() && node in Contents()
      ensures node in mem
    {
      InOrderMember(shape, node);
      FocusedParts(mem, shape, Top, root);
    }

    /** Any run of insertions and removals by key: a run of steps on the order, and a sorted multiset of keys. */
    method Run(ops: seq<Operation>) returns (ghost steps: seq<Step>)
      requires Valid()
      modifies this, mem.Keys
      ensures Valid() && Carries(ops, steps) && CanRun(old(Contents()), steps) && Contents() == Ran(old(Contents()), steps)
      ensures multiset(Keys(Contents())) == KeysAfter(multiset(Keys(old(Contents()))), ops)
    {
      hide Mirror, Focused, Order, RedBlack, InOrder, Sorted, Without, Inserted, Ran, CanRun;
      ghost var start, nodes, keys := Contents(), mem.Keys, multiset(Keys(Contents()));
      steps := [];
      NoSteps(start);
      assert ops[..0] == [];
      for i := 0 to |ops|
        invariant Valid() && Carries(ops[..i], steps) && CanRun(start, steps) && Contents() == Ran(start, steps)
        invariant multiset(Keys(Contents())) == KeysAfter(keys, ops[..i])
        invariant fresh(mem.Keys - nodes)
      {
        ghost var step;
        step := Execute(ops[i]);
        RunMore(start, ops, i, steps, step, Contents(), keys);
        steps := if step.Some? then steps + [step.value] else steps;
      }
      assert ops[..|ops|] == ops;
    }

    /** One operation of a run. */
    method Execute(op: Operation) returns (ghost step: Option<Step>)
      requires Valid()
      modifies this, mem.Keys
      ensures Valid() && fresh(mem.Keys - old(mem.Keys)) && DoesStep(old(Contents()), op, step, Contents())
    {
      hide Mirror, Focused, Order, RedBlack, InOrder, Sorted, Without, Inserted;
      match op {
        case InsertKey(key, value) =>
          ghost var node;
          node := InsertKeyValue(key, value);
          step := Some(Add(node));
        case RemoveKey(key) =>
          var removed;
          ghost var node;
          removed, node := RemoveKeyIfAny(key);
          step := if node != null then Some(Drop(node)) else None;
      }
    }
  }

  /** The step an operation amounts to. */
  ghost predicate DoesStep(s: seq<Node>, op: Operation, step: Option<Step>, r: seq<Node>) {
    match op
    case InsertKey(key, value) =>
      step.Some? && step.value.Add? && step.value.node.key == key && step.value.node.value == value &&
      r == Inserted(s, step.value.node)
    case RemoveKey(key) =>
      if step == None then r == s && forall i :: 0 <= i < |s| ==> s[i].key != key
      else step.value.Drop? && step.value.node.key == key && step.value.node in s && r == Without(s, step.value.node)
  }

  lemma NoSteps(s: seq<Node>)
    ensures CanRun(s, []) && Ran(s, []) == s
  {}

  lemma RunMore(start: seq<Node>, ops: seq<Operation>, i: nat, steps: seq<Step>, step: Option<Step>, r: seq<Node>, keys: multiset<int>)
    requires i < |ops| && Carries(ops[..i], steps) && CanRun(start, steps) && DoesStep(Ran(start, steps), ops[i], step, r)
    requires multiset(Keys(Ran(start, steps))) == KeysAfter(keys, ops[..i])
    ensures var steps' := if step.Some? then steps + [step.value] else steps;
            Carries(ops[..i + 1], steps') && CanRun(start, steps') && r == Ran(start, steps')
    ensures multiset(Keys(r)) == KeysAfter(keys, ops[..i + 1])
  {
    hide Inserted, Without, Ran, CanRun, Keys;
    var s := Ran(start, steps);
    assert ops[..i + 1][..i] == ops[..i];
    if step.Some? {
      RunOn(start, steps, step.value);
      assert (steps + [step.value])[..|steps|] == steps;
      if step.value.Add? {
        InsertedKeys(s, step.value.node);
      } else {
        WithoutKeys(s, step.value.node);
      }
    } else {
      KeyMissing(s, ops[i].key);
    }
  }

  lemma KeyMissing(s: seq<Node>, key: int)
    requires forall i :: 0 <= i < |s| ==> s[i].key != key
    ensures multiset(Keys(s)) - multiset{key} == multiset(Keys(s))
  {
    assert key !in Keys(s);
  }
}
