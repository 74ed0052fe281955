/**
 A node with two children trades places with its successor: pointer by pointer, this renames the two nodes
 everywhere in the tree.
 */
module TreeExchange {
  import opened TreeShapes
  import opened TreeRelinking
  import opened TreeBalance

  lemma {:induction false} ParentInside(mem: Memory, t: Tree, p: Node?, n: Node)
    requires Forms(mem, t, p) && n in Nodes(t) && n != t.node
    ensures n in mem && mem[n].parent != null && mem[n].parent in Nodes(t)
  {
    if n in Nodes(t.left) {
      if n == t.left.node {
      } else {
        ParentInside(mem, t.left, t.node, n);
      }
    } else {
      if n == t.right.node {
      } else {
        ParentInside(mem, t.right, t.node, n);
      }
    }
  }

  /** A node s with no left child, somewhere below the right child of n. */
  ghost predicate Exchangeable(mem: Memory, root: Node?, n: Node, s: Node) {
    n in mem && s in mem && n != s && ConsistentAt(mem, root, n) && ConsistentAt(mem, root, s) &&
    mem[n].left != null && mem[n].right != null && mem[s].left == null && mem[s].parent != null &&
    mem[n].parent != s && mem[n].parent != mem[s].parent && mem[n].left != s &&
    (mem[s].parent == n <==> mem[n].right == s)
  }

  lemma BelowIsExchangeable(mem: Memory, t: Tree, c: Context, root: Node?, s: Node)
    requires Focused(mem, t, c, root) && t.T? && t.left.T? && s in Nodes(t.right) && s in mem && mem[s].left == null
    requires ConsistentAt(mem, root, s)
    ensures Exchangeable(mem, root, t.node, s)
  {
    FocusConsistentAt(mem, t, c, root);
    FocusedParts(mem, t, c, root);
    Unfold(mem, t, ParentOf(c));
    ParentInside(mem, t, ParentOf(c), s);
    assert !c.Top? ==> c.node in ContextNodes(c);
    assert t.left.node in Nodes(t.left);
  }

  // ----- The nodes around the two -----

  ghost predicate Surrounded(mem: Memory, n: Node, s: Node) {
    n in mem && s in mem &&
    (mem[n].left != null ==> mem[n].left in mem) && (mem[n].right != null ==> mem[n].right in mem) &&
    (mem[n].parent != null ==> mem[n].parent in mem) && (mem[s].right != null ==> mem[s].right in mem) &&
    (mem[s].parent != null ==> mem[s].parent in mem)
  }

  lemma ExchangeableSurrounded(mem: Memory, root: Node?, n: Node, s: Node)
    requires Exchangeable(mem, root, n, s)
    ensures Surrounded(mem, n, s) && n != s
    ensures mem[n].left != null && mem[n].right != null && mem[s].left == null && mem[s].parent != null
    ensures mem[n].left != n && mem[n].left != s && mem[n].right != n && mem[n].parent != n && mem[n].parent != s
    ensures mem[s].right != n && mem[s].right != s && mem[s].parent != s
    ensures mem[s].parent == n <==> mem[n].right == s
  {}

  lemma ExchangeableRoot(mem: Memory, root: Node?, n: Node, s: Node)
    requires Exchangeable(mem, root, n, s)
    ensures Swapped(root, n, s) == if mem[n].parent == null then s else root
  {}

  ghost function NeighboursRenamed(mem: Memory, n: Node, s: Node): (mem': Memory)
    requires Surrounded(mem, n, s)
    ensures mem'.Keys == mem.Keys
  {
    var m1 := ParentSet(mem, mem[n].left, s);
    var m2 := if mem[s].parent == n then m1 else ParentSet(m1, mem[n].right, s);
    ParentSet(RepointedMemory(m2, mem[n].parent, n, s), mem[s].right, n)
  }

  ghost function Exchanged(mem: Memory, n: Node, s: Node): (mem': Memory)
    requires Surrounded(mem, n, s) && n != s
    ensures mem'.Keys == mem.Keys
  {
    var m4 := NeighboursRenamed(mem, n, s);
    if mem[s].parent == n then
      WithCells(m4, n, s, Cell(mem[s].left, mem[s].right, s, mem[s].color), Cell(mem[n].left, n, mem[n].parent, mem[n].color))
    else
      var m5 := RepointedMemory(m4, mem[s].parent, s, n);
      WithCells(m5, n, s, mem[s], mem[n])
  }

  /** The memory with new cells for the two nodes only. */
  ghost function WithCells(mem: Memory, n: Node, s: Node, nCell: Cell, sCell: Cell): (mem': Memory)
    requires n in mem && s in mem && n != s
    ensures mem'.Keys == mem.Keys && mem'[n] == nCell && mem'[s] == sCell
  {
    mem[n := nCell][s := sCell]
  }

  lemma WithCellsSet(mem: Memory, n: Node, s: Node, nCell: Cell, sCell: Cell, cell: Cell)
    requires n in mem && s in mem && n != s
    ensures WithCells(mem, n, s, nCell, sCell)[n := cell] == WithCells(mem, n, s, cell, sCell)
    ensures WithCells(mem, n, s, nCell, sCell)[s := cell] == WithCells(mem, n, s, nCell, cell)
    ensures mem[n] == nCell && mem[s] == sCell ==> WithCells(mem, n, s, nCell, sCell) == mem
  {}

  lemma ParentSetAt(mem: Memory, x: Node?, p: Node?, k: Node)
    requires (x != null ==> x in mem) && k in mem
    ensures k in ParentSet(mem, x, p) && ParentSet(mem, x, p)[k] == if k == x then mem[k].(parent := p) else mem[k]
  {}

  function RepointedChild(cell: Cell, child: Node, other: Node): Cell {
    if cell.left == child then cell.(left := other) else cell.(right := other)
  }

  lemma RepointedAt(mem: Memory, p: Node?, child: Node, other: Node, k: Node)
    requires (p != null ==> p in mem) && k in mem
    ensures k in RepointedMemory(mem, p, child, other)
    ensures RepointedMemory(mem, p, child, other)[k] == if k == p then RepointedChild(mem[k], child, other) else mem[k]
  {}

  lemma NeighbourAt(mem: Memory, root: Node?, n: Node, s: Node, k: Node)
    requires Exchangeable(mem, root, n, s) && k in mem
    ensures var m4 := NeighboursRenamed(mem, n, s);
            var moved := if k == mem[n].parent then RepointedChild(mem[k], n, s) else mem[k];
            m4[k] == moved.(parent := if k == mem[n].left || (k == mem[n].right && k != s) then s
                                      else if k == mem[s].right then n else mem[k].parent)
  {
    hide ParentSet, RepointedMemory;
    var m1 := ParentSet(mem, mem[n].left, s);
    ParentSetAt(mem, mem[n].left, s, k);
    var m2 := if mem[s].parent == n then m1 else ParentSet(m1, mem[n].right, s);
    if mem[s].parent != n {
      ParentSetAt(m1, mem[n].right, s, k);
    }
    RepointedAt(m2, mem[n].parent, n, s, k);
    ParentSetAt(RepointedMemory(m2, mem[n].parent, n, s), mem[s].right, n, k);
  }

  lemma OwnCellsKept(mem: Memory, root: Node?, n: Node, s: Node)
    requires Exchangeable(mem, root, n, s)
    ensures NeighboursRenamed(mem, n, s)[n] == mem[n] && NeighboursRenamed(mem, n, s)[s] == mem[s]
  {
    hide NeighboursRenamed;
    NeighbourAt(mem, root, n, s, n);
    NeighbourAt(mem, root, n, s, s);
  }

  lemma OwnCellsAfterRepointing(mem: Memory, root: Node?, n: Node, s: Node)
    requires Exchangeable(mem, root, n, s) && mem[s].parent != n
    ensures var m5 := RepointedMemory(NeighboursRenamed(mem, n, s), mem[s].parent, s, n);
            m5[n] == mem[n] && m5[s] == mem[s]
  {
    OwnCellsKept(mem, root, n, s);
    hide NeighboursRenamed, RepointedMemory;
    RepointedAt(NeighboursRenamed(mem, n, s), mem[s].parent, s, n, n);
    RepointedAt(NeighboursRenamed(mem, n, s), mem[s].parent, s, n, s);
  }

  /** The cell of every other node is renamed. */
  lemma OtherCellRenamed(mem: Memory, root: Node?, n: Node, s: Node, k: Node)
    requires Exchangeable(mem, root, n, s) && k in mem && k != n && k != s && ConsistentAt(mem, root, k)
    ensures Exchanged(mem, n, s)[k] == SwappedCell(mem[k], n, s)
  {
    hide NeighboursRenamed, RepointedMemory;
    NeighbourAt(mem, root, n, s, k);
    if mem[s].parent != n {
      RepointedAt(NeighboursRenamed(mem, n, s), mem[s].parent, s, n, k);
    }
  }

  lemma OwnCellsRenamed(mem: Memory, root: Node?, n: Node, s: Node)
    requires Exchangeable(mem, root, n, s)
    ensures Exchanged(mem, n, s)[s] == SwappedCell(mem[n], n, s) && Exchanged(mem, n, s)[n] == SwappedCell(mem[s], n, s)
  {
    hide NeighboursRenamed, RepointedMemory;
  }

  lemma ExchangedAt(mem: Memory, root: Node?, n: Node, s: Node, k: Node)
    requires Exchangeable(mem, root, n, s) && k in mem && ConsistentAt(mem, root, k)
    ensures Swapped(k, n, s) in mem && Exchanged(mem, n, s)[Swapped(k, n, s)] == SwappedCell(mem[k], n, s)
  {
    hide Exchanged, SwappedCell;
    if k == n || k == s {
      OwnCellsRenamed(mem, root, n, s);
    } else {
      OtherCellRenamed(mem, root, n, s, k);
    }
  }

  lemma ExchangedTrades(mem: Memory, root: Node?, n: Node, s: Node)
    requires Exchangeable(mem, root, n, s) && Consistent(mem, root)
    ensures TradedCells(mem, Exchanged(mem, n, s), n, s)
  {
    hide Exchanged, SwappedCell, Swapped, ConsistentAt;
    ExchangeableSurrounded(mem, root, n, s);
    forall k | k in mem
      ensures Swapped(k, n, s) in mem && Exchanged(mem, n, s)[Swapped(k, n, s)] == SwappedCell(mem[k], n, s)
    {
      ExchangedAt(mem, root, n, s, k);
    }
  }
}
