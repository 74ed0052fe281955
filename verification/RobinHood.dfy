/**
 The arrangement of entries in an open-addressed table with Robin Hood displacement, apart from
 how it is stored: cells hold entries, and each entry has a home cell given by its key's hash.
 */
module RobinHood {
  import opened Basics

  datatype Entry<K, V> = Entry(key: K, value: V)

  type Cells<K, V> = seq<Option<Entry<K, V>>>

  /** The cell after i, around the end. */
  function Next(cap: nat, i: nat): (n: nat)
    requires i < cap
    ensures n < cap
  {
    if i + 1 == cap then 0 else i + 1
  }

  /** The cell m steps after i. */
  function Step(cap: nat, i: nat, m: nat): (n: nat)
    requires i < cap && m < cap
    ensures n < cap
  {
    if i + m < cap then i + m else i + m - cap
  }

  /** How many steps lead from home to i. */
  function Distance(cap: nat, home: nat, i: nat): (d: nat)
    requires home < cap && i < cap
    ensures d < cap && Step(cap, home, d) == i
  {
    if i < home then cap + i - home else i - home
  }

  /** The home cell of each key; a function into the cells of a table of the given capacity. */
  ghost predicate HomesFit<K(!new)>(cap: nat, home: K -> nat) {
    forall k :: home(k) < cap
  }

  /** The probe length of the entry in cell i, and -1 for a free cell. */
  function Probe<K, V>(home: K -> nat, cells: Cells<K, V>, i: nat): int
    requires i < |cells|
  {
    if cells[i].None? then -1
    else
      var h := home(cells[i].value.key);
      if h < |cells| then Distance(|cells|, h, i) else -1
  }

  /** Along the cells the probe length grows by at most one per step. */
  ghost predicate Stepwise<K, V>(home: K -> nat, cells: Cells<K, V>) {
    forall i :: 0 <= i < |cells| ==> Probe(home, cells, Next(|cells|, i)) <= Probe(home, cells, i) + 1
  }

  ghost predicate UniqueKeys<K, V>(cells: Cells<K, V>) {
    forall i, j ::
      (0 <= i < |cells| && 0 <= j < |cells| && cells[i].Some? && cells[j].Some? && cells[i].value.key == cells[j].value.key)
      ==> i == j
  }

  ghost predicate HasKey<K, V>(cells: Cells<K, V>, key: K) {
    exists i :: 0 <= i < |cells| && cells[i].Some? && cells[i].value.key == key
  }

  /** A well-arranged table. */
  ghost predicate Arranged<K(!new), V>(home: K -> nat, cells: Cells<K, V>) {
    HomesFit(|cells|, home) && Stepwise(home, cells) && UniqueKeys(cells)
  }

  /**
   Every entry of key's probe sequence up to step m is another key's, at least as far from home
   as the probe has come.
   */
  ghost predicate Walked<K, V>(home: K -> nat, cells: Cells<K, V>, key: K, m: nat) {
    home(key) < |cells| && m <= |cells| &&
    forall n :: 0 <= n < m ==>
      var i := Step(|cells|, home(key), n);
      cells[i].Some? && cells[i].value.key != key && Probe(home, cells, i) >= n
  }

  /** From an entry back to its home, no cell is closer to its own home than the steps walked. */
  lemma {:induction false} RunFromHome<K(!new), V>(home: K -> nat, cells: Cells<K, V>, i: nat, m: nat)
    requires Arranged(home, cells) && i < |cells| && cells[i].Some? && m <= Probe(home, cells, i)
    ensures m < |cells| && Probe(home, cells, Step(|cells|, home(cells[i].value.key), m)) >= m
    decreases Probe(home, cells, i) - m
  {
    var cap, h := |cells|, home(cells[i].value.key);
    assert h < cap;
    if m < Probe(home, cells, i) {
      RunFromHome(home, cells, i, m + 1);
      assert Next(cap, Step(cap, h, m)) == Step(cap, h, m + 1);
    }
  }

  /** The probe may give up at a cell that is free or whose entry is closer to home: the key is absent. */
  lemma WalkedAbsent<K(!new), V>(home: K -> nat, cells: Cells<K, V>, key: K, m: nat)
    requires Arranged(home, cells) && Walked(home, cells, key, m) && m < |cells|
    requires Probe(home, cells, Step(|cells|, home(key), m)) < m
    ensures !HasKey(cells, key)
  {
    forall i | 0 <= i < |cells| && cells[i].Some?
      ensures cells[i].value.key != key
    {
      if cells[i].value.key == key && m <= Probe(home, cells, i) {
        RunFromHome(home, cells, i, m);
      }
    }
  }

  /** A free cell ends every probe sequence. */
  lemma WalkEnds<K(!new), V>(home: K -> nat, cells: Cells<K, V>, key: K, m: nat, free: nat)
    requires Walked(home, cells, key, m) && free < |cells| && cells[free].None?
    ensures m <= Distance(|cells|, home(key), free)
  {
    assert Step(|cells|, home(key), Distance(|cells|, home(key), free)) == free;
  }

  /**
   An entry may be put into a cell when the cell before is at least as far from home, less one,
   and what was in the cell is not farther: the arrangement stays stepwise.
   */
  lemma PutKeepsStepwise<K(!new), V>(home: K -> nat, cells: Cells<K, V>, i: nat, e: Entry<K, V>)
    requires HomesFit(|cells|, home) && Stepwise(home, cells) && i < |cells| && |cells| >= 2
    requires Probe(home, cells, i) <= Distance(|cells|, home(e.key), i)
    requires forall p :: 0 <= p < |cells| && Next(|cells|, p) == i ==>
               Distance(|cells|, home(e.key), i) <= Probe(home, cells, p) + 1
    ensures Stepwise(home, cells[i := Some(e)])
  {
    var c := cells[i := Some(e)];
    forall j | 0 <= j < |c| ensures Probe(home, c, Next(|c|, j)) <= Probe(home, c, j) + 1 {
      assert Probe(home, cells, Next(|cells|, j)) <= Probe(home, cells, j) + 1;
    }
  }

  /** On a walk the cell before is far enough from home. */
  lemma CellBefore<K(!new), V>(home: K -> nat, cells: Cells<K, V>, key: K, m: nat, p: nat)
    requires Walked(home, cells, key, m) && m < |cells| && p < |cells|
    requires Next(|cells|, p) == Step(|cells|, home(key), m)
    ensures m <= Probe(home, cells, p) + 1
  {
    if m > 0 {
      assert p == Step(|cells|, home(key), m - 1);
    }
  }

  /**
   Taking the cell at which a walk for e's key gave up, free or not, leaves a well-arranged table;
   the entry that was in the cell is out of the table.
   */
  lemma TakeCell<K(!new), V>(home: K -> nat, cells: Cells<K, V>, e: Entry<K, V>, m: nat)
    requires Arranged(home, cells) && Walked(home, cells, e.key, m) && m < |cells| && |cells| >= 2
    requires Probe(home, cells, Step(|cells|, home(e.key), m)) < m
    ensures Arranged(home, cells[Step(|cells|, home(e.key), m) := Some(e)])
  {
    var i := Step(|cells|, home(e.key), m);
    WalkedAbsent(home, cells, e.key, m);
    assert Distance(|cells|, home(e.key), i) == m;
    forall p | 0 <= p < |cells| && Next(|cells|, p) == i
      ensures m <= Probe(home, cells, p) + 1
    {
      CellBefore(home, cells, e.key, m, p);
    }
    PutKeepsStepwise(home, cells, i, e);
    PutKeepsUnique(home, cells, i, e);
  }

  lemma PutKeepsUnique<K(!new), V>(home: K -> nat, cells: Cells<K, V>, i: nat, e: Entry<K, V>)
    requires UniqueKeys(cells) && i < |cells| && !HasKey(cells, e.key)
    ensures UniqueKeys(cells[i := Some(e)])
  {
    forall j | 0 <= j < |cells| && cells[j].Some? ensures cells[j].value.key != e.key {
    }
  }

  /** A lookup has passed m used cells from the key's home without finding it. */
  ghost predicate Passed<K, V>(home: K -> nat, cells: Cells<K, V>, key: K, m: nat) {
    home(key) < |cells| && m <= |cells| &&
    forall n :: 0 <= n < m ==>
      var i := Step(|cells|, home(key), n);
      cells[i].Some? && cells[i].value.key != key
  }

  /** A lookup that reaches a free cell may give up. */
  lemma PassedAbsent<K(!new), V>(home: K -> nat, cells: Cells<K, V>, key: K, m: nat)
    requires Arranged(home, cells) && Passed(home, cells, key, m) && m < |cells|
    requires cells[Step(|cells|, home(key), m)].None?
    ensures !HasKey(cells, key)
  {
    forall i | 0 <= i < |cells| && cells[i].Some?
      ensures cells[i].value.key != key
    {
      if cells[i].value.key == key && m <= Probe(home, cells, i) {
        RunFromHome(home, cells, i, m);
      }
    }
  }

  lemma PassedFurther<K(!new), V>(home: K -> nat, cells: Cells<K, V>, key: K, m: nat, free: nat)
    requires Passed(home, cells, key, m) && m < |cells| && free < |cells| && cells[free].None?
    requires var i := Step(|cells|, home(key), m);
             cells[i].Some? && cells[i].value.key != key
    ensures Passed(home, cells, key, m + 1) && m + 1 < |cells|
    ensures Step(|cells|, home(key), m + 1) == Next(|cells|, Step(|cells|, home(key), m))
  {
    assert Step(|cells|, home(key), Distance(|cells|, home(key), free)) == free;
  }

  // ----- Displacement -----

  /** The entry x was at cell j before, or would have been; it is out of the table and looks for a later cell. */
  ghost predicate Carrying<K, V>(home: K -> nat, cells: Cells<K, V>, x: Entry<K, V>, j: nat, probe: int) {
    j < |cells| && home(x.key) < |cells| && !HasKey(cells, x.key) &&
    probe == Distance(|cells|, home(x.key), j) && probe <= Probe(home, cells, j)
  }

  /** With a free cell somewhere no probe goes all the way round. */
  lemma ProbeBelowCapacity<K(!new), V>(home: K -> nat, cells: Cells<K, V>, i: nat, free: nat)
    requires Arranged(home, cells) && i < |cells| && free < |cells| && cells[free].None?
    ensures Probe(home, cells, i) + 1 < |cells|
  {
    if cells[i].Some? {
      var e := Distance(|cells|, home(cells[i].value.key), free);
      if e <= Probe(home, cells, i) {
        RunFromHome(home, cells, i, e);
      }
    }
  }

  /** Stealing the cell at which the walk gave up starts a displacement. */
  lemma StealStarts<K(!new), V>(home: K -> nat, cells: Cells<K, V>, e: Entry<K, V>, m: nat)
    requires Arranged(home, cells) && Walked(home, cells, e.key, m) && m < |cells| && |cells| >= 2
    requires var i := Step(|cells|, home(e.key), m); cells[i].Some? && Probe(home, cells, i) < m
    ensures var i := Step(|cells|, home(e.key), m);
            Arranged(home, cells[i := Some(e)]) &&
            Carrying(home, cells[i := Some(e)], cells[i].value, i, Probe(home, cells, i))
  {
    var i := Step(|cells|, home(e.key), m);
    TakeCell(home, cells, e, m);
    WalkedAbsent(home, cells, e.key, m);
    var x, c := cells[i].value, cells[i := Some(e)];
    forall j | 0 <= j < |c| && c[j].Some? ensures c[j].value.key != x.key {
      if j == i {
        assert cells[i].value.key != e.key;
      }
    }
    assert Probe(home, c, i) == m;
  }

  /** One step on, the carried entry either may take the next cell or goes past it. */
  lemma CarryOn<K(!new), V>(home: K -> nat, cells: Cells<K, V>, x: Entry<K, V>, j: nat, probe: int, free: nat)
    requires Arranged(home, cells) && Carrying(home, cells, x, j, probe)
    requires free < |cells| && cells[free].None? && |cells| >= 2
    ensures var n := Next(|cells|, j);
            Distance(|cells|, home(x.key), n) == probe + 1 &&
            (probe + 1 <= Probe(home, cells, n) ==> Carrying(home, cells, x, n, probe + 1)) &&
            (probe + 1 > Probe(home, cells, n) ==>
               Arranged(home, cells[n := Some(x)]) &&
               (cells[n].Some? ==>
                  Carrying(home, cells[n := Some(x)], cells[n].value, n, Probe(home, cells, n))))
  {
    var n := Next(|cells|, j);
    ProbeBelowCapacity(home, cells, j, free);
    assert Distance(|cells|, home(x.key), n) == probe + 1;
    if probe + 1 > Probe(home, cells, n) {
      forall p | 0 <= p < |cells| && Next(|cells|, p) == n
        ensures probe + 1 <= Probe(home, cells, p) + 1
      {
        assert p == j;
      }
      PutKeepsStepwise(home, cells, n, x);
      PutKeepsUnique(home, cells, n, x);
      var c := cells[n := Some(x)];
      if cells[n].Some? {
        var y := cells[n].value;
        forall i | 0 <= i < |c| && c[i].Some? ensures c[i].value.key != y.key {
          if i == n {
            assert cells[n].value.key != x.key;
          }
        }
        assert Probe(home, c, n) == probe + 1;
      }
    }
  }

  // ----- Deletion -----

  /** Stepwise but for the hole, which its successor may yet move into. */
  ghost predicate Holed<K, V>(home: K -> nat, cells: Cells<K, V>, hole: nat) {
    hole < |cells| && cells[hole].None? &&
    (forall i :: 0 <= i < |cells| && i != hole ==> Probe(home, cells, Next(|cells|, i)) <= Probe(home, cells, i) + 1) &&
    forall p :: 0 <= p < |cells| && Next(|cells|, p) == hole ==>
      Probe(home, cells, Next(|cells|, hole)) <= Probe(home, cells, p) + 2
  }

  lemma RemoveMakesHole<K(!new), V>(home: K -> nat, cells: Cells<K, V>, i: nat)
    requires Arranged(home, cells) && i < |cells| && cells[i].Some?
    ensures Holed(home, cells[i := None], i) && UniqueKeys(cells[i := None])
  {
    var c := cells[i := None];
    forall j | 0 <= j < |c| && j != i ensures Probe(home, c, Next(|c|, j)) <= Probe(home, c, j) + 1 {
      assert Probe(home, cells, Next(|cells|, j)) <= Probe(home, cells, j) + 1;
    }
    forall p | 0 <= p < |c| && Next(|c|, p) == i
      ensures Probe(home, c, Next(|c|, i)) <= Probe(home, c, p) + 2
    {
      assert Probe(home, cells, Next(|cells|, i)) <= Probe(home, cells, i) + 1;
      assert Probe(home, cells, i) <= Probe(home, cells, p) + 1;
    }
  }

  /** An entry away from its home moves one cell back into the hole; the hole moves to where it was. */
  lemma ShiftBack<K(!new), V>(home: K -> nat, cells: Cells<K, V>, hole: nat)
    requires HomesFit(|cells|, home) && UniqueKeys(cells) && Holed(home, cells, hole) && |cells| >= 2
    requires Probe(home, cells, Next(|cells|, hole)) >= 1
    ensures var n := Next(|cells|, hole);
            var c := cells[hole := cells[n]][n := None];
            Holed(home, c, n) && UniqueKeys(c) && Probe(home, c, hole) == Probe(home, cells, n) - 1
  {
    ShiftBackStepwise(home, cells, hole);
    ShiftBackUnique(cells, hole, Next(|cells|, hole));
  }

  lemma ShiftBackUnique<K, V>(cells: Cells<K, V>, hole: nat, n: nat)
    requires UniqueKeys(cells) && hole < |cells| && n < |cells| && hole != n && cells[hole].None?
    ensures UniqueKeys(cells[hole := cells[n]][n := None])
  {
    var c := cells[hole := cells[n]][n := None];
    forall i, j | 0 <= i < j < |c| && c[i].Some? && c[j].Some? ensures c[i].value.key != c[j].value.key {
      assert c[i] == cells[if i == hole then n else i] && c[j] == cells[if j == hole then n else j];
    }
  }

  lemma ShiftBackStepwise<K(!new), V>(home: K -> nat, cells: Cells<K, V>, hole: nat)
    requires HomesFit(|cells|, home) && Holed(home, cells, hole) && |cells| >= 2
    requires Probe(home, cells, Next(|cells|, hole)) >= 1
    ensures var n := Next(|cells|, hole);
            var c := cells[hole := cells[n]][n := None];
            Holed(home, c, n) && Probe(home, c, hole) == Probe(home, cells, n) - 1
  {
    var cap, n := |cells|, Next(|cells|, hole);
    var c := cells[hole := cells[n]][n := None];
    assert Distance(cap, home(cells[n].value.key), n) == Distance(cap, home(cells[n].value.key), hole) + 1;
    forall j | 0 <= j < cap && j != n ensures Probe(home, c, Next(cap, j)) <= Probe(home, c, j) + 1 {
      if j != hole {
        assert Probe(home, cells, Next(cap, j)) <= Probe(home, cells, j) + 1;
      }
    }
    assert Probe(home, cells, Next(cap, n)) <= Probe(home, cells, n) + 1;
  }

  /** Behind a hole that is followed by a free cell or by an entry at home, all is in order. */
  lemma HoleSettles<K(!new), V>(home: K -> nat, cells: Cells<K, V>, hole: nat)
    requires HomesFit(|cells|, home) && UniqueKeys(cells) && Holed(home, cells, hole)
    requires Probe(home, cells, Next(|cells|, hole)) <= 0
    ensures Arranged(home, cells)
  {}
}
