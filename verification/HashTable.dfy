/**
 An ordered hash table with Robin Hood probing. Buckets and the list links threaded through them
 are parallel arrays; a pointer to a bucket is its index, and the last element of both arrays is
 the stack-local bucket that holds an entry while it is being displaced.
 */
module HashTable {
  import opened Basics
  import opened Powers
  import opened Bits
  import opened RobinHood
  import opened BucketLinks
  import opened OrderedEntries

  const FREE: nat := 0
  const CALCULATE_LENGTH: nat := 255
  const GROW_CAPACITY_AT_LEAST: nat := 8
  const GROW_AT_LOAD_FACTOR_PERCENT: nat := 70

  datatype HashSetResult = InsertedNewEntry | ReplacedExistingEntry | KeptExistingEntry

  datatype Bucket<K, V> = Bucket(state: nat, hash: nat, slot: Option<Entry<K, V>>)

  /** The one-byte state of a used bucket: its probe length plus one, or a mark that it is too long. */
  function StateForProbeLength(p: nat): nat {
    if p > 253 then CALCULATE_LENGTH else p + 1
  }

  /** n brought into a table whose capacity is a power of two. */
  function MaskIndex(cap: nat, n: nat): (i: nat)
    requires cap > 0
    ensures i < cap
  {
    AndAtMost(n, cap - 1);
    And(n, cap - 1)
  }

  ghost predicate IsPowerOfTwo(n: nat) {
    exists e: nat :: n == Pow(2, e)
  }

  lemma MaskIsNext(cap: nat, i: nat)
    requires IsPowerOfTwo(cap) && i < cap
    ensures MaskIndex(cap, i + 1) == Next(cap, i)
  {
    var e: nat :| cap == Pow(2, e);
    AndMask(i + 1, e);
    if i + 1 == cap {
      DivModUnique(i + 1, cap, 1, 0);
    } else {
      DivModUnique(i + 1, cap, 0, i + 1);
    }
  }

  /** The home bucket of each key. */
  function HomeIn<K>(hashOf: K -> nat, cap: nat): K -> nat
    requires cap > 0
  {
    k => MaskIndex(cap, hashOf(k))
  }

  lemma HomesInRange<K(!new)>(hashOf: K -> nat, cap: nat)
    requires cap > 0
    ensures HomesFit(cap, HomeIn(hashOf, cap))
  {}

  /** How an entry is stored in bucket i. */
  function BucketFor<K, V>(hashOf: K -> nat, cap: nat, i: nat, e: Entry<K, V>): Bucket<K, V>
    requires i < cap
  {
    Bucket(StateForProbeLength(Distance(cap, MaskIndex(cap, hashOf(e.key)), i)), hashOf(e.key), Some(e))
  }

  /** The probe length read back from a used bucket; long ones are recomputed from the hash. */
  function UsedBucketProbeLength<K, V>(hashOf: K -> nat, cap: nat, bucket: Bucket<K, V>, i: nat): int
    requires i < cap && bucket.slot.Some?
  {
    if bucket.state == CALCULATE_LENGTH then
      var ideal := MaskIndex(cap, hashOf(bucket.slot.value.key));
      if i < ideal then cap + i - ideal else i - ideal
    else
      bucket.state - 1
  }

  /** The state byte never loses a probe length. */
  lemma ProbeLengthRoundTrip<K, V>(hashOf: K -> nat, cap: nat, i: nat, e: Entry<K, V>)
    requires i < cap
    ensures UsedBucketProbeLength(hashOf, cap, BucketFor(hashOf, cap, i, e), i)
         == Distance(cap, MaskIndex(cap, hashOf(e.key)), i)
    ensures BucketFor(hashOf, cap, i, e).state != FREE
  {}

  ghost predicate RepresentsAt<K, V>(hashOf: K -> nat, cap: nat, buckets: seq<Bucket<K, V>>, cells: Cells<K, V>, i: nat)
    requires i < cap && cap <= |buckets| && cap <= |cells|
  {
    if cells[i].None? then buckets[i].state == FREE else buckets[i] == BucketFor(hashOf, cap, i, cells[i].value)
  }

  /** The buckets store the cells, and the cells are well arranged; the last cell is not in use. */
  ghost predicate TableState<K(!new), V>(hashOf: K -> nat, cap: nat, buckets: seq<Bucket<K, V>>, cells: Cells<K, V>) {
    |buckets| == |cells| == cap + 1 && cells[cap].None? &&
    (forall i :: 0 <= i < cap ==> RepresentsAt(hashOf, cap, buckets, cells, i)) &&
    (cap > 0 ==> IsPowerOfTwo(cap) && Arranged(HomeIn(hashOf, cap), cells[..cap]))
  }

  /** The list visits exactly the occupied cells. */
  ghost predicate ListState<K, V>(cells: Cells<K, V>, order: seq<nat>, links: Links, head: int, tail: int) {
    |links| == |cells| && Linked(links, head, tail, order) && Listed(cells, order)
  }

  lemma ListStateParts<K, V>(cells: Cells<K, V>, order: seq<nat>, links: Links, head: int, tail: int)
    requires ListState(cells, order, links, head, tail)
    ensures |links| == |cells| && Linked(links, head, tail, order) && Listed(cells, order) && Distinct(order)
  {}

  /** The position in the list of an occupied cell. */
  lemma PositionOf<K, V>(cells: Cells<K, V>, order: seq<nat>, c: nat) returns (k: nat)
    requires Listed(cells, order) && c < |cells| && cells[c].Some?
    ensures k < |order| && order[k] == c
  {
    k :| 0 <= k < |order| && order[k] == c;
  }

  // ----- Displacement, on values -----

  /**
   While x is carried along from bucket j: full is the table as it will be with e in the stolen
   bucket index, whose slot is still empty; x is in the spare bucket.
   */
  ghost predicate Displacing<K(!new), V>(hashOf: K -> nat, cap: nat, buckets: seq<Bucket<K, V>>, cells: Cells<K, V>,
                                         full: Cells<K, V>, index: nat, e: Entry<K, V>, x: Entry<K, V>, j: nat, probe: int)
  {
    |buckets| == |cells| == cap + 1 && |full| == cap && index < cap && j < cap && cap >= 2 && IsPowerOfTwo(cap) &&
    Arranged(HomeIn(hashOf, cap), full) && full[index] == Some(e) &&
    Carrying(HomeIn(hashOf, cap), full, x, j, probe) &&
    cells == full[index := None] + [Some(x)] &&
    buckets[cap].slot == Some(x) && buckets[cap].hash == hashOf(x.key) &&
    forall i :: 0 <= i < cap && i != index ==> RepresentsAt(hashOf, cap, buckets, cells, i)
  }

  /** Bucket index is reserved for e: free, not in the list, and the table is well arranged once e is in it. */
  ghost predicate Tentative<K(!new), V>(hashOf: K -> nat, cap: nat, buckets: seq<Bucket<K, V>>, cells: Cells<K, V>,
                                        index: nat, probe: nat, e: Entry<K, V>)
  {
    |buckets| == |cells| == cap + 1 && index < cap && IsPowerOfTwo(cap) && cells[cap].None? && cells[index].None? &&
    (forall i :: 0 <= i < cap && i != index ==> RepresentsAt(hashOf, cap, buckets, cells, i)) &&
    Arranged(HomeIn(hashOf, cap), cells[..cap][index := Some(e)]) &&
    probe == Distance(cap, MaskIndex(cap, hashOf(e.key)), index)
  }

  lemma DisplacementStarts<K(!new), V>(hashOf: K -> nat, cap: nat, buckets: seq<Bucket<K, V>>, cells: Cells<K, V>,
                                       e: Entry<K, V>, probe: nat, stamped: Bucket<K, V>)
    requires TableState(hashOf, cap, buckets, cells) && cap >= 2 && probe < cap
    requires Walked(HomeIn(hashOf, cap), cells[..cap], e.key, probe)
    requires var i := Step(cap, MaskIndex(cap, hashOf(e.key)), probe);
             cells[i].Some? && Probe(HomeIn(hashOf, cap), cells[..cap], i) < probe
    ensures var i := Step(cap, MaskIndex(cap, hashOf(e.key)), probe);
            var x, target := cells[i].value, Probe(HomeIn(hashOf, cap), cells[..cap], i);
            Displacing(hashOf, cap, buckets[cap := buckets[i]][i := stamped], MoveEntry(cells, i, cap),
                       cells[..cap][i := Some(e)], i, e, x, i, target)
  {
    var i := Step(cap, MaskIndex(cap, hashOf(e.key)), probe);
    StealStarts(HomeIn(hashOf, cap), cells[..cap], e, probe);
    var bs, cs := buckets[cap := buckets[i]][i := stamped], MoveEntry(cells, i, cap);
    assert RepresentsAt(hashOf, cap, buckets, cells, i);
    forall p | 0 <= p < cap && p != i ensures RepresentsAt(hashOf, cap, bs, cs, p) {
      assert RepresentsAt(hashOf, cap, buckets, cells, p);
    }
    assert cs == cells[..cap][i := Some(e)][i := None] + [Some(cells[i].value)];
  }

  /** Past a bucket whose entry is at least as far from home. */
  lemma DisplacementPasses<K(!new), V>(hashOf: K -> nat, cap: nat, buckets: seq<Bucket<K, V>>, cells: Cells<K, V>,
                                       full: Cells<K, V>, index: nat, e: Entry<K, V>, x: Entry<K, V>, j: nat, probe: int, free: nat)
    requires Displacing(hashOf, cap, buckets, cells, full, index, e, x, j, probe)
    requires free < cap && full[free].None?
    requires probe + 1 <= Probe(HomeIn(hashOf, cap), full, Next(cap, j))
    ensures Displacing(hashOf, cap, buckets, cells, full, index, e, x, Next(cap, j), probe + 1)
  {
    CarryOn(HomeIn(hashOf, cap), full, x, j, probe, free);
  }

  /** Into a bucket whose entry is closer to its home; that one is carried on. */
  lemma DisplacementSwaps<K(!new), V>(hashOf: K -> nat, cap: nat, buckets: seq<Bucket<K, V>>, cells: Cells<K, V>,
                                      full: Cells<K, V>, index: nat, e: Entry<K, V>, x: Entry<K, V>, j: nat, probe: int, free: nat)
    requires Displacing(hashOf, cap, buckets, cells, full, index, e, x, j, probe)
    requires free < cap && full[free].None?
    requires var n := Next(cap, j);
             n != index && full[n].Some? && probe + 1 > Probe(HomeIn(hashOf, cap), full, n)
    ensures var n := Next(cap, j);
            var bs := buckets[cap := buckets[n]][n := buckets[cap].(state := StateForProbeLength(probe + 1))];
            Displacing(hashOf, cap, bs, SwapEntries(cells, cap, n), full[n := Some(x)], index, e, full[n].value, n,
                       Probe(HomeIn(hashOf, cap), full, n))
  {
    var n, y := Next(cap, j), full[Next(cap, j)].value;
    CarryOn(HomeIn(hashOf, cap), full, x, j, probe, free);
    var bs := buckets[cap := buckets[n]][n := buckets[cap].(state := StateForProbeLength(probe + 1))];
    var cs := SwapEntries(cells, cap, n);
    assert RepresentsAt(hashOf, cap, buckets, cells, n);
    assert cs == full[n := Some(x)][index := None] + [Some(y)];
    forall i | 0 <= i < cap && i != index ensures RepresentsAt(hashOf, cap, bs, cs, i) {
      assert RepresentsAt(hashOf, cap, buckets, cells, i);
    }
  }

  /** Into a free bucket: the displacement ends. */
  lemma DisplacementSettles<K(!new), V>(hashOf: K -> nat, cap: nat, buckets: seq<Bucket<K, V>>, cells: Cells<K, V>,
                                        full: Cells<K, V>, index: nat, e: Entry<K, V>, x: Entry<K, V>, j: nat, probe: int)
    requires Displacing(hashOf, cap, buckets, cells, full, index, e, x, j, probe)
    requires full[Next(cap, j)].None?
    ensures var n := Next(cap, j);
            var bs := buckets[n := buckets[cap].(state := StateForProbeLength(probe + 1))];
            n != index && probe + 1 >= 0 &&
            Tentative(hashOf, cap, bs, MoveEntry(cells, cap, n), index, Distance(cap, MaskIndex(cap, hashOf(e.key)), index), e)
  {
    var n := Next(cap, j);
    CarryOn(HomeIn(hashOf, cap), full, x, j, probe, n);
    var bs := buckets[n := buckets[cap].(state := StateForProbeLength(probe + 1))];
    var cs := MoveEntry(cells, cap, n);
    assert cs[..cap][index := Some(e)] == full[n := Some(x)];
    forall i | 0 <= i < cap && i != index ensures RepresentsAt(hashOf, cap, bs, cs, i) {
      assert RepresentsAt(hashOf, cap, buckets, cells, i);
    }
  }

  lemma TentativeInFreeBucket<K(!new), V>(hashOf: K -> nat, cap: nat, buckets: seq<Bucket<K, V>>, cells: Cells<K, V>,
                                          e: Entry<K, V>, probe: nat)
    requires TableState(hashOf, cap, buckets, cells) && cap >= 2 && probe < cap
    requires Walked(HomeIn(hashOf, cap), cells[..cap], e.key, probe)
    requires cells[Step(cap, MaskIndex(cap, hashOf(e.key)), probe)].None?
    ensures Tentative(hashOf, cap, buckets, cells, Step(cap, MaskIndex(cap, hashOf(e.key)), probe), probe, e)
  {
    TakeCell(HomeIn(hashOf, cap), cells[..cap], e, probe);
  }

  /** Committing the reserved bucket makes a well-formed table. */
  lemma Committed<K(!new), V>(hashOf: K -> nat, cap: nat, buckets: seq<Bucket<K, V>>, cells: Cells<K, V>,
                              index: nat, probe: nat, e: Entry<K, V>)
    requires Tentative(hashOf, cap, buckets, cells, index, probe, e)
    ensures TableState(hashOf, cap, buckets[index := Bucket(StateForProbeLength(probe), hashOf(e.key), Some(e))],
                       cells[index := Some(e)])
  {
    var bs := buckets[index := Bucket(StateForProbeLength(probe), hashOf(e.key), Some(e))];
    var cs := cells[index := Some(e)];
    forall i | 0 <= i < cap ensures RepresentsAt(hashOf, cap, bs, cs, i) {
      if i != index {
        assert RepresentsAt(hashOf, cap, buckets, cells, i);
      }
    }
    assert cs[..cap] == cells[..cap][index := Some(e)];
  }

  /** Reading a bucket of a well-formed table: its state tells whether it is free, else how far it is from home. */
  lemma ReadBucket<K(!new), V>(hashOf: K -> nat, cap: nat, buckets: seq<Bucket<K, V>>, cells: Cells<K, V>, i: nat)
    requires i < cap <= |buckets| && cap <= |cells| && RepresentsAt(hashOf, cap, buckets, cells, i)
    ensures buckets[i].state == FREE <==> cells[i].None?
    ensures cells[i].Some? ==>
        buckets[i].slot == cells[i] && buckets[i].hash == hashOf(cells[i].value.key) &&
        UsedBucketProbeLength(hashOf, cap, buckets[i], i) == Probe(HomeIn(hashOf, cap), cells[..cap], i)
  {
    if cells[i].Some? {
      ProbeLengthRoundTrip(hashOf, cap, i, cells[i].value);
    }
  }

  lemma TableStateParts<K(!new), V>(hashOf: K -> nat, cap: nat, buckets: seq<Bucket<K, V>>, cells: Cells<K, V>)
    requires TableState(hashOf, cap, buckets, cells)
    ensures |buckets| == |cells| == cap + 1 && cells[cap].None?
    ensures cap > 0 ==> IsPowerOfTwo(cap) && Arranged(HomeIn(hashOf, cap), cells[..cap])
  {}

  lemma TableBucket<K(!new), V>(hashOf: K -> nat, cap: nat, buckets: seq<Bucket<K, V>>, cells: Cells<K, V>, i: nat)
    requires TableState(hashOf, cap, buckets, cells) && i < cap
    ensures |buckets| == |cells| == cap + 1
    ensures RepresentsAt(hashOf, cap, buckets, cells, i)
  {}

  lemma WalkFurther<K(!new), V>(home: K -> nat, cells: Cells<K, V>, key: K, m: nat, free: nat)
    requires Walked(home, cells, key, m) && m < |cells| && free < |cells| && cells[free].None?
    requires var i := Step(|cells|, home(key), m);
             cells[i].Some? && cells[i].value.key != key && Probe(home, cells, i) >= m
    ensures Walked(home, cells, key, m + 1) && m + 1 < |cells|
    ensures Step(|cells|, home(key), m + 1) == Next(|cells|, Step(|cells|, home(key), m))
  {
    WalkEnds(home, cells, key, m + 1, free);
  }

  // ----- Deletion, on values -----

  /** After a deletion, while later entries move back: the table is in order but for the hole. */
  ghost predicate Shifting<K(!new), V>(hashOf: K -> nat, cap: nat, buckets: seq<Bucket<K, V>>, cells: Cells<K, V>, hole: nat) {
    |buckets| == |cells| == cap + 1 && cells[cap].None? && hole < cap && cap >= 2 && IsPowerOfTwo(cap) &&
    Holed(HomeIn(hashOf, cap), cells[..cap], hole) && UniqueKeys(cells[..cap]) &&
    forall i :: 0 <= i < cap && i != hole ==> RepresentsAt(hashOf, cap, buckets, cells, i)
  }

  lemma ShiftingStarts<K(!new), V>(hashOf: K -> nat, cap: nat, buckets: seq<Bucket<K, V>>, cells: Cells<K, V>, i: nat)
    requires TableState(hashOf, cap, buckets, cells) && i < cap && cells[i].Some? && cap >= 2
    ensures Shifting(hashOf, cap, buckets, cells[i := None], i)
  {
    var cs := cells[i := None];
    RemoveMakesHole(HomeIn(hashOf, cap), cells[..cap], i);
    assert cs[..cap] == cells[..cap][i := None];
    forall j | 0 <= j < cap && j != i ensures RepresentsAt(hashOf, cap, buckets, cs, j) {
      assert RepresentsAt(hashOf, cap, buckets, cells, j);
    }
  }

  lemma ShiftingBucket<K(!new), V>(hashOf: K -> nat, cap: nat, buckets: seq<Bucket<K, V>>, cells: Cells<K, V>, hole: nat)
    requires Shifting(hashOf, cap, buckets, cells, hole)
    ensures |buckets| == |cells| == cap + 1 && hole < cap && cells[hole].None? && IsPowerOfTwo(cap)
    ensures var n := Next(cap, hole);
            n != hole && (buckets[n].state == FREE <==> cells[n].None?) &&
            (cells[n].Some? ==>
               buckets[n].slot == cells[n] &&
               UsedBucketProbeLength(hashOf, cap, buckets[n], n) == Probe(HomeIn(hashOf, cap), cells[..cap], n) >= 0)
  {
    HomesInRange(hashOf, cap);
    ReadBucket(hashOf, cap, buckets, cells, Next(cap, hole));
  }

  lemma ShiftingStep<K(!new), V>(hashOf: K -> nat, cap: nat, buckets: seq<Bucket<K, V>>, cells: Cells<K, V>, hole: nat)
    requires Shifting(hashOf, cap, buckets, cells, hole) && Probe(HomeIn(hashOf, cap), cells[..cap], Next(cap, hole)) >= 1
    ensures var n := Next(cap, hole);
            var probe := Probe(HomeIn(hashOf, cap), cells[..cap], n);
            Shifting(hashOf, cap, buckets[hole := buckets[n].(state := StateForProbeLength(probe - 1))],
                     MoveEntry(cells, n, hole), n)
  {
    var n, home := Next(cap, hole), HomeIn(hashOf, cap);
    HomesInRange(hashOf, cap);
    ShiftBack(home, cells[..cap], hole);
    var probe := Probe(home, cells[..cap], n);
    var bs, cs := buckets[hole := buckets[n].(state := StateForProbeLength(probe - 1))], MoveEntry(cells, n, hole);
    assert cs[..cap] == cells[..cap][hole := cells[n]][n := None];
    assert RepresentsAt(hashOf, cap, buckets, cells, n);
    assert Probe(home, cs[..cap], hole) == probe - 1;
    forall i | 0 <= i < cap && i != n ensures RepresentsAt(hashOf, cap, bs, cs, i) {
      if i != hole {
        assert RepresentsAt(hashOf, cap, buckets, cells, i);
      }
    }
  }

  lemma ShiftingEnds<K(!new), V>(hashOf: K -> nat, cap: nat, buckets: seq<Bucket<K, V>>, cells: Cells<K, V>, hole: nat)
    requires Shifting(hashOf, cap, buckets, cells, hole) && Probe(HomeIn(hashOf, cap), cells[..cap], Next(cap, hole)) <= 0
    ensures TableState(hashOf, cap, buckets[hole := buckets[hole].(state := FREE)], cells)
  {
    HomesInRange(hashOf, cap);
    HoleSettles(HomeIn(hashOf, cap), cells[..cap], hole);
    var bs := buckets[hole := buckets[hole].(state := FREE)];
    forall i | 0 <= i < cap ensures RepresentsAt(hashOf, cap, bs, cells, i) {
      if i != hole {
        assert RepresentsAt(hashOf, cap, buckets, cells, i);
      }
    }
  }

  /**
   After the entry of cell i was deleted, every entry is where it was or one cell before, and none
   has moved past cell i.
   */
  ghost predicate ShiftedBack<K, V>(cap: nat, before: Cells<K, V>, i: nat, after: Cells<K, V>) {
    |before| >= cap && |after| >= cap &&
    forall j :: 0 <= j < cap && after[j].Some? ==>
      (j != i && after[j] == before[j]) || (Next(cap, j) != i && after[j] == before[Next(cap, j)])
  }

  /** Cells farther than the hole from where the deletion happened have not been touched. */
  ghost predicate UntouchedBeyond<K, V>(cap: nat, before: Cells<K, V>, i: nat, hole: nat, after: Cells<K, V>)
    requires i < cap && hole < cap && |before| >= cap && |after| >= cap
  {
    forall j :: 0 <= j < cap && Distance(cap, i, j) > Distance(cap, i, hole) ==> after[j] == before[j]
  }

  lemma ShiftedOnce<K, V>(cap: nat, before: Cells<K, V>, i: nat, hole: nat, after: Cells<K, V>, free: nat)
    requires i < cap && hole < cap && free < cap && |before| >= cap && |after| >= cap
    requires ShiftedBack(cap, before, i, after) && UntouchedBeyond(cap, before, i, hole, after)
    requires Distance(cap, i, hole) < Distance(cap, i, free)
    ensures var n := Next(cap, hole);
            ShiftedBack(cap, before, i, MoveEntry(after, n, hole)) && UntouchedBeyond(cap, before, i, n, MoveEntry(after, n, hole))
  {
    var n := Next(cap, hole);
    DistanceNext(cap, i, hole, free);
    var moved := MoveEntry(after, n, hole);
    forall j | 0 <= j < cap && moved[j].Some?
      ensures (j != i && moved[j] == before[j]) || (Next(cap, j) != i && moved[j] == before[Next(cap, j)])
    {
      if j == hole {
        assert moved[j] == after[n] == before[n];
      }
    }
    forall j | 0 <= j < cap && Distance(cap, i, j) > Distance(cap, i, n) ensures moved[j] == before[j] {
      assert j != hole && j != n;
    }
  }

  datatype ProbeOutcome = Vacant | Existing | Richer

  class OrderedHashTable<K(!new, ==), V> {
    const hashOf: K -> nat
    var buckets: array<Bucket<K, V>>
    var links: array<Link>
    var head: int
    var tail: int
    var size: nat
    ghost var cells: Cells<K, V>
    ghost var order: seq<nat>

    ghost predicate ListValid()
      reads this, links
    {
      ListState(cells, order, links[..], head, tail)
    }

    ghost predicate Valid()
      reads this, buckets, links
    {
      buckets.Length == links.Length > 0 &&
      TableState(hashOf, buckets.Length - 1, buckets[..], cells) && ListValid() && size == |order| &&
      (buckets.Length > 1 ==> size + 1 < buckets.Length) && (buckets.Length == 1 ==> size == 0)
    }

    /** The entries of the table in list order. */
    ghost function Contents(): Entries<K, V>
      reads this, links
      requires ListValid()
    {
      EntriesOf(cells, order)
    }

    // ----- The list fix-ups -----

    /** Repairs head, tail and the neighbours' links after two buckets were exchanged. */
    method UpdateCollectionForSwappedBuckets(left: nat, right: nat)
      requires left < links.Length && right < links.Length && left != right
      modifies this`head, this`tail, links
      ensures links[..] == FixRight(FixLeft(old(links[..]), left, right), left, right)
      ensures head == SwapEnd(old(head), left, right) && tail == SwapEnd(old(tail), left, right)
    {
      if head == left {
        head := right;
      } else if head == right {
        head := left;
      }
      if tail == left {
        tail := right;
      } else if tail == right {
        tail := left;
      }
      FixLeftBucket(left, right);
      ghost var mid := links[..];
      if links[right].previous != NULL && links[right].previous != left {
        SetNextOf(links[right].previous, right);
      }
      if links[right].next != NULL && links[right].next != left {
        SetPreviousOf(links[right].next, right);
      }
    }

    method SetNextOf(c: int, target: int)
      modifies links
      ensures links[..] == SetNext(old(links[..]), c, target)
    {
      if 0 <= c < links.Length {
        links[c] := links[c].(next := target);
      }
    }

    method SetPreviousOf(c: int, target: int)
      modifies links
      ensures links[..] == SetPrevious(old(links[..]), c, target)
    {
      if 0 <= c < links.Length {
        links[c] := links[c].(previous := target);
      }
    }

    method FixLeftBucket(left: nat, right: nat)
      requires left < links.Length && right < links.Length && left != right
      modifies links
      ensures links[..] == FixLeft(old(links[..]), left, right)
    {
      if links[left].previous != NULL {
        if links[left].previous == left {
          SetPreviousOf(left, right);
        }
        SetNextOf(links[left].previous, left);
      }
      if links[left].next != NULL {
        if links[left].next == left {
          SetNextOf(left, right);
        }
        SetPreviousOf(links[left].next, left);
      }
    }
  
    // ----- Moving entries, with their place in the list -----

    method RelocateLinks(from: nat, to: nat)
      requires from < links.Length && to < links.Length
      modifies links
      ensures links[..] == Relocate(old(links[..]), from, to)
    {
      links[to] := links[from];
      links[from] := Link(NULL, NULL);
    }

    /** Moves a bucket to a free one and lets the list follow. */
    method MoveBucket(from: nat, to: nat)
      requires ListValid() && buckets.Length == links.Length
      requires from < links.Length && to < links.Length && from != to && cells[from].Some? && cells[to].None?
      modifies this`head, this`tail, this`cells, this`order, buckets, links
      ensures ListValid() && Contents() == old(Contents()) && |order| == old(|order|)
      ensures cells == MoveEntry(old(cells), from, to)
      ensures buckets[..] == old(buckets[..])[to := old(buckets[from])]
    {
      hide Linked, Listed, Distinct, EntriesOf, FixLeft, FixRight, Relocated, MoveEntry;
      ListStateParts(cells, order, links[..], head, tail);
      ghost var k := PositionOf(cells, order, from);
      MovedListed(cells, order, k, to);
      RelocatedLinked(links[..], head, tail, order, k, to);
      RelocatedByFixes(links[..], head, tail, order, k, to);
      buckets[to] := buckets[from];
      RelocateLinks(from, to);
      UpdateCollectionForSwappedBuckets(from, to);
      cells := MoveEntry(cells, from, to);
      order := order[k := to];
    }

    /** Exchanges two used buckets and lets the list follow. */
    method SwapBuckets(a: nat, b: nat)
      requires ListValid() && buckets.Length == links.Length
      requires a < links.Length && b < links.Length && a != b && cells[a].Some? && cells[b].Some?
      modifies this`head, this`tail, this`cells, this`order, buckets, links
      ensures ListValid() && Contents() == old(Contents()) && |order| == old(|order|)
      ensures cells == SwapEntries(old(cells), a, b)
      ensures buckets[..] == old(buckets[..])[a := old(buckets[b])][b := old(buckets[a])]
    {
      hide Linked, Listed, Distinct, EntriesOf, FixLeft, FixRight, SwapEntries, SwapAt;
      ListStateParts(cells, order, links[..], head, tail);
      ghost var i := PositionOf(cells, order, a);
      ghost var j := PositionOf(cells, order, b);
      SwappedListed(cells, order, i, j);
      SwappedLinked(links[..], head, tail, order, i, j);
      ghost var before := links[..];
      buckets[a], buckets[b] := buckets[b], buckets[a];
      links[a], links[b] := links[b], links[a];
      assert links[..] == SwapLinks(before, a, b);
      UpdateCollectionForSwappedBuckets(a, b);
      cells := SwapEntries(cells, a, b);
      order := SwapAt(order, i, j);
    }

    /** Moves a bucket back into the free one before it; its neighbours are found through its links. */
    method ShiftBucket(from: nat, to: nat)
      requires ListValid() && buckets.Length == links.Length
      requires from < links.Length && to < links.Length && from != to && cells[from].Some? && cells[to].None?
      modifies this`head, this`tail, this`cells, this`order, buckets, links
      ensures ListValid() && Contents() == old(Contents()) && |order| == old(|order|)
      ensures cells == MoveEntry(old(cells), from, to)
      ensures buckets[..] == old(buckets[..])[to := old(buckets[from])]
    {
      hide Linked, Listed, Distinct, EntriesOf, MoveEntry, Rejoin;
      ListStateParts(cells, order, links[..], head, tail);
      ghost var k := PositionOf(cells, order, from);
      MovedListed(cells, order, k, to);
      RelocatedLinked(links[..], head, tail, order, k, to);
      EndsByLinks(links[..], head, tail, order, k);
      NotOwnNeighborLink(links[..], head, tail, order, k, to);
      buckets[to] := buckets[from];
      RelocateLinks(from, to);
      UpdateBucketNeighbors(to);
      cells := MoveEntry(cells, from, to);
      order := order[k := to];
    }

    /** Points the neighbours of a bucket, or the ends of the list, to it. */
    method UpdateBucketNeighbors(c: nat)
      requires c < links.Length && links[c].previous != c
      modifies this`head, this`tail, links
      ensures var l := old(links[c]);
              links[..] == Rejoin(old(links[..]), l.previous, c, l.next, c) &&
              head == (if l.previous == NULL then c else old(head)) && tail == (if l.next == NULL then c else old(tail))
    {
      if links[c].previous != NULL {
        SetNextOf(links[c].previous, c);
      } else {
        head := c;
      }
      if links[c].next != NULL {
        SetPreviousOf(links[c].next, c);
      } else {
        tail := c;
      }
    }

    /** Takes a bucket out of the list and clears its links. */
    method UnlinkBucket(c: nat)
      requires ListValid() && c < links.Length && cells[c].Some?
      modifies this`head, this`tail, this`cells, this`order, links
      ensures ListValid() && |order| == old(|order|) - 1
      ensures cells == old(cells)[c := None]
      ensures exists k :: 0 <= k < |old(Contents())| && old(Contents())[k] == old(cells[c].value)
                && Contents() == old(Contents())[..k] + old(Contents())[k + 1..]
    {
      hide Linked, Listed, Distinct, Without;
      ListStateParts(cells, order, links[..], head, tail);
      ghost var k := PositionOf(cells, order, c);
      RemovedListed(cells, order, k);
      RemovedLinked(links[..], head, tail, order, k);
      ghost var before, contents := links[..], Contents();
      assert contents[k] == cells[c].value;
      var previous, next := links[c].previous, links[c].next;
      if previous != NULL {
        SetNextOf(previous, next);
      } else {
        head := next;
      }
      if next != NULL {
        SetPreviousOf(next, previous);
      } else {
        tail := previous;
      }
      links[c] := Link(NULL, NULL);
      assert links[..] == Removed(before, c);
      cells := cells[c := None];
      order := Without(order, k);
      assert Contents() == contents[..k] + contents[k + 1..];
    }

    /** Appends a bucket that is not in the list. */
    method LinkBucket(c: nat, ghost e: Entry<K, V>)
      requires ListValid() && c < links.Length && cells[c].None?
      modifies this`head, this`tail, this`cells, this`order, links
      ensures ListValid() && |order| == old(|order|) + 1
      ensures cells == old(cells)[c := Some(e)]
      ensures Contents() == old(Contents()) + [e]
    {
      hide Linked, Listed, Distinct;
      ListStateParts(cells, order, links[..], head, tail);
      AppendedListed(cells, order, c, e);
      AppendedLinked(links[..], head, tail, order, c);
      ghost var before := links[..];
      if head == NULL {
        head := c;
      } else {
        SetPreviousOf(c, tail);
        SetNextOf(tail, c);
      }
      tail := c;
      cells := cells[c := Some(e)];
      order := order + [c];
    }
  
    // ----- Probing -----

    ghost predicate HasRoom()
      reads this
    {
      size + 2 < buckets.Length
    }

    /** A bucket of the table that is free. */
    lemma SomeFreeBucket() returns (free: nat)
      requires Valid() && buckets.Length > 1
      ensures free < buckets.Length - 1 && cells[free].None?
    {
      hide Linked, Arranged;
      ListStateParts(cells, order, links[..], head, tail);
      free := FreeCellExists(cells, order, buckets.Length - 1);
    }

    /**
     The probe loop of a write: stops at a free bucket, at the bucket with the key, or at one
     whose entry is closer to its home than the probe is.
     */
    method ProbeForWriting(key: K) returns (outcome: ProbeOutcome, index: nat, probeLength: nat)
      requires Valid() && buckets.Length > 1
      ensures index < buckets.Length - 1 && index < |cells| == buckets.Length
      ensures outcome == Existing ==> cells[index].Some? && cells[index].value.key == key
      ensures outcome != Existing ==>
          probeLength < buckets.Length - 1 &&
          Walked(HomeIn(hashOf, buckets.Length - 1), cells[..buckets.Length - 1], key, probeLength) &&
          index == Step(buckets.Length - 1, MaskIndex(buckets.Length - 1, hashOf(key)), probeLength)
      ensures outcome == Vacant ==> cells[index].None?
      ensures outcome == Richer ==>
          cells[index].Some? && Probe(HomeIn(hashOf, buckets.Length - 1), cells[..buckets.Length - 1], index) < probeLength
    {
      hide TableState, ListState, MaskIndex, Arranged, RepresentsAt, Walked, UsedBucketProbeLength, IsPowerOfTwo, Probe;
      var capacity := buckets.Length - 1;
      TableStateParts(hashOf, capacity, buckets[..], cells);
      HomesInRange(hashOf, capacity);
      ghost var table := cells[..capacity];
      ghost var free := SomeFreeBucket();
      var hash := hashOf(key);
      index := MaskIndex(capacity, hash);
      probeLength := 0;
      WalkStarts(HomeIn(hashOf, capacity), table, key);
      while true
        invariant probeLength < capacity && Walked(HomeIn(hashOf, capacity), table, key, probeLength)
        invariant index == Step(capacity, MaskIndex(capacity, hash), probeLength)
        decreases capacity - probeLength
      {
        TableBucket(hashOf, capacity, buckets[..], cells, index);
        ReadBucket(hashOf, capacity, buckets[..], cells, index);
        var bucket := buckets[index];
        if bucket.state == FREE {
          return Vacant, index, probeLength;
        }
        if bucket.hash == hash && bucket.slot.value.key == key {
          return Existing, index, probeLength;
        }
        if probeLength > UsedBucketProbeLength(hashOf, capacity, bucket, index) {
          return Richer, index, probeLength;
        }
        WalkFurther(HomeIn(hashOf, capacity), table, key, probeLength, free);
        MaskIsNext(capacity, index);
        index := MaskIndex(capacity, index + 1);
        probeLength := probeLength + 1;
      }
    }

    /**
     Robin Hood displacement: the entry of the given bucket is carried on until it, or one it
     displaces, reaches a free bucket. The given bucket is left free for e.
     */
    method Displace(start: nat, probeLength: nat, hash: nat, ghost e: Entry<K, V>)
      requires hash == hashOf(e.key)
      requires Valid() && HasRoom() && probeLength < buckets.Length - 1
      requires Walked(HomeIn(hashOf, buckets.Length - 1), cells[..buckets.Length - 1], e.key, probeLength)
      requires start == Step(buckets.Length - 1, MaskIndex(buckets.Length - 1, hashOf(e.key)), probeLength)
      requires cells[start].Some? && Probe(HomeIn(hashOf, buckets.Length - 1), cells[..buckets.Length - 1], start) < probeLength
      modifies this`head, this`tail, this`cells, this`order, buckets, links
      ensures ListValid() && Contents() == old(Contents()) && |order| == old(|order|)
      ensures Tentative(hashOf, buckets.Length - 1, buckets[..], cells, start, probeLength, e)
      ensures buckets[start].state == FREE
    {
      hide TableState, ListState, MaskIndex, Arranged, RepresentsAt, Walked, UsedBucketProbeLength, IsPowerOfTwo, Probe,
        EntriesOf, Displacing, MoveEntry, SwapEntries, Tentative;
      var capacity := buckets.Length - 1;
      ghost var home := HomeIn(hashOf, capacity);
      ghost var free := SomeFreeBucket();
      TableStateParts(hashOf, capacity, buckets[..], cells);
      TableBucket(hashOf, capacity, buckets[..], cells, start);
      ReadBucket(hashOf, capacity, buckets[..], cells, start);
      ghost var full, x := cells[..capacity][start := Some(e)], cells[start].value;
      var stamped := Bucket(StateForProbeLength(probeLength), hash, None);
      var probe := UsedBucketProbeLength(hashOf, capacity, buckets[start], start);
      DisplacementStarts(hashOf, capacity, buckets[..], cells, e, probeLength, stamped);
      ghost var before := buckets[..];
      MoveBucket(start, capacity);
      buckets[start] := stamped;
      assert buckets[..] == before[capacity := before[start]][start := stamped];
      var index := start;
      while true
        invariant index < capacity && |full| == capacity && free < capacity && full[free].None?
        invariant Displacing(hashOf, capacity, buckets[..], cells, full, start, e, x, index, probe)
        invariant ListValid() && Contents() == old(Contents()) && |order| == old(|order|)
        invariant Distance(capacity, start, index) < Distance(capacity, start, free)
        decreases Distance(capacity, start, free) - Distance(capacity, start, index)
      {
        var next := MaskIndex(capacity, index + 1);
        DisplacingParts(hashOf, capacity, buckets[..], cells, full, start, e, x, index, probe);
        MaskIsNext(capacity, index);
        DistanceNext(capacity, start, index, free);
        DisplacingBucket(hashOf, capacity, buckets[..], cells, full, start, e, x, index, probe, next);
        if buckets[next].state == FREE {
          DisplacementSettles(hashOf, capacity, buckets[..], cells, full, start, e, x, index, probe);
          ghost var bs := buckets[..];
          MoveBucket(capacity, next);
          buckets[next] := buckets[next].(state := StateForProbeLength(probe + 1));
          assert buckets[..] == bs[next := bs[capacity].(state := StateForProbeLength(probe + 1))];
          break;
        }
        var target := UsedBucketProbeLength(hashOf, capacity, buckets[next], next);
        if probe + 1 > target {
          DisplacementSwaps(hashOf, capacity, buckets[..], cells, full, start, e, x, index, probe, free);
          ghost var y, bs := full[next].value, buckets[..];
          SwapBuckets(capacity, next);
          buckets[next] := buckets[next].(state := StateForProbeLength(probe + 1));
          assert buckets[..] == bs[capacity := bs[next]][next := bs[capacity].(state := StateForProbeLength(probe + 1))];
          full := full[next := Some(x)];
          x, probe := y, target;
        } else {
          DisplacementPasses(hashOf, capacity, buckets[..], cells, full, start, e, x, index, probe, free);
          probe := probe + 1;
        }
        index := next;
      }
      DistanceOfStep(capacity, MaskIndex(capacity, hash), probeLength);
      TentativeAny(hashOf, capacity, buckets[..], cells, start, probeLength, e, buckets[start].(state := FREE));
      buckets[start] := buckets[start].(state := FREE);
      ClearedAlready(cells, order, links[..], head, tail, start);
      links[start] := Link(NULL, NULL);
    }

    /**
     Finds the bucket of a key, or reserves one for it: the reserved bucket is free and not in the
     list, and the caller commits it once the value is there.
     */
    method LookupForWriting(key: K, hash: nat, ghost e: Entry<K, V>) returns (found: bool, index: nat, probeLength: nat)
      requires Valid() && HasRoom() && e.key == key && hash == hashOf(key)
      modifies this`head, this`tail, this`cells, this`order, buckets, links
      ensures ListValid() && Contents() == old(Contents()) && |order| == old(|order|)
      ensures found <==> Contains(old(Contents()), key)
      ensures found ==>
          Valid() && cells == old(cells) && order == old(order) &&
          index < buckets.Length - 1 && index < |cells| && cells[index].Some? && cells[index].value.key == key
      ensures !found ==>
          Tentative(hashOf, buckets.Length - 1, buckets[..], cells, index, probeLength, e) && buckets[index].state == FREE
    {
      hide TableState, ListState, MaskIndex, Arranged, RepresentsAt, Walked, IsPowerOfTwo, EntriesOf, Tentative,
        Contains, HasKey;
      var outcome;
      outcome, index, probeLength := ProbeForWriting(key);
      PresenceByProbe(hashOf, cells, order, links[..], head, tail, buckets[..], key, outcome == Existing, index, probeLength);
      match outcome {
        case Existing =>
          found := true;
        case Vacant =>
          found := false;
          TentativeInFreeBucket(hashOf, buckets.Length - 1, buckets[..], cells, e, probeLength);
          TableBucket(hashOf, buckets.Length - 1, buckets[..], cells, index);
          ReadBucket(hashOf, buckets.Length - 1, buckets[..], cells, index);
        case Richer =>
          found := false;
          Displace(index, probeLength, hash, e);
      }
    }

    /** Makes a reserved bucket part of the table. */
    method CommitInsertedBucket(index: nat, probeLength: nat, hash: nat, e: Entry<K, V>)
      requires ListValid() && size == |order| && buckets.Length == links.Length && HasRoom() && hash == hashOf(e.key)
      requires Tentative(hashOf, buckets.Length - 1, buckets[..], cells, index, probeLength, e)
      modifies this`head, this`tail, this`size, this`cells, this`order, buckets, links
      ensures Valid() && Contents() == old(Contents()) + [e] && size == old(size) + 1
    {
      hide TableState, ListState, MaskIndex, EntriesOf, Tentative;
      TentativeIndex(hashOf, buckets.Length - 1, buckets[..], cells, index, probeLength, e);
      Committed(hashOf, buckets.Length - 1, buckets[..], cells, index, probeLength, e);
      buckets[index] := Bucket(StateForProbeLength(probeLength), hash, Some(e));
      LinkBucket(index, e);
      size := size + 1;
    }

    /** Sets an entry in a table that has room for one more. */
    method WriteValue(e: Entry<K, V>, replace: bool) returns (result: HashSetResult)
      requires Valid() && HasRoom()
      modifies this`head, this`tail, this`size, this`cells, this`order, buckets, links
      ensures Valid()
      ensures IsSet(old(Contents()), e, replace, Contents())
      ensures result == if !Contains(old(Contents()), e.key) then InsertedNewEntry
                        else if replace then ReplacedExistingEntry else KeptExistingEntry
      ensures size == old(size) + if result == InsertedNewEntry then 1 else 0
    {
      hide TableState, ListState, MaskIndex, EntriesOf, Tentative, Contains;
      ghost var contents := Contents();
      var hash := hashOf(e.key);
      var found, index, probeLength := LookupForWriting(e.key, hash, e);
      if !found {
        CommitInsertedBucket(index, probeLength, hash, e);
        result := InsertedNewEntry;
      } else {
        ghost var k := EntryPosition(cells, order, links[..], head, tail, index);
        if replace {
          ReplacedTable(hashOf, buckets.Length - 1, buckets[..], cells, order, links[..], head, tail, k, e);
          buckets[index] := buckets[index].(slot := Some(e));
          cells := cells[index := Some(e)];
          result := ReplacedExistingEntry;
        } else {
          result := KeptExistingEntry;
        }
      }
    }

    /**
     Removes the entry of a bucket, then moves the entries behind it back by one, up to a free
     bucket or an entry at its home.
     */
    method DeleteBucket(index: nat)
      requires Valid() && index < buckets.Length - 1 && index < |cells| && cells[index].Some?
      modifies this`head, this`tail, this`size, this`cells, this`order, buckets, links
      ensures Valid() && size == old(size) - 1
      ensures exists k :: 0 <= k < |old(Contents())| && old(Contents())[k] == old(cells[index].value)
                && Contents() == old(Contents())[..k] + old(Contents())[k + 1..]
      ensures ShiftedBack(buckets.Length - 1, old(cells), index, cells)
    {
      hide TableState, ListState, MaskIndex, Arranged, RepresentsAt, UsedBucketProbeLength, IsPowerOfTwo, Probe, EntriesOf,
        Shifting, MoveEntry, ShiftedBack, UntouchedBeyond;
      var capacity := buckets.Length - 1;
      ghost var free := SomeFreeBucket();
      ghost var before := cells;
      TableStateParts(hashOf, capacity, buckets[..], cells);
      ShiftingStarts(hashOf, capacity, buckets[..], cells, index);
      UnlinkBucket(index);
      size := size - 1;
      ghost var contents := Contents();
      NothingShifted(capacity, before, index);
      var shiftTo: nat := index;
      while true
        invariant shiftTo < capacity && |cells| == buckets.Length
        invariant Shifting(hashOf, capacity, buckets[..], cells, shiftTo)
        invariant ListValid() && Contents() == contents && size == |order|
        invariant ShiftedBack(capacity, before, index, cells) && UntouchedBeyond(capacity, before, index, shiftTo, cells)
        invariant Distance(capacity, index, shiftTo) < Distance(capacity, index, free)
        decreases Distance(capacity, index, free) - Distance(capacity, index, shiftTo)
      {
        ShiftingBucket(hashOf, capacity, buckets[..], cells, shiftTo);
        MaskIsNext(capacity, shiftTo);
        DistanceNext(capacity, index, shiftTo, free);
        var shiftFrom := MaskIndex(capacity, shiftTo + 1);
        if buckets[shiftFrom].state == FREE {
          break;
        }
        var probe := UsedBucketProbeLength(hashOf, capacity, buckets[shiftFrom], shiftFrom);
        if probe == 0 {
          break;
        }
        ShiftingStep(hashOf, capacity, buckets[..], cells, shiftTo);
        ShiftedOnce(capacity, before, index, shiftTo, cells, free);
        UntouchedFree(capacity, before, index, shiftTo, cells, free);
        ghost var bs := buckets[..];
        ShiftBucket(shiftFrom, shiftTo);
        buckets[shiftTo] := buckets[shiftTo].(state := StateForProbeLength(probe - 1));
        assert buckets[..] == bs[shiftTo := bs[shiftFrom].(state := StateForProbeLength(probe - 1))];
        shiftTo := shiftFrom;
      }
      FreeProbe(hashOf, capacity, cells, Next(capacity, shiftTo));
      ShiftingEnds(hashOf, capacity, buckets[..], cells, shiftTo);
      buckets[shiftTo] := buckets[shiftTo].(state := FREE);
    }

    // ----- The operations -----

    /** An empty table without buckets. */
    constructor (hashOf: K -> nat)
      ensures Valid() && Contents() == [] && this.hashOf == hashOf && fresh(buckets) && fresh(links)
    {
      this.hashOf := hashOf;
      var none: Bucket<K, V> := Bucket(FREE, 0, None);
      buckets := new Bucket<K, V>[1](_ => none);
      links := new Link[1](_ => Link(NULL, NULL));
      head, tail, size := NULL, NULL, 0;
      cells, order := [None], [];
      new;
    }

    /** The bucket that holds a key, searched for from its home up to the first free bucket. */
    method Lookup(key: K) returns (found: bool, index: nat)
      requires Valid()
      ensures found <==> Contains(Contents(), key)
      ensures found ==>
          index < buckets.Length - 1 && index < |cells| && cells[index].Some? && cells[index].value.key == key
    {
      hide TableState, ListState, MaskIndex, Arranged, RepresentsAt, Walked, UsedBucketProbeLength, IsPowerOfTwo, Probe,
        EntriesOf, Contains, Listed, Passed;
      if size == 0 {
        NothingInEmpty(Contents(), key);
        return false, 0;
      }
      var capacity := buckets.Length - 1;
      TableStateParts(hashOf, capacity, buckets[..], cells);
      HomesInRange(hashOf, capacity);
      ghost var table := cells[..capacity];
      ghost var free := SomeFreeBucket();
      ghost var probe: nat := 0;
      var hash := hashOf(key);
      index := MaskIndex(capacity, hash);
      LookupStarts(HomeIn(hashOf, capacity), table, key);
      while true
        invariant probe < capacity && Passed(HomeIn(hashOf, capacity), table, key, probe)
        invariant index == Step(capacity, MaskIndex(capacity, hash), probe)
        decreases capacity - probe
      {
        TableBucket(hashOf, capacity, buckets[..], cells, index);
        ReadBucket(hashOf, capacity, buckets[..], cells, index);
        var bucket := buckets[index];
        if bucket.state == FREE {
          LookupVerdict(hashOf, cells, order, links[..], head, tail, buckets[..], key, false, index, probe);
          return false, index;
        }
        if bucket.hash == hash && bucket.slot.value.key == key {
          LookupVerdict(hashOf, cells, order, links[..], head, tail, buckets[..], key, true, index, probe);
          return true, index;
        }
        PassedFurther(HomeIn(hashOf, capacity), table, key, probe, free);
        MaskIsNext(capacity, index);
        index := MaskIndex(capacity, index + 1);
        probe := probe + 1;
      }
    }

    method Find(key: K) returns (r: Option<Entry<K, V>>)
      requires Valid()
      ensures r.Some? <==> Contains(Contents(), key)
      ensures r.Some? ==> r.value.key == key && r.value in Contents()
    {
      hide TableState, MaskIndex, Contains, ListState, EntriesOf;
      var found, index := Lookup(key);
      if found {
        ghost var k := EntryPosition(cells, order, links[..], head, tail, index);
        TableStateParts(hashOf, buckets.Length - 1, buckets[..], cells);
        TableBucket(hashOf, buckets.Length - 1, buckets[..], cells, index);
        ReadBucket(hashOf, buckets.Length - 1, buckets[..], cells, index);
        assert Contents()[k] == buckets[index].slot.value;
        r := buckets[index].slot;
      } else {
        r := None;
      }
    }

    method Remove(key: K) returns (removed: bool)
      requires Valid()
      modifies this`head, this`tail, this`size, this`cells, this`order, buckets, links
      ensures Valid()
      ensures removed <==> Contains(old(Contents()), key)
      ensures IsRemoved(old(Contents()), key, Contents())
    {
      hide TableState, MaskIndex, ListState, EntriesOf, Contains;
      var index;
      removed, index := Lookup(key);
      if removed {
        DeleteBucket(index);
      }
    }

    /**
     Removes every entry that matches, bucket by bucket; a bucket into which a deletion has moved
     another entry is examined again.
     */
    method RemoveAllMatching(matches: Entry<K, V> -> bool) returns (hasRemovedAnything: bool)
      requires Valid()
      modifies this`head, this`tail, this`size, this`cells, this`order, buckets, links
      ensures Valid()
      ensures Contents() == Rejected(old(Contents()), matches)
      ensures hasRemovedAnything <==> |Contents()| < |old(Contents())|
    {
      hide TableState, MaskIndex, ListState, EntriesOf, ShiftedBack;
      ghost var before := Contents();
      var capacity := buckets.Length - 1;
      hasRemovedAnything := false;
      TableStateParts(hashOf, capacity, buckets[..], cells);
      var i := 0;
      while i < capacity
        invariant i <= capacity && Valid() && |cells| == capacity + 1
        invariant Rejected(Contents(), matches) == Rejected(before, matches)
        invariant if hasRemovedAnything then |Contents()| < |before| else Contents() == before
        invariant NoneMatchBelow(cells, i, matches)
        decreases size, capacity - i
      {
        TableStateParts(hashOf, capacity, buckets[..], cells);
        TableBucket(hashOf, capacity, buckets[..], cells, i);
        ReadBucket(hashOf, capacity, buckets[..], cells, i);
        if buckets[i].state == FREE || !matches(buckets[i].slot.value) {
          i := i + 1;
        } else {
          DeleteMatching(i, matches);
          hasRemovedAnything := true;
          TableStateParts(hashOf, capacity, buckets[..], cells);
          TableBucket(hashOf, capacity, buckets[..], cells, i);
          ReadBucket(hashOf, capacity, buckets[..], cells, i);
          if buckets[i].state == FREE {
            i := i + 1;
          }
        }
      }
      NoneMatch(hashOf, cells, order, links[..], head, tail, buckets[..], matches);
    }

    /** Deletes an entry that matches: the buckets before it still hold none. */
    method DeleteMatching(index: nat, ghost matches: Entry<K, V> -> bool)
      requires Valid() && index < buckets.Length - 1 && index < |cells| && cells[index].Some? && matches(cells[index].value)
      requires NoneMatchBelow(cells, index, matches)
      modifies this`head, this`tail, this`size, this`cells, this`order, buckets, links
      ensures Valid() && size == old(size) - 1 && |Contents()| < |old(Contents())| && index <= |cells|
      ensures Rejected(Contents(), matches) == Rejected(old(Contents()), matches)
      ensures NoneMatchBelow(cells, index, matches)
    {
      hide TableState, MaskIndex, ListState, EntriesOf, ShiftedBack;
      ghost var cells0, contents := cells, Contents();
      DeleteBucket(index);
      ghost var k :| 0 <= k < |contents| && contents[k] == cells0[index].value && Contents() == contents[..k] + contents[k + 1..];
      RejectedWithout(contents, k, matches);
      TableStateParts(hashOf, buckets.Length - 1, buckets[..], cells);
      StillNoneMatch(buckets.Length - 1, cells0, index, cells, matches);
    }

    /** All entries, by following the list from its head. */
    method Values() returns (values: Entries<K, V>)
      requires Valid()
      ensures values == Contents()
    {
      hide TableState, MaskIndex, Linked;
      ListStateParts(cells, order, links[..], head, tail);
      LinkedEnds(links[..], head, tail, order);
      values := [];
      var it := head;
      while it != NULL
        invariant |values| <= |order| && it == At(order, |values|)
        invariant values == Contents()[..|values|]
        decreases |order| - |values|
      {
        ghost var k := |values|;
        NeighborsAre(links[..], head, tail, order, k);
        ReadListed(hashOf, cells, order, links[..], head, tail, buckets[..], k);
        values := values + [buckets[it].slot.value];
        it := links[it].next;
      }
    }

    /** All entries from the last inserted to the first, by following the list from its tail. */
    method ValuesInReverse() returns (values: Entries<K, V>)
      requires Valid()
      ensures |values| == |Contents()|
      ensures forall i :: 0 <= i < |values| ==> values[i] == Contents()[|values| - 1 - i]
    {
      hide TableState, MaskIndex, Linked;
      ListStateParts(cells, order, links[..], head, tail);
      LinkedEnds(links[..], head, tail, order);
      values := [];
      var it := tail;
      while it != NULL
        invariant |values| <= |order| && it == At(order, |order| - 1 - |values|)
        invariant forall i :: 0 <= i < |values| ==> values[i] == Contents()[|order| - 1 - i]
        decreases |order| - |values|
      {
        ghost var k := |order| - 1 - |values|;
        NeighborsAre(links[..], head, tail, order, k);
        ReadListed(hashOf, cells, order, links[..], head, tail, buckets[..], k);
        values := values + [buckets[it].slot.value];
        it := links[it].previous;
      }
    }

    predicate ShouldGrow()
      reads this
      requires buckets.Length > 0
    {
      TooFull(size, buckets.Length - 1)
    }

    /** The next entry of a table that is being moved, which is not here yet. */
    method Reinsert(e: Entry<K, V>, ghost contents: Entries<K, V>, ghost k: nat)
      requires Valid() && HasRoom() && k < |contents| && contents[k] == e && DistinctKeys(contents)
      requires Contents() == contents[..k] && size == k
      modifies this`head, this`tail, this`size, this`cells, this`order, buckets, links
      ensures Valid() && Contents() == contents[..k + 1] && size == k + 1
    {
      hide TableState, ListState, EntriesOf, Linked, DistinctKeys, Valid;
      NotYetIn(contents, k);
      var result := WriteValue(e, false);
      assert contents[..k] + [e] == contents[..k + 1];
    }

    /** Moves all entries, in list order, to new buckets: a power of two of them, more than before. */
    method TryRehash(newCapacity: nat)
      requires Valid()
      modifies this
      ensures Valid() && Contents() == old(Contents()) && size == old(size)
      ensures fresh(buckets) && fresh(links)
      ensures buckets.Length - 1 == CapacityFor(Max(newCapacity, old(buckets.Length)))
    {
      hide TableState, MaskIndex, ListState, EntriesOf, Linked, IsPowerOfTwo, DistinctKeys, CapacityFor;
      var capacity := CapacityFor(Max(newCapacity, buckets.Length));
      assert capacity >= size;  // VERIFY
      TableStateParts(hashOf, buckets.Length - 1, buckets[..], cells);
      Walkable(hashOf, cells, order, links[..], head, tail, buckets[..]);
      ghost var contents, order0, n := Contents(), order, size;
      var oldBuckets, oldLinks, it := buckets, links, head;
      MakeEmpty(capacity);
      ghost var k: nat := 0;
      while it != NULL
        invariant k <= n && it == At(order0, k) && fresh(buckets) && fresh(links)
        invariant buckets.Length == capacity + 1
        invariant Valid() && size == k && Contents() == contents[..k]
        decreases n - k
      {
        assert order0[k] == it;
        Reinsert(oldBuckets[it].slot.value, contents, k);
        it := oldLinks[it].next;
        k := k + 1;
      }
      assert contents[..n] == contents;
    }

    method MakeEmpty(capacity: nat)
      requires IsPowerOfTwo(capacity) && capacity > 0
      modifies this
      ensures Valid() && Contents() == [] && size == 0
      ensures fresh(buckets) && fresh(links) && buckets.Length == capacity + 1
    {
      hide IsPowerOfTwo, MaskIndex;
      var none: Bucket<K, V> := Bucket(FREE, 0, None);
      buckets := new Bucket<K, V>[capacity + 1](_ => none);
      links := new Link[capacity + 1](_ => Link(NULL, NULL));
      head, tail, size := NULL, NULL, 0;
      cells, order := seq(capacity + 1, _ => None), [];
      HomesInRange(hashOf, capacity);
    }

    /** Sets an entry, growing first when the table is too full. */
    method Set(e: Entry<K, V>, replace: bool) returns (result: HashSetResult)
      requires Valid()
      modifies this, buckets, links
      ensures Valid()
      ensures IsSet(old(Contents()), e, replace, Contents())
      ensures result == if !Contains(old(Contents()), e.key) then InsertedNewEntry
                        else if replace then ReplacedExistingEntry else KeptExistingEntry
      ensures buckets == old(buckets) || fresh(buckets)
      ensures links == old(links) || fresh(links)
      ensures buckets.Length - 1 == NewCapacity(old(size), old(buckets.Length) - 1)
      ensures var capacity := old(buckets.Length) - 1;
              var wanted := Max(Max(2 * capacity, GROW_CAPACITY_AT_LEAST), capacity + 1);
              if (old(size) + 1) * 100 < capacity * GROW_AT_LOAD_FACTOR_PERCENT then buckets.Length - 1 == capacity
              else IsPowerOfTwo(buckets.Length - 1) && wanted <= buckets.Length - 1 < 2 * wanted
      ensures size * 100 < (buckets.Length - 1) * GROW_AT_LOAD_FACTOR_PERCENT
    {
      hide TableState, MaskIndex, ListState, EntriesOf, Contains, IsSet, CapacityFor;
      if ShouldGrow() {
        TryRehash(Max((buckets.Length - 1) * 2, GROW_CAPACITY_AT_LEAST));
      }
      result := WriteValue(e, replace);
    }

    /** One operation of a run. */
    method Execute(op: Operation<K, V>)
      requires Valid()
      modifies this, buckets, links
      ensures Valid() && IsStep(old(Contents()), op, Contents())
      ensures buckets == old(buckets) || fresh(buckets)
      ensures links == old(links) || fresh(links)
    {
      hide IsSet, IsRemoved, Rejected, TableState, ListState, EntriesOf;
      match op {
        case SetEntry(e, replace) =>
          var result := Set(e, replace);
        case RemoveKey(key) =>
          var removed := Remove(key);
        case RemoveMatching(matches) =>
          var removed := RemoveAllMatching(matches);
        case Rehash(capacity) =>
          TryRehash(capacity);
      }
    }

    /** Any run of operations does to an empty table what it does to a plain map, with the keys in order of insertion. */
    method Run(ops: seq<Operation<K, V>>)
      requires Valid() && Contents() == []
      modifies this, buckets, links
      ensures Valid() && Shows(AfterAll(ops), Contents())
    {
      hide IsStep, Shows, Before, After, TableState, ListState, EntriesOf;
      NothingShown<K, V>();
      assert ops[..0] == [];
      for i := 0 to |ops|
        invariant Valid() && Shows(AfterAll(ops[..i]), Contents()) && Before(AfterAll(ops[..i]), i)
        invariant (buckets == old(buckets) || fresh(buckets)) && (links == old(links) || fresh(links))
      {
        ghost var before := Contents();
        Execute(ops[i]);
        StepShows(AfterAll(ops[..i]), before, ops[i], Contents(), i);
        assert ops[..i + 1][..i] == ops[..i];
      }
      assert ops[..|ops|] == ops;
    }
  }

  lemma NothingShown<K, V>()
    ensures Shows<K, V>(map[], []) && Before<K, V>(map[], 0)
  {}

  function CeilLog2(n: nat): (e: nat)
    ensures n <= Pow(2, e) && (n > 0 ==> Pow(2, e) < 2 * n)
  {
    if n <= 1 then 0 else FloorLog2(n - 1) + 1
  }

  /** Whether one more entry takes a table to its load factor. */
  predicate TooFull(size: nat, capacity: nat) {
    (size + 1) * 100 >= capacity * GROW_AT_LOAD_FACTOR_PERCENT
  }

  /** The capacity after an entry has been set. */
  function NewCapacity(size: nat, capacity: nat): nat {
    if TooFull(size, capacity) then CapacityFor(Max(Max(capacity * 2, GROW_CAPACITY_AT_LEAST), capacity + 1)) else capacity
  }

  /** The least power of two that is not below n: half of it is. */
  function CapacityFor(n: nat): (cap: nat)
    ensures cap >= n && cap > 0 && IsPowerOfTwo(cap) && (n > 0 ==> cap < 2 * n)
  {
    PowPositive(2, CeilLog2(n));
    Pow(2, CeilLog2(n))
  }

  lemma KeysDistinct<K(!new), V>(hashOf: K -> nat, cells: Cells<K, V>, order: seq<nat>, links: Links, head: int, tail: int,
                                 buckets: seq<Bucket<K, V>>)
    requires |cells| > 0 && TableState(hashOf, |cells| - 1, buckets, cells) && ListState(cells, order, links, head, tail)
    ensures DistinctKeys(EntriesOf(cells, order))
  {
    hide Linked, MaskIndex;
    ListStateParts(cells, order, links, head, tail);
    var t := cells[..|cells| - 1];
    assert UniqueKeys(cells) by {
      forall i, j | 0 <= i < |cells| && 0 <= j < |cells| && cells[i].Some? && cells[j].Some?
                    && cells[i].value.key == cells[j].value.key
        ensures i == j
      {
        assert t[i] == cells[i] && t[j] == cells[j];
      }
    }
    SameUniqueness(cells, order);
  }

  /** Following the list of a table leads to all its entries, which have different keys. */
  lemma Walkable<K(!new), V>(hashOf: K -> nat, cells: Cells<K, V>, order: seq<nat>, links: Links, head: int, tail: int,
                             buckets: seq<Bucket<K, V>>)
    requires |cells| > 0 && TableState(hashOf, |cells| - 1, buckets, cells) && ListState(cells, order, links, head, tail)
    ensures DistinctKeys(EntriesOf(cells, order)) && head == At(order, 0) && |buckets| == |cells|
    ensures forall k :: 0 <= k < |order| ==>
              order[k] < |buckets| && order[k] < |links| &&
              buckets[order[k]].slot == Some(EntriesOf(cells, order)[k]) && links[order[k]].next == At(order, k + 1)
  {
    hide TableState, ListState, EntriesOf, Linked, DistinctKeys;
    TableStateParts(hashOf, |cells| - 1, buckets, cells);
    ListStateParts(cells, order, links, head, tail);
    KeysDistinct(hashOf, cells, order, links, head, tail, buckets);
    LinkedEnds(links, head, tail, order);
    forall k | 0 <= k < |order|
      ensures order[k] < |buckets| && order[k] < |links|
      ensures buckets[order[k]].slot == Some(EntriesOf(cells, order)[k]) && links[order[k]].next == At(order, k + 1)
    {
      NeighborsAre(links, head, tail, order, k);
      ReadListed(hashOf, cells, order, links, head, tail, buckets, k);
    }
  }

  lemma NotYetIn<K, V>(s: Entries<K, V>, k: nat)
    requires DistinctKeys(s) && k < |s|
    ensures !Contains(s[..k], s[k].key)
  {}

  lemma ReadListed<K(!new), V>(hashOf: K -> nat, cells: Cells<K, V>, order: seq<nat>, links: Links, head: int, tail: int,
                               buckets: seq<Bucket<K, V>>, k: nat)
    requires |cells| > 0 && TableState(hashOf, |cells| - 1, buckets, cells) && ListState(cells, order, links, head, tail)
    requires k < |order|
    ensures order[k] < |buckets| == |cells| && buckets[order[k]].slot == Some(EntriesOf(cells, order)[k])
  {
    hide Linked;
    var c := order[k];
    ReadBucket(hashOf, |cells| - 1, buckets, cells, c);
  }

  ghost predicate NoneMatchBelow<K, V>(cells: Cells<K, V>, i: nat, matches: Entry<K, V> -> bool)
    requires i <= |cells|
  {
    forall j :: 0 <= j < i && cells[j].Some? ==> !matches(cells[j].value)
  }

  /** Deleting at bucket i brings no unexamined entry to a bucket below i, even around the end. */
  lemma StillNoneMatch<K, V>(cap: nat, before: Cells<K, V>, i: nat, after: Cells<K, V>, matches: Entry<K, V> -> bool)
    requires i < cap && ShiftedBack(cap, before, i, after) && i <= |before| && i <= |after|
    requires NoneMatchBelow(before, i, matches)
    ensures NoneMatchBelow(after, i, matches)
  {
    forall j | 0 <= j < i && after[j].Some? ensures !matches(after[j].value) {
      assert Next(cap, j) == j + 1;
    }
  }

  lemma NoneMatch<K(!new), V>(hashOf: K -> nat, cells: Cells<K, V>, order: seq<nat>, links: Links, head: int, tail: int,
                              buckets: seq<Bucket<K, V>>, matches: Entry<K, V> -> bool)
    requires |cells| > 0 && TableState(hashOf, |cells| - 1, buckets, cells) && ListState(cells, order, links, head, tail)
    requires NoneMatchBelow(cells, |cells| - 1, matches)
    ensures Rejected(EntriesOf(cells, order), matches) == EntriesOf(cells, order)
  {
    hide Linked;
    var es := EntriesOf(cells, order);
    forall i | 0 <= i < |es| ensures !matches(es[i]) {
      assert cells[order[i]].Some?;
    }
    RejectedNone(es, matches);
  }

  lemma LookupStarts<K(!new), V>(home: K -> nat, cells: Cells<K, V>, key: K)
    requires HomesFit(|cells|, home)
    ensures home(key) < |cells| && Passed(home, cells, key, 0)
  {}

  lemma NothingInEmpty<K, V>(s: Entries<K, V>, key: K)
    requires s == []
    ensures !Contains(s, key)
  {}

  /** The lookup's verdict is right. */
  lemma LookupVerdict<K(!new), V>(hashOf: K -> nat, cells: Cells<K, V>, order: seq<nat>, links: Links, head: int, tail: int,
                                  buckets: seq<Bucket<K, V>>, key: K, found: bool, index: nat, m: nat)
    requires |cells| > 1 && TableState(hashOf, |cells| - 1, buckets, cells) && ListState(cells, order, links, head, tail)
    requires index < |cells| - 1
    requires found ==> cells[index].Some? && cells[index].value.key == key
    requires !found ==>
        m < |cells| - 1 && Passed(HomeIn(hashOf, |cells| - 1), cells[..|cells| - 1], key, m) &&
        index == Step(|cells| - 1, MaskIndex(|cells| - 1, hashOf(key)), m) && cells[index].None?
    ensures found <==> Contains(EntriesOf(cells, order), key)
  {
    hide Linked, MaskIndex;
    SameKeys(cells, order, key);
    if found {
      assert HasKey(cells, key);
    } else {
      PassedAbsent(HomeIn(hashOf, |cells| - 1), cells[..|cells| - 1], key, m);
      assert forall i :: 0 <= i < |cells| - 1 ==> cells[i] == cells[..|cells| - 1][i];
    }
  }

  lemma DisplacingParts<K(!new), V>(hashOf: K -> nat, cap: nat, buckets: seq<Bucket<K, V>>, cells: Cells<K, V>,
                                    full: Cells<K, V>, index: nat, e: Entry<K, V>, x: Entry<K, V>, j: nat, probe: int)
    requires Displacing(hashOf, cap, buckets, cells, full, index, e, x, j, probe)
    ensures |buckets| == |cells| == cap + 1 && |full| == cap && index < cap && j < cap && IsPowerOfTwo(cap) && probe >= 0
  {}

  lemma DisplacingBucket<K(!new), V>(hashOf: K -> nat, cap: nat, buckets: seq<Bucket<K, V>>, cells: Cells<K, V>,
                                     full: Cells<K, V>, index: nat, e: Entry<K, V>, x: Entry<K, V>, j: nat, probe: int, n: nat)
    requires Displacing(hashOf, cap, buckets, cells, full, index, e, x, j, probe) && n < cap && n != index
    ensures |buckets| == |cells| == cap + 1 && |full| == cap && cells[cap] == Some(x) && cells[n] == full[n]
    ensures buckets[n].state == FREE <==> full[n].None?
    ensures full[n].Some? ==>
        buckets[n].slot == full[n] &&
        UsedBucketProbeLength(hashOf, cap, buckets[n], n) == Probe(HomeIn(hashOf, cap), full, n)
  {
    ReadBucket(hashOf, cap, buckets, cells, n);
  }

  lemma DistanceNext(cap: nat, s: nat, i: nat, f: nat)
    requires s < cap && i < cap && f < cap && Distance(cap, s, i) < Distance(cap, s, f)
    ensures Distance(cap, s, Next(cap, i)) == Distance(cap, s, i) + 1 && Next(cap, i) != s
    ensures Distance(cap, s, Next(cap, i)) == Distance(cap, s, f) ==> Next(cap, i) == f
  {}

  lemma DistanceOfStep(cap: nat, h: nat, m: nat)
    requires h < cap && m < cap
    ensures Distance(cap, h, Step(cap, h, m)) == m
  {}

  lemma NothingShifted<K, V>(cap: nat, before: Cells<K, V>, i: nat)
    requires i < cap <= |before|
    ensures ShiftedBack(cap, before, i, before[i := None]) && UntouchedBeyond(cap, before, i, i, before[i := None])
  {}

  lemma UntouchedFree<K, V>(cap: nat, before: Cells<K, V>, i: nat, hole: nat, after: Cells<K, V>, free: nat)
    requires i < cap && hole < cap && free < cap && |before| >= cap && |after| >= cap
    requires UntouchedBeyond(cap, before, i, hole, after) && Distance(cap, i, hole) < Distance(cap, i, free)
    requires before[free].None?
    ensures after[free].None?
  {}

  lemma FreeProbe<K, V>(hashOf: K -> nat, cap: nat, cells: Cells<K, V>, i: nat)
    requires i < cap <= |cells|
    ensures cells[i].None? ==> Probe(HomeIn(hashOf, cap), cells[..cap], i) <= 0
  {}

  lemma TentativeIndex<K(!new), V>(hashOf: K -> nat, cap: nat, buckets: seq<Bucket<K, V>>, cells: Cells<K, V>,
                                   index: nat, probe: nat, e: Entry<K, V>)
    requires Tentative(hashOf, cap, buckets, cells, index, probe, e)
    ensures |buckets| == |cells| == cap + 1 && index < cap && cells[index].None?
  {}

  /** What the reserved bucket holds does not matter yet. */
  lemma TentativeAny<K(!new), V>(hashOf: K -> nat, cap: nat, buckets: seq<Bucket<K, V>>, cells: Cells<K, V>,
                                 index: nat, probe: nat, e: Entry<K, V>, b: Bucket<K, V>)
    requires Tentative(hashOf, cap, buckets, cells, index, probe, e)
    ensures |buckets| == |cells| == cap + 1 && index < cap && cells[index].None?
    ensures Tentative(hashOf, cap, buckets[index := b], cells, index, probe, e)
  {
    var bs := buckets[index := b];
    forall i | 0 <= i < cap && i != index ensures RepresentsAt(hashOf, cap, bs, cells, i) {
      assert RepresentsAt(hashOf, cap, buckets, cells, i);
    }
  }

  /** The probe's verdict is right. */
  lemma PresenceByProbe<K(!new), V>(hashOf: K -> nat, cells: Cells<K, V>, order: seq<nat>, links: Links, head: int, tail: int,
                                    buckets: seq<Bucket<K, V>>, key: K, found: bool, index: nat, m: nat)
    requires |cells| > 1 && TableState(hashOf, |cells| - 1, buckets, cells) && ListState(cells, order, links, head, tail)
    requires index < |cells| - 1
    requires found ==> cells[index].Some? && cells[index].value.key == key
    requires !found ==>
        m < |cells| - 1 && Walked(HomeIn(hashOf, |cells| - 1), cells[..|cells| - 1], key, m) &&
        index == Step(|cells| - 1, MaskIndex(|cells| - 1, hashOf(key)), m) &&
        Probe(HomeIn(hashOf, |cells| - 1), cells[..|cells| - 1], index) < m
    ensures found <==> Contains(EntriesOf(cells, order), key)
  {
    hide Linked, MaskIndex;
    SameKeys(cells, order, key);
    if found {
      assert HasKey(cells, key);
    } else {
      WalkedAbsent(HomeIn(hashOf, |cells| - 1), cells[..|cells| - 1], key, m);
      assert forall i :: 0 <= i < |cells| - 1 ==> cells[i] == cells[..|cells| - 1][i];
    }
  }

  lemma EntryPosition<K, V>(cells: Cells<K, V>, order: seq<nat>, links: Links, head: int, tail: int, c: nat) returns (k: nat)
    requires ListState(cells, order, links, head, tail) && c < |cells| && cells[c].Some?
    ensures k < |order| && order[k] == c && EntriesOf(cells, order)[k] == cells[c].value
  {
    hide Linked;
    k := PositionOf(cells, order, c);
  }

  /** Overwriting an entry by one with the same key keeps the table and the list. */
  lemma ReplacedTable<K(!new), V>(hashOf: K -> nat, cap: nat, buckets: seq<Bucket<K, V>>, cells: Cells<K, V>, order: seq<nat>,
                                  links: Links, head: int, tail: int, k: nat, e: Entry<K, V>)
    requires TableState(hashOf, cap, buckets, cells) && ListState(cells, order, links, head, tail)
    requires k < |order| && order[k] < cap && EntriesOf(cells, order)[k].key == e.key
    ensures |buckets| == |cells| == cap + 1
    ensures var c := order[k];
            TableState(hashOf, cap, buckets[c := buckets[c].(slot := Some(e))], cells[c := Some(e)]) &&
            ListState(cells[c := Some(e)], order, links, head, tail) &&
            EntriesOf(cells[c := Some(e)], order) == EntriesOf(cells, order)[k := e]
  {
    hide Linked, MaskIndex;
    ListStateParts(cells, order, links, head, tail);
    ReplacedListed(cells, order, k, e);
    var c := order[k];
    var bs, cs := buckets[c := buckets[c].(slot := Some(e))], cells[c := Some(e)];
    forall i | 0 <= i < cap ensures RepresentsAt(hashOf, cap, bs, cs, i) {
      assert RepresentsAt(hashOf, cap, buckets, cells, i);
    }
    var home, t, t' := HomeIn(hashOf, cap), cells[..cap], cs[..cap];
    assert forall i :: 0 <= i < cap ==> Probe(home, t', i) == Probe(home, t, i);
  }

  /** A bucket outside the list has no links. */
  lemma ClearedAlready<K, V>(cells: Cells<K, V>, order: seq<nat>, links: Links, head: int, tail: int, c: nat)
    requires ListState(cells, order, links, head, tail) && c < |cells| && cells[c].None?
    ensures |links| == |cells| && links[c] == Link(NULL, NULL)
  {
    Unlinked(links, head, tail, order, c);
  }

  lemma WalkStarts<K(!new), V>(home: K -> nat, cells: Cells<K, V>, key: K)
    requires HomesFit(|cells|, home)
    ensures home(key) < |cells| && Walked(home, cells, key, 0)
  {}
}
