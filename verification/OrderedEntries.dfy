/** What an ordered hash table means: its entries, by key, in the order the keys were first inserted. */
module OrderedEntries {
  import opened Basics
  import opened RobinHood
  import opened BucketLinks

  type Entries<K, V> = seq<Entry<K, V>>

  ghost predicate DistinctKeys<K, V>(s: Entries<K, V>) {
    forall i, j :: 0 <= i < |s| && 0 <= j < |s| && s[i].key == s[j].key ==> i == j
  }

  ghost predicate Contains<K, V>(s: Entries<K, V>, key: K) {
    exists i :: 0 <= i < |s| && s[i].key == key
  }

  /** Setting an entry: in place of the one with its key, if there is one, and last otherwise. */
  ghost predicate IsSet<K, V>(s: Entries<K, V>, e: Entry<K, V>, replace: bool, r: Entries<K, V>) {
    if Contains(s, e.key) then
      exists i :: 0 <= i < |s| && s[i].key == e.key && r == if replace then s[i := e] else s
    else
      r == s + [e]
  }

  /** Removing a key: the other entries stay in order. */
  ghost predicate IsRemoved<K, V>(s: Entries<K, V>, key: K, r: Entries<K, V>) {
    if Contains(s, key) then
      exists i :: 0 <= i < |s| && s[i].key == key && r == s[..i] + s[i + 1..]
    else
      r == s
  }

  /** The entries that do not satisfy the predicate, in order. */
  function Rejected<K, V>(s: Entries<K, V>, matches: Entry<K, V> -> bool): Entries<K, V> {
    if s == [] then []
    else if matches(s[0]) then Rejected(s[1..], matches)
    else [s[0]] + Rejected(s[1..], matches)
  }

  lemma {:induction false} RejectedConcat<K, V>(s: Entries<K, V>, t: Entries<K, V>, matches: Entry<K, V> -> bool)
    ensures Rejected(s + t, matches) == Rejected(s, matches) + Rejected(t, matches)
  {
    if s == [] {
      assert s + t == t;
    } else {
      assert (s + t)[1..] == s[1..] + t;
      RejectedConcat(s[1..], t, matches);
    }
  }

  /** Taking out an entry that matches does not change what is left in the end. */
  lemma RejectedWithout<K, V>(s: Entries<K, V>, i: nat, matches: Entry<K, V> -> bool)
    requires i < |s| && matches(s[i])
    ensures Rejected(s[..i] + s[i + 1..], matches) == Rejected(s, matches)
  {
    hide Rejected;
    var a, c := s[..i], s[i + 1..];
    RejectedConcat(a, c, matches);
    assert s == a + ([s[i]] + c);
    RejectedConcat(a, [s[i]] + c, matches);
    RejectedCons(s[i], c, matches);
  }

  lemma RejectedCons<K, V>(e: Entry<K, V>, t: Entries<K, V>, matches: Entry<K, V> -> bool)
    ensures Rejected([e] + t, matches) == (if matches(e) then [] else [e]) + Rejected(t, matches)
  {
    assert ([e] + t)[1..] == t;
  }

  lemma {:induction false} RejectedNone<K, V>(s: Entries<K, V>, matches: Entry<K, V> -> bool)
    requires forall i :: 0 <= i < |s| ==> !matches(s[i])
    ensures Rejected(s, matches) == s
  {
    if s != [] {
      var rest := s[1..];
      assert forall i :: 0 <= i < |rest| ==> rest[i] == s[i + 1];
      assert s == [s[0]] + rest;
      RejectedNone(rest, matches);
    }
  }

  // ----- The entries of a table's cells, in list order -----

  /** order visits exactly the occupied cells. */
  ghost predicate Listed<K, V>(cells: Cells<K, V>, order: seq<nat>) {
    (forall k :: 0 <= k < |order| ==> order[k] < |cells| && cells[order[k]].Some?) &&
    forall c :: 0 <= c < |cells| && cells[c].Some? ==> c in order
  }

  /** The entries in list order. */
  function EntriesOf<K, V>(cells: Cells<K, V>, order: seq<nat>): (r: Entries<K, V>)
    requires forall k :: 0 <= k < |order| ==> order[k] < |cells| && cells[order[k]].Some?
    ensures |r| == |order|
    ensures forall k :: 0 <= k < |r| ==> r[k] == cells[order[k]].value
  {
    seq(|order|, k requires 0 <= k < |order| => cells[order[k]].value)
  }

  /** The cells after the entry of one cell moved to a free one. */
  function MoveEntry<K, V>(cells: Cells<K, V>, from: nat, to: nat): (r: Cells<K, V>)
    requires from < |cells| && to < |cells|
    ensures |r| == |cells|
  {
    cells[to := cells[from]][from := None]
  }

  lemma MovedListed<K, V>(cells: Cells<K, V>, order: seq<nat>, k: nat, to: nat)
    requires Listed(cells, order) && Distinct(order) && k < |order| && to < |cells| && cells[to].None?
    ensures to !in order && order[k] < |cells|
    ensures var cells' := MoveEntry(cells, order[k], to);
            Listed(cells', order[k := to]) && EntriesOf(cells', order[k := to]) == EntriesOf(cells, order)
  {
    var from, order' := order[k], order[k := to];
    var cells' := MoveEntry(cells, from, to);
    assert forall i :: 0 <= i < |order| && i != k ==> order[i] != from;
    forall c | 0 <= c < |cells'| && cells'[c].Some? ensures c in order' {
      if c == to {
        assert order'[k] == c;
      } else {
        var i :| 0 <= i < |order| && order[i] == c;
        assert order'[i] == c;
      }
    }
  }

  function SwapEntries<K, V>(cells: Cells<K, V>, a: nat, b: nat): (r: Cells<K, V>)
    requires a < |cells| && b < |cells|
    ensures |r| == |cells|
  {
    cells[a := cells[b]][b := cells[a]]
  }

  lemma SwappedListed<K, V>(cells: Cells<K, V>, order: seq<nat>, i: nat, j: nat)
    requires Listed(cells, order) && Distinct(order) && i < |order| && j < |order| && i != j
    ensures order[i] < |cells| && order[j] < |cells|
    ensures var cells' := SwapEntries(cells, order[i], order[j]);
            Listed(cells', SwapAt(order, i, j)) && EntriesOf(cells', SwapAt(order, i, j)) == EntriesOf(cells, order)
  {
    var a, b, order' := order[i], order[j], SwapAt(order, i, j);
    var cells' := SwapEntries(cells, a, b);
    assert forall k :: 0 <= k < |order| && k != i ==> order[k] != a;
    assert forall k :: 0 <= k < |order| && k != j ==> order[k] != b;
    forall c | 0 <= c < |cells'| && cells'[c].Some? ensures c in order' {
      var k :| 0 <= k < |order| && order[k] == c;
      assert order'[if k == i then j else if k == j then i else k] == c;
    }
  }

  lemma RemovedListed<K, V>(cells: Cells<K, V>, order: seq<nat>, k: nat)
    requires Listed(cells, order) && Distinct(order) && k < |order|
    ensures order[k] < |cells|
    ensures var cells' := cells[order[k] := None];
            Listed(cells', Without(order, k)) &&
            EntriesOf(cells', Without(order, k)) == EntriesOf(cells, order)[..k] + EntriesOf(cells, order)[k + 1..]
  {
    var order' := Without(order, k);
    var cells' := cells[order[k] := None];
    assert forall i :: 0 <= i < |order| && i != k ==> order[i] != order[k];
    forall c | 0 <= c < |cells'| && cells'[c].Some? ensures c in order' {
      var i :| 0 <= i < |order| && order[i] == c;
      assert order'[if i < k then i else i - 1] == c;
    }
  }

  lemma AppendedListed<K, V>(cells: Cells<K, V>, order: seq<nat>, c: nat, e: Entry<K, V>)
    requires Listed(cells, order) && c < |cells| && cells[c].None?
    ensures c !in order
    ensures Listed(cells[c := Some(e)], order + [c])
    ensures EntriesOf(cells[c := Some(e)], order + [c]) == EntriesOf(cells, order) + [e]
  {
    var order' := order + [c];
    forall x | 0 <= x < |cells| && cells[c := Some(e)][x].Some? ensures x in order' {
      if x == c {
        assert order'[|order|] == x;
      }
    }
  }

  lemma ReplacedListed<K, V>(cells: Cells<K, V>, order: seq<nat>, k: nat, e: Entry<K, V>)
    requires Listed(cells, order) && Distinct(order) && k < |order|
    ensures order[k] < |cells|
    ensures Listed(cells[order[k] := Some(e)], order)
    ensures EntriesOf(cells[order[k] := Some(e)], order) == EntriesOf(cells, order)[k := e]
  {
    assert forall i :: 0 <= i < |order| && i != k ==> order[i] != order[k];
  }

  /** A key is in the table exactly when it is among the entries. */
  lemma SameKeys<K, V>(cells: Cells<K, V>, order: seq<nat>, key: K)
    requires Listed(cells, order)
    ensures HasKey(cells, key) <==> Contains(EntriesOf(cells, order), key)
  {
    var es := EntriesOf(cells, order);
    if Contains(es, key) {
      var i :| 0 <= i < |es| && es[i].key == key;
      assert cells[order[i]].value.key == key;
    }
    if HasKey(cells, key) {
      var c :| 0 <= c < |cells| && cells[c].Some? && cells[c].value.key == key;
      var i :| 0 <= i < |order| && order[i] == c;
      assert es[i].key == key;
    }
  }

  lemma SameUniqueness<K, V>(cells: Cells<K, V>, order: seq<nat>)
    requires Listed(cells, order) && Distinct(order) && UniqueKeys(cells)
    ensures DistinctKeys(EntriesOf(cells, order))
  {
    var es := EntriesOf(cells, order);
    forall i, j | 0 <= i < |es| && 0 <= j < |es| && es[i].key == es[j].key ensures i == j {
      assert order[i] == order[j];
    }
  }

  // ----- A free cell -----

  /** Fewer distinct cells than there are leave one out. */
  lemma FreeCellExists<K, V>(cells: Cells<K, V>, order: seq<nat>, cap: nat) returns (free: nat)
    requires Listed(cells, order) && Distinct(order) && |order| < cap <= |cells|
    ensures free < cap && cells[free].None?
  {
    free := LeftOut(order, cap);
  }

  /** A number below n that the sequence does not contain. */
  lemma {:induction false} LeftOut(s: seq<nat>, n: nat) returns (free: nat)
    requires |s| < n
    ensures free < n && free !in s
    decreases n
  {
    if n - 1 !in s {
      free := n - 1;
    } else {
      var i :| 0 <= i < |s| && s[i] == n - 1;
      var rest := s[..i] + s[i + 1..];
      free := LeftOut(rest, n - 1);
      forall j | 0 <= j < |s| ensures s[j] != free {
        if j != i {
          assert rest[if j < i then j else j - 1] == s[j];
        }
      }
    }
  }

  // ----- Whole runs of operations -----

  datatype Operation<!K, !V> =
    | SetEntry(e: Entry<K, V>, replace: bool)
    | RemoveKey(key: K)
    | RemoveMatching(matches: Entry<K, V> -> bool)
    | Rehash(capacity: nat)

  ghost predicate IsStep<K, V>(s: Entries<K, V>, op: Operation<K, V>, r: Entries<K, V>) {
    match op
    case SetEntry(e, replace) => IsSet(s, e, replace, r)
    case RemoveKey(key) => IsRemoved(s, key, r)
    case RemoveMatching(matches) => r == Rejected(s, matches)
    case Rehash(_) => r == s
  }

  /** states are the contents of a table, empty at first, before and after each of the operations. */
  ghost predicate IsRun<K, V>(ops: seq<Operation<K, V>>, states: seq<Entries<K, V>>) {
    |states| == |ops| + 1 && states[0] == [] &&
    forall i :: 0 <= i < |ops| ==> IsStep(states[i], ops[i], states[i + 1])
  }

  /** The value of a key, and which operation inserted the key. */
  datatype Record<V> = Record(value: V, inserted: nat)

  /** What operation number n does to a plain map. */
  ghost function After<K, V>(m: map<K, Record<V>>, op: Operation<K, V>, n: nat): map<K, Record<V>> {
    match op
    case SetEntry(e, replace) =>
      if e.key !in m then m[e.key := Record(e.value, n)]
      else if replace then m[e.key := m[e.key].(value := e.value)]
      else m
    case RemoveKey(key) => m - {key}
    case RemoveMatching(matches) => map key | key in m && !matches(Entry(key, m[key].value)) :: m[key]
    case Rehash(_) => m
  }

  ghost function AfterAll<K, V>(ops: seq<Operation<K, V>>): map<K, Record<V>> {
    if ops == [] then map[] else After(AfterAll(ops[..|ops| - 1]), ops[|ops| - 1], |ops| - 1)
  }

  /** The entries are those of the map, in the order in which their keys were inserted. */
  ghost predicate Shows<K, V>(m: map<K, Record<V>>, s: Entries<K, V>) {
    AllIn(m, s) && (forall key :: key in m ==> Contains(s, key)) &&
    forall i, j :: 0 <= i < j < |s| ==> m[s[i].key].inserted < m[s[j].key].inserted
  }

  ghost predicate AllIn<K, V>(m: map<K, Record<V>>, s: Entries<K, V>) {
    forall i :: 0 <= i < |s| ==> s[i].key in m && m[s[i].key].value == s[i].value
  }

  ghost predicate Before<K, V>(m: map<K, Record<V>>, n: nat) {
    forall key :: key in m ==> m[key].inserted < n
  }

  lemma ShownAreDistinct<K, V>(m: map<K, Record<V>>, s: Entries<K, V>)
    requires Shows(m, s)
    ensures DistinctKeys(s)
  {
    forall i, j | 0 <= i < j < |s| ensures s[i].key != s[j].key {
      assert m[s[i].key].inserted < m[s[j].key].inserted;
    }
  }

  /** Every operation does to the entries what it does to the map. */
  lemma StepShows<K, V>(m: map<K, Record<V>>, s: Entries<K, V>, op: Operation<K, V>, r: Entries<K, V>, n: nat)
    requires Shows(m, s) && Before(m, n) && IsStep(s, op, r)
    ensures Shows(After(m, op, n), r) && Before(After(m, op, n), n + 1)
  {
    ShownAreDistinct(m, s);
    match op
    case SetEntry(e, replace) =>
      SetShows(m, s, e, replace, r, n);
    case RemoveKey(key) =>
      RemoveShows(m, s, key, r);
    case RemoveMatching(matches) =>
      RejectShows(m, s, matches);
    case Rehash(_) =>
  }

  /**
   After any run the table holds exactly the keys that were set and not removed since, with the values last stored,
   in the order of the operations that inserted them: overwriting keeps a key's place.
   */
  lemma {:induction false} RunKeepsInsertionOrder<K, V>(ops: seq<Operation<K, V>>, states: seq<Entries<K, V>>)
    requires IsRun(ops, states)
    ensures Shows(AfterAll(ops), states[|ops|]) && Before(AfterAll(ops), |ops|) && DistinctKeys(states[|ops|])
  {
    if ops != [] {
      var n := |ops| - 1;
      RunKeepsInsertionOrder(ops[..n], states[..n + 1]);
      assert IsStep(states[n], ops[n], states[n + 1]);
      StepShows(AfterAll(ops[..n]), states[n], ops[n], states[n + 1], n);
    }
    ShownAreDistinct(AfterAll(ops), states[|ops|]);
  }

  lemma SetShows<K, V>(m: map<K, Record<V>>, s: Entries<K, V>, e: Entry<K, V>, replace: bool, r: Entries<K, V>, n: nat)
    requires Shows(m, s) && Before(m, n) && DistinctKeys(s) && IsSet(s, e, replace, r)
    ensures var m' := After(m, SetEntry(e, replace), n); Shows(m', r) && Before(m', n + 1)
  {
    hide Shows;
    ShownKeys(m, s, e.key);
    if Contains(s, e.key) {
      var i :| 0 <= i < |s| && s[i].key == e.key && r == if replace then s[i := e] else s;
      if replace {
        OverwriteShows(m, s, i, e);
      }
    } else {
      AppendShows(m, s, e, n);
    }
  }

  lemma ShownKeys<K, V>(m: map<K, Record<V>>, s: Entries<K, V>, key: K)
    requires Shows(m, s)
    ensures Contains(s, key) <==> key in m
  {}

  lemma OverwriteShows<K, V>(m: map<K, Record<V>>, s: Entries<K, V>, i: nat, e: Entry<K, V>)
    requires Shows(m, s) && DistinctKeys(s) && i < |s| && s[i].key == e.key
    ensures e.key in m && Shows(m[e.key := m[e.key].(value := e.value)], s[i := e])
  {
    hide Contains;
    var m', r := m[e.key := m[e.key].(value := e.value)], s[i := e];
    forall j | 0 <= j < |s|
      ensures r[j].key == s[j].key && s[j].key in m && m'[s[j].key].inserted == m[s[j].key].inserted
    {
    }
    assert AllIn(m', r);
    forall key | key in m' ensures Contains(r, key) {
      SameKeysContain(s, r, key);
    }
  }

  lemma SameKeysContain<K, V>(s: Entries<K, V>, r: Entries<K, V>, key: K)
    requires |s| == |r| && forall j :: 0 <= j < |s| ==> r[j].key == s[j].key
    ensures Contains(r, key) <==> Contains(s, key)
  {
    if Contains(s, key) {
      var j :| 0 <= j < |s| && s[j].key == key;
      assert r[j].key == key;
    }
  }

  lemma AppendShows<K, V>(m: map<K, Record<V>>, s: Entries<K, V>, e: Entry<K, V>, n: nat)
    requires Shows(m, s) && Before(m, n) && e.key !in m
    ensures Shows(m[e.key := Record(e.value, n)], s + [e]) && Before(m[e.key := Record(e.value, n)], n + 1)
  {
    hide Contains;
    var m', r := m[e.key := Record(e.value, n)], s + [e];
    forall j | 0 <= j < |s| ensures r[j] == s[j] && s[j].key != e.key && s[j].key in m && m'[s[j].key] == m[s[j].key] {
    }
    assert AllIn(m', r);
    forall key | key in m' ensures Contains(r, key) {
      ContainsAppended(s, e, key);
    }
  }

  lemma ContainsAppended<K, V>(s: Entries<K, V>, e: Entry<K, V>, key: K)
    ensures Contains(s + [e], key) <==> key == e.key || Contains(s, key)
  {
    var r := s + [e];
    assert r[|s|] == e;
    if Contains(s, key) {
      var j :| 0 <= j < |s| && s[j].key == key;
      assert r[j].key == key;
    }
  }

  lemma RemoveShows<K, V>(m: map<K, Record<V>>, s: Entries<K, V>, key: K, r: Entries<K, V>)
    requires Shows(m, s) && DistinctKeys(s) && IsRemoved(s, key, r)
    ensures Shows(m - {key}, r)
  {
    hide Shows;
    ShownKeys(m, s, key);
    if Contains(s, key) {
      var k :| 0 <= k < |s| && s[k].key == key && r == s[..k] + s[k + 1..];
      WithoutShows(m, s, k);
    } else {
      assert m - {key} == m;
    }
  }

  lemma WithoutShows<K, V>(m: map<K, Record<V>>, s: Entries<K, V>, k: nat)
    requires Shows(m, s) && DistinctKeys(s) && k < |s|
    ensures Shows(m - {s[k].key}, s[..k] + s[k + 1..])
  {
    hide Contains;
    var m', r := m - {s[k].key}, s[..k] + s[k + 1..];
    forall i | 0 <= i < |r| ensures r[i] == s[if i < k then i else i + 1] && r[i].key in m' {
    }
    assert AllIn(m', r);
    forall key | key in m' ensures Contains(r, key) {
      assert Contains(s, key);
      ContainsWithout(s, k, key);
    }
  }

  lemma ContainsWithout<K, V>(s: Entries<K, V>, k: nat, key: K)
    requires k < |s| && Contains(s, key) && key != s[k].key
    ensures Contains(s[..k] + s[k + 1..], key)
  {
    var i :| 0 <= i < |s| && s[i].key == key;
    assert (s[..k] + s[k + 1..])[if i < k then i else i - 1].key == key;
  }

  lemma RejectShows<K, V>(m: map<K, Record<V>>, s: Entries<K, V>, matches: Entry<K, V> -> bool)
    requires Shows(m, s)
    ensures Shows(After(m, RemoveMatching(matches), 0), Rejected(s, matches))
  {
    hide Rejected;
    var m', r := After(m, RemoveMatching(matches), 0), Rejected(s, matches);
    forall i | 0 <= i < |r| ensures r[i].key in m' && m'[r[i].key].value == r[i].value {
      var k := RejectedFrom(s, matches, i);
      assert r[i] == Entry(r[i].key, r[i].value);
    }
    forall key | key in m' ensures Contains(r, key) {
      assert Contains(s, key);
      var k :| 0 <= k < |s| && s[k].key == key;
      assert s[k] == Entry(key, m[key].value);
      var i := RejectedKeeps(s, matches, k);
    }
    forall i, j | 0 <= i < j < |r| ensures m'[r[i].key].inserted < m'[r[j].key].inserted {
      var i', j' := RejectedPlaces(s, matches, i, j);
    }
  }

  /** What is left has come from some place, and does not match. */
  lemma {:induction false} RejectedFrom<K, V>(s: Entries<K, V>, matches: Entry<K, V> -> bool, i: nat) returns (k: nat)
    requires i < |Rejected(s, matches)|
    ensures k < |s| && s[k] == Rejected(s, matches)[i] && !matches(s[k])
  {
    if matches(s[0]) {
      k := RejectedFrom(s[1..], matches, i);
      k := k + 1;
    } else if i > 0 {
      k := RejectedFrom(s[1..], matches, i - 1);
      k := k + 1;
    } else {
      k := 0;
    }
  }

  /** What does not match is left. */
  lemma {:induction false} RejectedKeeps<K, V>(s: Entries<K, V>, matches: Entry<K, V> -> bool, k: nat) returns (i: nat)
    requires k < |s| && !matches(s[k])
    ensures i < |Rejected(s, matches)| && Rejected(s, matches)[i] == s[k]
  {
    if k == 0 {
      i := 0;
    } else {
      i := RejectedKeeps(s[1..], matches, k - 1);
      i := if matches(s[0]) then i else i + 1;
    }
  }

  /** What is left keeps its order. */
  lemma {:induction false} RejectedPlaces<K, V>(s: Entries<K, V>, matches: Entry<K, V> -> bool, i: nat, j: nat)
    returns (i': nat, j': nat)
    requires i < j < |Rejected(s, matches)|
    ensures i' < j' < |s| && s[i'] == Rejected(s, matches)[i] && s[j'] == Rejected(s, matches)[j]
  {
    if matches(s[0]) {
      i', j' := RejectedPlaces(s[1..], matches, i, j);
      i', j' := i' + 1, j' + 1;
    } else if i > 0 {
      i', j' := RejectedPlaces(s[1..], matches, i - 1, j - 1);
      i', j' := i' + 1, j' + 1;
    } else {
      i' := 0;
      j' := RejectedFrom(s[1..], matches, j - 1);
      j' := j' + 1;
    }
  }
}
