/**
 Substring search: a bit-parallel matcher for short needles, Knuth-Morris-Pratt over a list of chunks, and the
 dispatcher between them. All of them find the first occurrence.
 */
module MemMem {
  import opened Basics

  ghost predicate OccursAt(haystack: seq<Byte>, needle: seq<Byte>, k: int) {
    0 <= k && k + |needle| <= |haystack| && haystack[k..k + |needle|] == needle
  }

  /** The least offset at which the needle occurs, or nothing when it does not occur. */
  ghost predicate IsFirst(haystack: seq<Byte>, needle: seq<Byte>, r: Option<nat>) {
    match r
    case None => forall k :: !OccursAt(haystack, needle, k)
    case Some(at) => OccursAt(haystack, needle, at) && forall k :: k < at ==> !OccursAt(haystack, needle, k)
  }

  /** The answer is unique, so that all matchers agree. */
  lemma FirstUnique(haystack: seq<Byte>, needle: seq<Byte>, r: Option<nat>, r': Option<nat>)
    requires IsFirst(haystack, needle, r) && IsFirst(haystack, needle, r')
    ensures r == r'
  {}

  // ----- The bit-parallel matcher -----

  /** A word of 32 bits, the lowest first. */
  type Word = w: seq<bool> | |w| == 32 witness seq(32, _ => false)

  function Or(a: Word, b: Word): Word {
    seq(32, i requires 0 <= i < 32 => a[i] || b[i])
  }

  function ShiftedByOne(a: Word): Word {
    [false] + a[..31]
  }

  /** The first k bytes of the needle are the last k of the first i bytes of the haystack. */
  ghost predicate Matches(haystack: seq<Byte>, needle: seq<Byte>, i: nat, k: nat)
    requires i <= |haystack| && k <= |needle|
  {
    k <= i && haystack[i - k..i] == needle[..k]
  }

  lemma MatchesNext(haystack: seq<Byte>, needle: seq<Byte>, i: nat, k: nat)
    requires i < |haystack| && k < |needle|
    ensures Matches(haystack, needle, i + 1, k + 1) <==> Matches(haystack, needle, i, k) && haystack[i] == needle[k]
  {
    if k <= i {
      var a, b := haystack[i - k..i + 1], needle[..k + 1];
      assert a == haystack[i - k..i] + [haystack[i]] && b == needle[..k] + [needle[k]];
      assert a[..k] == haystack[i - k..i] && b[..k] == needle[..k] && a[k] == haystack[i] && b[k] == needle[k];
    }
  }

  /** For each byte a word whose bit k is clear exactly when the needle has that byte at k. */
  ghost predicate IsMaskTable(masks: seq<Word>, needle: seq<Byte>, n: nat) {
    |masks| == 256 && n <= |needle| &&
    forall b, k :: 0 <= b < 256 && 0 <= k < 32 ==> (!masks[b][k] <==> k < n && needle[k] == b)
  }

  /** Bit k of the state is clear exactly when the first k bytes of the needle match up to here. */
  ghost predicate IsState(lookup: Word, haystack: seq<Byte>, needle: seq<Byte>, i: nat) {
    i <= |haystack| && |needle| < 32 &&
    forall k :: 0 <= k <= |needle| ==> (!lookup[k] <==> Matches(haystack, needle, i, k))
  }

  lemma NextState(lookup: Word, masks: seq<Word>, haystack: seq<Byte>, needle: seq<Byte>, i: nat)
    requires IsState(lookup, haystack, needle, i) && IsMaskTable(masks, needle, |needle|) && i < |haystack|
    ensures IsState(ShiftedByOne(Or(lookup, masks[haystack[i]])), haystack, needle, i + 1)
  {
    var next := ShiftedByOne(Or(lookup, masks[haystack[i]]));
    forall k | 0 <= k <= |needle| ensures !next[k] <==> Matches(haystack, needle, i + 1, k) {
      if k > 0 {
        MatchesNext(haystack, needle, i, k - 1);
        assert next[k] == (lookup[k - 1] || masks[haystack[i]][k - 1]);
      }
    }
  }

  method NeedleMasks(needle: seq<Byte>) returns (masks: seq<Word>)
    requires |needle| < 32
    ensures IsMaskTable(masks, needle, |needle|)
  {
    masks := seq(256, _ => seq(32, _ => true));
    for i := 0 to |needle|
      invariant IsMaskTable(masks, needle, i)
    {
      var mask := masks[needle[i]];
      masks := masks[needle[i] := mask[i := false]];
    }
  }

  /** Meant for needles of 1 to 31 bytes; an empty needle is reported one byte late. */
  method BitapBitwise(haystack: seq<Byte>, needle: seq<Byte>) returns (r: Option<nat>)
    requires |needle| < 32
    ensures |needle| > 0 ==> IsFirst(haystack, needle, r)
    ensures |needle| == 0 ==> r == if |haystack| == 0 then None else Some(1)
  {
    var lookup: Word := [false] + seq(31, _ => true);
    var masks := NeedleMasks(needle);
    assert IsState(lookup, haystack, needle, 0);
    var i := 0;
    while i < |haystack|
      invariant 0 <= i <= |haystack| && IsState(lookup, haystack, needle, i)
      invariant |needle| > 0 ==> forall k :: k + |needle| <= i ==> !OccursAt(haystack, needle, k)
      invariant |needle| == 0 ==> i == 0
    {
      NextState(lookup, masks, haystack, needle, i);
      lookup := Or(lookup, masks[haystack[i]]);
      lookup := ShiftedByOne(lookup);
      assert needle[..|needle|] == needle;
      if !lookup[|needle|] {
        assert Matches(haystack, needle, i + 1, |needle|);
        assert OccursAt(haystack, needle, i - |needle| + 1);
        return Some(i - |needle| + 1);
      }
      assert !OccursAt(haystack, needle, i + 1 - |needle|);
      i := i + 1;
    }
    return None;
  }

  // ----- The failure table -----

  /** The first b bytes of the needle are the last b of its first k. */
  ghost predicate Border(needle: seq<Byte>, k: nat, b: int) {
    0 <= b < k <= |needle| && needle[..b] == needle[k - b..k]
  }

  /** The longest border of the first k bytes. */
  ghost predicate Longest(needle: seq<Byte>, k: nat, b: int) {
    Border(needle, k, b) && forall c :: b < c ==> !Border(needle, k, c)
  }

  /**
   Where to go on when byte k does not match: the longest border after which another byte is wanted, or -1 when
   there is none.
   */
  ghost predicate Fallback(needle: seq<Byte>, k: nat, f: int)
    requires k < |needle|
  {
    -1 <= f < k && (f >= 0 ==> Border(needle, k, f) && needle[f] != needle[k]) &&
    forall b :: f < b && Border(needle, k, b) ==> needle[b] == needle[k]
  }

  /** Borders of a prefix that are shorter than one of its borders are borders of that border. */
  lemma BorderOfBorder(needle: seq<Byte>, k: nat, b: int, c: int)
    requires Border(needle, k, b) && c < b
    ensures Border(needle, k, c) <==> Border(needle, b, c)
  {
    if 0 <= c {
      assert needle[k - b..k][b - c..] == needle[k - c..k];
      assert needle[..b][b - c..] == needle[b - c..b];
    }
  }

  lemma BorderNext(needle: seq<Byte>, k: nat, b: int)
    requires k < |needle| && 0 <= b
    ensures Border(needle, k + 1, b + 1) <==> Border(needle, k, b) && needle[b] == needle[k]
  {
    if b < k {
      var x, y := needle[..b + 1], needle[k - b..k + 1];
      assert x == needle[..b] + [needle[b]] && y == needle[k - b..k] + [needle[k]];
      assert x[..b] == needle[..b] && y[..b] == needle[k - b..k] && x[b] == needle[b] && y[b] == needle[k];
    }
  }

  lemma LongestNext(needle: seq<Byte>, k: nat, b: int)
    requires 0 < k < |needle| && -1 <= b
    requires b >= 0 ==> Border(needle, k, b) && needle[b] == needle[k]
    requires forall c :: b < c && Border(needle, k, c) ==> needle[c] != needle[k]
    ensures Longest(needle, k + 1, b + 1)
  {
    if b >= 0 {
      BorderNext(needle, k, b);
    } else {
      assert needle[..0] == needle[k + 1..k + 1];
    }
    var next := k + 1;
    forall c | b + 1 < c && Border(needle, next, c) ensures false {
      BorderNext(needle, k, c - 1);
    }
  }

  /** Falling back from a border whose next byte is wrong passes over wrong next bytes only. */
  lemma FallbackPasses(needle: seq<Byte>, k: nat, b: int, f: int)
    requires k < |needle| && Border(needle, k, b) && Fallback(needle, b, f) && needle[b] != needle[k]
    requires forall c :: b < c && Border(needle, k, c) ==> needle[c] != needle[k]
    ensures f >= 0 ==> Border(needle, k, f)
    ensures forall c :: f < c && Border(needle, k, c) ==> needle[c] != needle[k]
  {
    if f >= 0 {
      BorderOfBorder(needle, k, b, f);
    }
    forall c | f < c && Border(needle, k, c) ensures needle[c] != needle[k] {
      if c < b {
        BorderOfBorder(needle, k, b, c);
      }
    }
  }

  /** When the next bytes agree, the fallback of the longest border serves the longer prefix as well. */
  lemma FallbackShared(needle: seq<Byte>, k: nat, b: int, f: int)
    requires k < |needle| && Longest(needle, k, b) && Fallback(needle, b, f) && needle[b] == needle[k]
    ensures Fallback(needle, k, f)
  {
    if f >= 0 {
      BorderOfBorder(needle, k, b, f);
    }
    forall c | f < c && Border(needle, k, c) ensures needle[c] == needle[k] {
      if c < b {
        BorderOfBorder(needle, k, b, c);
      }
    }
  }

  lemma TableStart(needle: seq<Byte>)
    requires |needle| > 0
    ensures Fallback(needle, 0, -1) && (|needle| > 1 ==> Longest(needle, 1, 0))
  {
    if |needle| > 1 {
      assert needle[..0] == needle[1..1];
    }
  }

  lemma LongestIsShorter(needle: seq<Byte>, k: nat, b: int)
    requires Longest(needle, k, b)
    ensures 0 <= b < k
  {}

  lemma FallbackIsShorter(needle: seq<Byte>, k: nat, f: int)
    requires k < |needle| && Fallback(needle, k, f)
    ensures -1 <= f < k
  {}

  lemma FallbackHere(needle: seq<Byte>, k: nat, b: int)
    requires k < |needle| && Longest(needle, k, b) && needle[b] != needle[k]
    ensures Fallback(needle, k, b)
  {}

  lemma NextLonger(needle: seq<Byte>, k: nat, b: int)
    requires 0 < k < |needle| && Longest(needle, k, b) && needle[b] == needle[k]
    ensures Longest(needle, k + 1, b + 1)
  {
    LongestNext(needle, k, b);
  }

  /** Falls back until the next byte is the one at the position, or nothing is left. */
  method FallBack(needle: seq<Byte>, table: array<int>, position: nat, candidate0: int) returns (candidate: int)
    requires 0 < position < |needle| == table.Length && Longest(needle, position, candidate0)
    requires needle[candidate0] != needle[position]
    requires forall k :: 0 <= k < position ==> Fallback(needle, k, table[k])
    ensures -1 <= candidate < position && Longest(needle, position + 1, candidate + 1)
  {
    FallbackPasses(needle, position, candidate0, table[candidate0]);
    candidate := table[candidate0];
    while candidate >= 0 && needle[candidate] != needle[position]
      invariant -1 <= candidate < position && (candidate >= 0 ==> Border(needle, position, candidate))
      invariant forall c :: candidate < c && Border(needle, position, c) ==> needle[c] != needle[position]
      decreases candidate
    {
      FallbackPasses(needle, position, candidate, table[candidate]);
      candidate := table[candidate];
    }
    LongestNext(needle, position, candidate);
  }

  method PreparePartialTable(needle: seq<Byte>) returns (table: array<int>)
    requires |needle| > 0
    ensures fresh(table) && table.Length == |needle|
    ensures forall k :: 0 <= k < |needle| ==> Fallback(needle, k, table[k])
  {
    hide Longest, Fallback, Border;
    table := new int[|needle|];
    var position, candidate := 1, 0;
    table[0] := -1;
    TableStart(needle);
    while position < |needle|
      invariant 1 <= position <= |needle|
      invariant forall k :: 0 <= k < position ==> Fallback(needle, k, table[k])
      invariant position < |needle| ==> Longest(needle, position, candidate)
    {
      LongestIsShorter(needle, position, candidate);
      FallbackIsShorter(needle, candidate, table[candidate]);
      if needle[position] == needle[candidate] {
        FallbackShared(needle, position, candidate, table[candidate]);
        table[position] := table[candidate];
        NextLonger(needle, position, candidate);
      } else {
        FallbackHere(needle, position, candidate);
        table[position] := candidate;
        candidate := FallBack(needle, table, position, candidate);
      }
      position := position + 1;
      candidate := candidate + 1;
    }
  }

  // ----- The search over chunks -----

  function Joined(chunks: seq<seq<Byte>>): seq<Byte> {
    if chunks == [] then [] else chunks[0] + Joined(chunks[1..])
  }

  lemma {:induction false} JoinedSplit(chunks: seq<seq<Byte>>, c: nat)
    requires c <= |chunks|
    ensures Joined(chunks) == Joined(chunks[..c]) + Joined(chunks[c..])
  {
    if c == 0 {
      assert chunks[..0] == [] && chunks[0..] == chunks;
    } else {
      JoinedSplit(chunks[1..], c - 1);
      assert chunks[..c][1..] == chunks[1..][..c - 1] && chunks[c..] == chunks[1..][c - 1..];
      assert Joined(chunks[..c]) == chunks[0] + Joined(chunks[1..][..c - 1]);
    }
  }

  lemma JoinedAt(chunks: seq<seq<Byte>>, c: nat, i: nat)
    requires c < |chunks| && i < |chunks[c]|
    ensures |Joined(chunks[..c])| + i < |Joined(chunks)|
    ensures Joined(chunks)[|Joined(chunks[..c])| + i] == chunks[c][i]
  {
    JoinedSplit(chunks, c);
    assert chunks[c..][0] == chunks[c];
  }

  lemma JoinedMore(chunks: seq<seq<Byte>>, c: nat)
    requires c < |chunks|
    ensures |Joined(chunks[..c + 1])| == |Joined(chunks[..c])| + |chunks[c]|
  {
    JoinedSplit(chunks[..c + 1], c);
    assert chunks[..c + 1][..c] == chunks[..c] && chunks[..c + 1][c..] == [chunks[c]];
    assert Joined([chunks[c]]) == chunks[c] + Joined([]);
  }

  /** The first j bytes of the needle match up to i, and no occurrence starts earlier. */
  ghost predicate Searched(haystack: seq<Byte>, needle: seq<Byte>, i: nat, j: nat) {
    j <= i <= |haystack| && j < |needle| && Matches(haystack, needle, i, j) &&
    forall k :: k < i - j ==> !OccursAt(haystack, needle, k)
  }

  lemma OccurrenceMatches(haystack: seq<Byte>, needle: seq<Byte>, i: nat, b: nat)
    requires b < |needle| && b <= i < |haystack|
    ensures OccursAt(haystack, needle, i - b) ==> Matches(haystack, needle, i, b) && haystack[i] == needle[b]
  {
    if OccursAt(haystack, needle, i - b) {
      var w := haystack[i - b..i - b + |needle|];
      assert w[..b] == haystack[i - b..i] && w[b] == haystack[i];
    }
  }

  /** Two matches that end at the same place make the shorter one a border of the longer one. */
  lemma OverlapIsBorder(haystack: seq<Byte>, needle: seq<Byte>, i: nat, j: nat, b: nat)
    requires i <= |haystack| && b < j <= |needle| && Matches(haystack, needle, i, j)
    ensures Matches(haystack, needle, i, b) <==> Border(needle, j, b)
  {
    assert needle[..j][j - b..] == haystack[i - j..i][j - b..] == haystack[i - b..i];
    assert needle[..j][j - b..] == needle[j - b..j];
  }

  /** After a wrong byte no occurrence starts before the place where the fallback goes on. */
  lemma MismatchSkips(haystack: seq<Byte>, needle: seq<Byte>, i: nat, j: nat, f: int)
    requires Searched(haystack, needle, i, j) && i < |haystack| && haystack[i] != needle[j] && Fallback(needle, j, f)
    ensures f >= 0 ==> Searched(haystack, needle, i, f)
    ensures f < 0 ==> Searched(haystack, needle, i + 1, 0)
  {
    forall k | k < i - f ensures !OccursAt(haystack, needle, k) {
      if i - j <= k <= i {
        OccurrenceMatches(haystack, needle, i, i - k);
        if k > i - j {
          OverlapIsBorder(haystack, needle, i, j, i - k);
        }
      }
    }
    if f >= 0 {
      OverlapIsBorder(haystack, needle, i, j, f);
    } else {
      assert haystack[i + 1..i + 1] == needle[..0];
    }
  }

  lemma MatchAdvances(haystack: seq<Byte>, needle: seq<Byte>, i: nat, j: nat)
    requires Searched(haystack, needle, i, j) && i < |haystack| && haystack[i] == needle[j]
    ensures j + 1 < |needle| ==> Searched(haystack, needle, i + 1, j + 1)
    ensures j + 1 == |needle| ==> IsFirst(haystack, needle, Some(i - j))
  {
    MatchesNext(haystack, needle, i, j);
    assert needle[..|needle|] == needle;
  }

  /** Finds the first occurrence in the concatenation of the chunks. */
  method Memmem(chunks: seq<seq<Byte>>, needle: seq<Byte>) returns (r: Option<nat>)
    requires |needle| > 0
    ensures IsFirst(Joined(chunks), needle, r)
  {
    var table := PreparePartialTable(needle);
    var total, current, needleIndex, chunk := 0, 0, 0, 0;
    ghost var haystack := Joined(chunks);
    assert haystack[0..0] == needle[..0];
    while chunk < |chunks|
      invariant 0 <= chunk <= |chunks| && 0 <= needleIndex < |needle|
      invariant chunk < |chunks| ==> 0 <= current <= |chunks[chunk]|
      invariant chunk == |chunks| ==> current == 0
      invariant table.Length == |needle| && forall k :: 0 <= k < |needle| ==> Fallback(needle, k, table[k])
      invariant total == |Joined(chunks[..chunk])| + current && Searched(haystack, needle, total, needleIndex)
      decreases |chunks| - chunk, if chunk < |chunks| then |chunks[chunk]| - current else 0, needleIndex
    {
      if current >= |chunks[chunk]| {
        JoinedMore(chunks, chunk);
        current := 0;
        chunk := chunk + 1;
        continue;
      }
      JoinedAt(chunks, chunk, current);
      if needle[needleIndex] == chunks[chunk][current] {
        MatchAdvances(haystack, needle, total, needleIndex);
        needleIndex := needleIndex + 1;
        current := current + 1;
        total := total + 1;
        if needleIndex == |needle| {
          return Some(total - needleIndex);
        }
        continue;
      }
      MismatchSkips(haystack, needle, total, needleIndex, table[needleIndex]);
      needleIndex := table[needleIndex];
      if needleIndex < 0 {
        needleIndex := needleIndex + 1;
        current := current + 1;
        total := total + 1;
      }
    }
    assert chunks[..|chunks|] == chunks;
    return None;
  }

  // ----- The dispatcher -----

  method MemmemOptional(haystack: seq<Byte>, needle: seq<Byte>) returns (r: Option<nat>)
    ensures IsFirst(haystack, needle, r)
  {
    if |needle| == 0 {
      assert haystack[0..0] == needle;
      return Some(0);
    }
    if |haystack| < |needle| {
      return None;
    }
    if |haystack| == |needle| {
      assert haystack[0..|needle|] == haystack;
      if haystack == needle {
        return Some(0);
      }
      return None;
    }
    if |needle| < 32 {
      r := BitapBitwise(haystack, needle);
      return;
    }
    assert Joined([haystack]) == haystack + Joined([]) == haystack;
    r := Memmem([haystack], needle);
  }
}
