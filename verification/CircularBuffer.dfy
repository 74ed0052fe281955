/**
 The ring buffer with seekback: over any run of its operations it is a log of all bytes written, of which a
 suffix is unread and a longer suffix can still be sought back to.
 */
module CircularBuffers {
  import opened Basics
  import opened ByteLogs

  datatype Span = Span(start: nat, size: nat)

  datatype Match = Match(distance: nat, length: nat)

  /** A copy is refused, or ends the process at a failed check, or copies some bytes. */
  datatype CopyResult = Refused(message: string) | Stopped | Copied(length: nat)

  // ----- Places in the ring -----

  lemma Turn(i: nat, n: nat, capacity: nat)
    requires 0 < capacity && n <= capacity
    ensures (i + n) % capacity == if i % capacity + n < capacity then i % capacity + n else i % capacity + n - capacity
  {
    var q, r := i / capacity, i % capacity;
    assert i == q * capacity + r;
    if r + n < capacity {
      Remainder(i + n, q, r + n, capacity);
    } else {
      assert i + n == q * capacity + capacity + (r + n - capacity);
      assert (q + 1) * capacity == q * capacity + capacity;
      Remainder(i + n, q + 1, r + n - capacity, capacity);
    }
  }

  lemma Remainder(x: nat, q: nat, r: nat, capacity: nat)
    requires r < capacity && x == q * capacity + r
    ensures x % capacity == r
  {
    var q', r' := x / capacity, x % capacity;
    assert x == q' * capacity + r';
    Apart(q, r, q', r', capacity);
  }

  lemma Apart(q: int, r: nat, q': int, r': nat, capacity: nat)
    requires r < capacity && r' < capacity && q * capacity + r == q' * capacity + r'
    ensures r == r'
  {
    if q < q' {
      Scaled(q, q', capacity);
    } else if q' < q {
      Scaled(q', q, capacity);
    }
  }

  lemma Scaled(q: int, q': int, capacity: nat)
    requires q < q'
    ensures q * capacity + capacity <= q' * capacity
  {
    assert (q' - q - 1) * capacity >= 0;
    assert q' * capacity == q * capacity + capacity + (q' - q - 1) * capacity;
  }

  /** Going back from the place of i + used by way of the capacity added once. */
  lemma BackFrom(i: nat, used: nat, distance: nat, capacity: nat)
    requires 0 < capacity && distance <= capacity && distance <= i + used
    ensures (capacity + i % capacity + used - distance) % capacity == (i + used - distance) % capacity
  {
    var q := i / capacity;
    assert i == q * capacity + i % capacity;
    var x, y := capacity + i % capacity + used - distance, i + used - distance;
    var a, r := x / capacity, x % capacity;
    assert x == a * capacity + r;
    assert y + capacity == (a + q) * capacity + r by {
      assert (a + q) * capacity == a * capacity + q * capacity;
    }
    Remainder(y + capacity, a + q, r, capacity);
    Turn(y, capacity, capacity);
  }

  lemma HeadAfter(i: nat, n: nat, capacity: nat)
    requires 0 < capacity && n <= capacity
    ensures Slot(Slot(i, capacity) + n, capacity) == Slot(i + n, capacity)
  {
    Turn(i, n, capacity);
    Remainder(i % capacity, 0, i % capacity, capacity);
    Turn(i % capacity, n, capacity);
  }

  /** The place in the ring of byte number i of the log. */
  function Slot(i: nat, capacity: nat): (slot: nat)
    requires 0 < capacity
    ensures slot < capacity
  {
    i % capacity
  }

  /** The last `limit` bytes of the log stand in the ring, each at its index modulo the capacity. */
  ghost predicate Holds(ring: seq<Byte>, log: seq<Byte>, limit: nat) {
    0 < |ring| && limit <= |ring| && limit <= |log| &&
    forall i :: |log| - limit <= i < |log| ==> ring[i % |ring|] == log[i]
  }

  lemma SpliceAt(ring: seq<Byte>, at: nat, piece: seq<Byte>, k: nat)
    requires at + |piece| <= |ring| && k < |ring|
    ensures |Splice(ring, at, piece)| == |ring|
    ensures Splice(ring, at, piece)[k] == if at <= k < at + |piece| then piece[k - at] else ring[k]
  {}

  /** Bytes written behind the log overwrite only what falls out of the window of `capacity` bytes. */
  lemma AppendHolds(ring: seq<Byte>, log: seq<Byte>, limit: nat, piece: seq<Byte>)
    requires Holds(ring, log, limit) && limit == Min(|log|, |ring|)
    requires |log| % |ring| + |piece| <= |ring|
    ensures Holds(Splice(ring, |log| % |ring|, piece), log + piece, Min(limit + |piece|, |ring|))
    ensures Min(limit + |piece|, |ring|) == Min(|log + piece|, |ring|)
  {
    var cap, start := |ring|, |log| % |ring|;
    var log', ring' := log + piece, Splice(ring, start, piece);
    forall i | |log'| - Min(limit + |piece|, cap) <= i < |log'| ensures |ring'| == cap && ring'[i % cap] == log'[i] {
      SpliceAt(ring, start, piece, i % cap);
      if i >= |log| {
        Turn(|log|, i - |log|, cap);
      } else {
        AwayFromHead(|log|, i, |piece|, cap);
      }
    }
  }

  lemma AwayFromHead(length: nat, i: nat, n: nat, capacity: nat)
    requires 0 < capacity && length % capacity + n <= capacity && length + n - capacity <= i < length
    ensures !(length % capacity <= i % capacity < length % capacity + n)
  {
    Turn(i, length - i, capacity);
  }

  lemma Joined(s: seq<Byte>, from: nat, m: nat, n: nat)
    requires from + m + n <= |s|
    ensures s[from..from + m] + s[from + m..from + m + n] == s[from..from + m + n]
  {}

  // ----- Copying from the past, byte by byte -----

  /** Appends n bytes, each equal to the one `distance` places before it. */
  ghost function Repeated(log: seq<Byte>, distance: nat, n: nat): seq<Byte>
    requires 1 <= distance <= |log|
    decreases n
  {
    if n == 0 then log else Repeated(log + [log[|log| - distance]], distance, n - 1)
  }

  /** The bytes of such a copy are determined by the equation out[i] = out[i - distance]. */
  lemma {:induction false} RepeatedUnique(log: seq<Byte>, distance: nat, n: nat, s: seq<Byte>)
    requires 1 <= distance <= |log| && |s| == |log| + n && s[..|log|] == log && Periodic(s, |log|, distance)
    ensures Repeated(log, distance, n) == s
    decreases n
  {
    if n > 0 {
      var log' := log + [log[|log| - distance]];
      assert s[|log|] == s[|log| - distance] == log[|log| - distance];
      assert s[..|log'|] == log';
      RepeatedUnique(log', distance, n - 1, s);
    } else {
      assert s == s[..|log|];
    }
  }

  lemma {:induction false} RepeatedIsPeriodic(log: seq<Byte>, distance: nat, n: nat)
    requires 1 <= distance <= |log|
    ensures var s := Repeated(log, distance, n);
            |s| == |log| + n && s[..|log|] == log && Periodic(s, |log|, distance)
    decreases n
  {
    if n > 0 {
      var log' := log + [log[|log| - distance]];
      RepeatedIsPeriodic(log', distance, n - 1);
      var s := Repeated(log', distance, n - 1);
      assert s[|log|] == log'[|log|];
      assert s[|log| - distance] == log'[|log| - distance];
      assert s[..|log|] == log'[..|log|] == log;
    }
  }

  lemma {:induction false} PeriodicBack(s: seq<Byte>, from: nat, distance: nat, i: nat, q: nat)
    requires Periodic(s, from, distance) && i < |s|
    requires from + q * distance <= i + distance
    ensures q * distance <= i && s[i] == s[i - q * distance]
    decreases q
  {
    if q > 0 {
      assert q * distance == (q - 1) * distance + distance;
      PeriodicBack(s, from, distance, i, q - 1);
      assert i - (q - 1) * distance >= from;
    }
  }

  /** In a sequence with this period, a piece copied from a multiple of the distance continues the period. */
  lemma {:induction false} CopyKeepsPeriod(s: seq<Byte>, from: nat, distance: nat, q: nat, far: nat, n: nat)
    requires Periodic(s, from, distance) && from <= |s| && far == q * distance && 1 <= q
    requires far <= |s| && from <= |s| - far + distance && n <= far
    ensures Periodic(s + s[|s| - far..|s| - far + n], from, distance)
    decreases n
  {
    var piece := s[|s| - far..|s| - far + n];
    var s' := s + piece;
    if n == 0 {
      assert s' == s;
    } else {
      CopyKeepsPeriod(s, from, distance, q, far, n - 1);
      var before := s + s[|s| - far..|s| - far + (n - 1)];
      assert s'[..|s'| - 1] == before;
      var i := |s'| - 1;
      assert s'[i] == s[i - far];
      LastByte(s, from, distance, q, far, n);
      forall j | from <= j < |s'| ensures s'[j] == s'[j - distance] {
        if j < i {
          assert before[j] == before[j - distance];
          assert s'[j] == before[j] && s'[j - distance] == before[j - distance];
        }
      }
    }
  }

  lemma LastByte(s: seq<Byte>, from: nat, distance: nat, q: nat, far: nat, n: nat)
    requires Periodic(s, from, distance) && from <= |s| && far == q * distance && 1 <= q
    requires far <= |s| && from <= |s| - far + distance && 1 <= n <= far
    ensures distance <= |s| + n - 1
    ensures var s', i := s + s[|s| - far..|s| - far + n], |s| + n - 1;
            s[i - far] == s'[i - distance]
  {
    var s', i := s + s[|s| - far..|s| - far + n], |s| + n - 1;
    if i - distance < |s| {
      assert far == (q - 1) * distance + distance;
      PeriodicBack(s, from, distance, i - distance, q - 1);
    } else {
      assert s'[i - distance] == s[i - distance - far];
      assert i - far >= from;
    }
  }

  lemma Doubled(q: nat, distance: nat)
    ensures (q * 2) * distance == (q * distance) * 2
  {}

  lemma PeriodicStart(log: seq<Byte>, distance: nat)
    requires 1 <= distance <= |log|
    ensures Periodic(log, |log|, distance)
  {}

  // ----- What the ring holds -----

  lemma WindowPiece(ring: seq<Byte>, log: seq<Byte>, limit: nat, from: nat, n: nat)
    requires Holds(ring, log, limit) && |log| - limit <= from && from + n <= |log| && Slot(from, |ring|) + n <= |ring|
    ensures ring[Slot(from, |ring|)..Slot(from, |ring|) + n] == log[from..from + n]
  {
    var start := Slot(from, |ring|);
    var a, b := ring[start..start + n], log[from..from + n];
    forall k | 0 <= k < n ensures a[k] == b[k] {
      Turn(from, k, |ring|);
      assert log[from + k] == ring[(from + k) % |ring|];
    }
  }

  // ----- How far the distance doubles -----

  /** The largest one of the distance, its double, and so on that the capacity holds. */
  function LargestDoubling(distance: nat, capacity: nat): (far: nat)
    requires 1 <= distance <= capacity
    ensures distance <= far <= capacity < 2 * far
    decreases capacity - distance
  {
    if 2 * distance <= capacity then LargestDoubling(2 * distance, capacity) else distance
  }

  /** The bytes that `far` bytes from a place in the ring on lose at the end of the ring. */
  function CutShort(slot: nat, far: nat, capacity: nat): nat
    requires slot < capacity
  {
    if slot + far > capacity then capacity - slot else 0
  }

  /** The bytes written when the distance has doubled as often as the capacity allows, and once more. */
  function WrittenBefore(distance: nat, slot: nat, capacity: nat): nat
    requires 1 <= distance <= capacity && slot < capacity
  {
    var far := LargestDoubling(distance, capacity);
    2 * far - distance + CutShort(slot, far, capacity)
  }

  /** There is room for more than these bytes, and as many are asked for as make the distance double once more. */
  predicate Overshoots(distance: nat, length: nat, emptySpace: nat, slot: nat, capacity: nat)
    requires 1 <= distance <= capacity && slot < capacity
  {
    var written := WrittenBefore(distance, slot, capacity);
    emptySpace > written && length > written + LargestDoubling(distance, capacity)
  }

  /** What fits never overshoots. */
  lemma FittingIsSafe(distance: nat, length: nat, emptySpace: nat, slot: nat, capacity: nat)
    requires 1 <= distance <= capacity && slot < capacity && length <= emptySpace <= capacity
    ensures !Overshoots(distance, length, emptySpace, slot, capacity)
  {
    hide LargestDoubling;
  }

  /** Three bytes of room, from two bytes back: the distance doubles to four while there is room for one more byte. */
  lemma FiveOvershootThree()
    ensures Overshoots(2, 5, 3, 1, 3) && !Overshoots(2, 4, 3, 1, 3)
  {}

  /**
   The distance still doubles, once a piece may have been cut short at the end of the ring; or it has doubled beyond
   the capacity; or it will not double any more.
   */
  datatype Phase = Growing(cut: bool) | Past | Tail

  ghost predicate InPhase(p: Phase, distance: nat, length: nat, emptySpace: nat, slot: nat, capacity: nat, far: nat, written: nat)
    requires 1 <= distance <= capacity && slot < capacity
  {
    written <= length && written <= emptySpace && distance <= far &&
    match p
    case Growing(cut) =>
      far <= capacity && LargestDoubling(far, capacity) == LargestDoubling(distance, capacity) &&
      (cut ==> slot + far > capacity) && written == far - distance + if cut then capacity - slot else 0
    case Past =>
      far > capacity && written == WrittenBefore(distance, slot, capacity) &&
      length > written + LargestDoubling(distance, capacity)
    case Tail =>
      far <= capacity && !Overshoots(distance, length, emptySpace, slot, capacity) &&
      (length - written <= far || written == emptySpace)
  }

  /** One piece while the distance grows. */
  lemma PieceWhileGrowing(p: Phase, distance: nat, length: nat, emptySpace: nat, slot: nat, capacity: nat, far: nat,
                          written: nat, n: nat) returns (p': Phase)
    requires 1 <= distance <= capacity && slot < capacity && p.Growing?
    requires InPhase(p, distance, length, emptySpace, slot, capacity, far, written)
    requires written < length && written < emptySpace
    requires n == Min(Min(Min(capacity - (if p.cut then 0 else slot), far), length - written), emptySpace - written)
    ensures var far' := if length - written - n > far && n == far then 2 * far else far;
            InPhase(p', distance, length, emptySpace, slot, capacity, far', written + n) &&
            (p'.Growing? ==> (p' == p && n == far && far' == 2 * far) || (p'.cut && !p.cut && slot + n == capacity && far' == far))
  {
    hide LargestDoubling;
    DoublingStep(far, capacity);
    if !p.cut && slot + far > capacity {
      p' := if n == capacity - slot then Growing(true) else Tail;
    } else if n == far && length - written - n > far {
      p' := if 2 * far <= capacity then p else Past;
    } else {
      p' := Tail;
    }
  }

  lemma DoublingStep(far: nat, capacity: nat)
    requires 1 <= far <= capacity
    ensures LargestDoubling(far, capacity) == if 2 * far <= capacity then LargestDoubling(2 * far, capacity) else far
  {}

  /** One piece in any phase; the place that is copied from moves to the start of the ring when a piece is cut short. */
  lemma NextPhase(p: Phase, distance: nat, length: nat, emptySpace: nat, slot: nat, capacity: nat, far: nat, far': nat,
                  written: nat, n: nat, start: nat) returns (p': Phase)
    requires 1 <= distance <= capacity && slot < capacity && 1 <= far <= capacity
    requires InPhase(p, distance, length, emptySpace, slot, capacity, far, written)
    requires written < length && written < emptySpace
    requires n == Min(Min(Min(capacity - Slot(start, capacity), far), length - written), emptySpace - written)
    requires far' == if length - written - n > far && n == far then 2 * far else far
    requires p.Growing? ==> Slot(start, capacity) == if p.cut then 0 else slot
    ensures InPhase(p', distance, length, emptySpace, slot, capacity, far', written + n)
    ensures p'.Growing? ==> start + far + n >= far' && Slot(start + far + n - far', capacity) == if p'.cut then 0 else slot
  {
    hide LargestDoubling, Overshoots;
    if p.Growing? {
      p' := PieceWhileGrowing(p, distance, length, emptySpace, slot, capacity, far, written, n);
      Turn(start, n, capacity);
    } else {
      p' := Tail;
    }
  }

  lemma PhaseStarts(distance: nat, length: nat, emptySpace: nat, slot: nat, capacity: nat)
    requires 1 <= distance <= capacity && slot < capacity
    ensures InPhase(Growing(false), distance, length, emptySpace, slot, capacity, distance, 0)
  {}

  /** With room and bytes left, only a distance beyond the capacity can fail the check. */
  lemma PhaseStops(p: Phase, distance: nat, length: nat, emptySpace: nat, slot: nat, capacity: nat, far: nat, written: nat)
    requires 1 <= distance <= capacity && slot < capacity && far > capacity
    requires InPhase(p, distance, length, emptySpace, slot, capacity, far, written) && written < emptySpace
    ensures Overshoots(distance, length, emptySpace, slot, capacity)
  {}

  /** At the end nothing has overshot. */
  lemma PhaseEnds(p: Phase, distance: nat, length: nat, emptySpace: nat, slot: nat, capacity: nat, far: nat, written: nat)
    requires 1 <= distance <= capacity && slot < capacity
    requires InPhase(p, distance, length, emptySpace, slot, capacity, far, written)
    requires written == length || written == emptySpace
    ensures !Overshoots(distance, length, emptySpace, slot, capacity)
  {
    hide LargestDoubling;
    if p.Growing? {
      DoublingStep(far, capacity);
    }
  }

  // ----- Looking for a copy -----

  ghost predicate Agrees(s: seq<Byte>, i: nat, j: nat, n: nat) {
    i + n <= |s| && j + n <= |s| && s[i..i + n] == s[j..j + n]
  }

  lemma AgreesAt(s: seq<Byte>, i: nat, j: nat, n: nat, k: nat)
    requires Agrees(s, i, j, n) && k < n
    ensures s[i + k] == s[j + k]
  {
    assert s[i + k] == s[i..i + n][k] && s[j + k] == s[j..j + n][k];
  }

  lemma AgreesNowhere(s: seq<Byte>, i: nat, j: nat)
    requires i <= |s| && j <= |s|
    ensures Agrees(s, i, j, 0)
  {}

  lemma AgreesOnce(s: seq<Byte>, i: nat, j: nat)
    requires i < |s| && j < |s| && s[i] == s[j]
    ensures Agrees(s, i, j, 1)
  {}

  lemma AgreesMore(s: seq<Byte>, i: nat, j: nat, m: nat, n: nat)
    requires Agrees(s, i, j, m) && Agrees(s, i + m, j + m, n)
    ensures Agrees(s, i, j, m + n)
  {
    Joined(s, i, m, n);
    Joined(s, j, m, n);
  }

  /** How many bytes from i on are the same as those from j on, up to a limit. */
  function Agreement(s: seq<Byte>, i: nat, j: nat, most: nat): (n: nat)
    requires i + most <= |s| && j + most <= |s|
    ensures n <= most
    decreases most
  {
    if most == 0 || s[i] != s[j] then 0 else 1 + Agreement(s, i + 1, j + 1, most - 1)
  }

  lemma {:induction false} AgreementMeans(s: seq<Byte>, i: nat, j: nat, most: nat)
    requires i + most <= |s| && j + most <= |s|
    ensures var n := Agreement(s, i, j, most);
            n <= most && Agrees(s, i, j, n) && (n < most ==> s[i + n] != s[j + n])
    decreases most
  {
    hide Agrees;
    if most == 0 || s[i] != s[j] {
      AgreesNowhere(s, i, j);
    } else {
      AgreementMeans(s, i + 1, j + 1, most - 1);
      AgreesOnce(s, i, j);
      AgreesMore(s, i, j, 1, Agreement(s, i + 1, j + 1, most - 1));
    }
  }

  lemma AgreementIs(s: seq<Byte>, i: nat, j: nat, most: nat, n: nat)
    requires i + most <= |s| && j + most <= |s|
    requires n <= most && Agrees(s, i, j, n) && (n < most ==> s[i + n] != s[j + n])
    ensures Agreement(s, i, j, most) == n
  {
    hide Agrees, Agreement;
    AgreementMeans(s, i, j, most);
    var m := Agreement(s, i, j, most);
    if n < m {
      AgreesAt(s, i, j, m, n);
    } else if m < n {
      AgreesAt(s, i, j, n, m);
    }
  }

  /** The bytes from `distance` before the read head on that agree with those from the read head on, not past the read head. */
  function MatchLength(log: seq<Byte>, head: nat, distance: nat, maximumLength: nat): nat
    requires distance <= head && head + maximumLength <= |log|
  {
    Agreement(log, head - distance, head, Min(maximumLength, distance))
  }

  ghost predicate IsCandidate(log: seq<Byte>, head: nat, limit: nat, distance: nat, maximumLength: nat, minimumLength: nat)
    requires limit <= head && head + maximumLength <= |log|
  {
    minimumLength <= distance <= limit && minimumLength <= MatchLength(log, head, distance, maximumLength)
  }

  /** The longest match for one of the distances, for the first of them when several are as long; or none at all. */
  ghost predicate IsBest(log: seq<Byte>, head: nat, limit: nat, distances: seq<nat>, maximumLength: nat, minimumLength: nat,
                         best: Option<Match>)
    requires limit <= head && head + maximumLength <= |log|
  {
    match best
    case None =>
      forall i :: 0 <= i < |distances| ==> !IsCandidate(log, head, limit, distances[i], maximumLength, minimumLength)
    case Some(m) =>
      exists k :: 0 <= k < |distances| && distances[k] == m.distance &&
                  IsCandidate(log, head, limit, distances[k], maximumLength, minimumLength) &&
                  m.length == MatchLength(log, head, distances[k], maximumLength) &&
                  forall i :: 0 <= i < |distances| &&
                              IsCandidate(log, head, limit, distances[i], maximumLength, minimumLength) ==>
                    MatchLength(log, head, distances[i], maximumLength) <= m.length - (if i < k then 1 else 0)
  }

  /** A match ends at the limit, at the read head, or before two bytes that differ. */
  lemma MatchMeans(log: seq<Byte>, head: nat, distance: nat, maximumLength: nat)
    requires distance <= head && head + maximumLength <= |log|
    ensures var n, most := MatchLength(log, head, distance, maximumLength), Min(maximumLength, distance);
            n <= most && (n < most ==> log[head - distance + n] != log[head + n]) &&
            forall k :: 0 <= k < n ==> log[head - distance..][k] == log[head..][k]
  {
    hide Agreement, Agrees;
    var n := MatchLength(log, head, distance, maximumLength);
    AgreementMeans(log, head - distance, head, Min(maximumLength, distance));
    forall k | 0 <= k < n ensures log[head - distance..][k] == log[head..][k] {
      AgreesAt(log, head - distance, head, n, k);
    }
  }

  /** These n bytes match from this distance, which is one of those that may be used. */
  ghost predicate IsMatch(log: seq<Byte>, head: nat, limit: nat, distance: nat, maximumLength: nat, minimumLength: nat, n: nat)
    requires limit <= head && head + maximumLength <= |log|
  {
    minimumLength <= n <= Min(maximumLength, distance) && distance <= limit &&
    log[head - distance..head - distance + n] == log[head..head + n]
  }

  lemma MatchAtMost(log: seq<Byte>, head: nat, limit: nat, distance: nat, maximumLength: nat, minimumLength: nat, n: nat)
    requires limit <= head && head + maximumLength <= |log| && IsMatch(log, head, limit, distance, maximumLength, minimumLength, n)
    ensures n <= MatchLength(log, head, distance, maximumLength)
    ensures IsCandidate(log, head, limit, distance, maximumLength, minimumLength)
  {
    hide MatchLength;
    MatchMeans(log, head, distance, maximumLength);
    EqualBefore(log, head - distance, head, n, MatchLength(log, head, distance, maximumLength));
  }

  lemma EqualBefore(s: seq<Byte>, i: nat, j: nat, n: nat, k: nat)
    requires i + n <= |s| && j + n <= |s| && s[i..i + n] == s[j..j + n]
    ensures k < n ==> s[i + k] == s[j + k]
  {
    if k < n {
      AgreesAt(s, i, j, n, k);
    }
  }

  /** What the search finds is a match, none is longer, and none for a distance tried before is as long. */
  lemma BestMeans(log: seq<Byte>, head: nat, limit: nat, distances: seq<nat>, maximumLength: nat, minimumLength: nat,
                  best: Option<Match>, i: nat, n: nat)
    requires limit <= head && head + maximumLength <= |log|
    requires IsBest(log, head, limit, distances, maximumLength, minimumLength, best)
    ensures best.Some? ==>
              best.value.distance in distances &&
              IsMatch(log, head, limit, best.value.distance, maximumLength, minimumLength, best.value.length)
    ensures i < |distances| && IsMatch(log, head, limit, distances[i], maximumLength, minimumLength, n) ==>
              best.Some? && n <= best.value.length &&
              (n == best.value.length ==> exists k :: 0 <= k <= i && distances[k] == best.value.distance)
  {
    hide MatchLength;
    if i < |distances| && IsMatch(log, head, limit, distances[i], maximumLength, minimumLength, n) {
      MatchAtMost(log, head, limit, distances[i], maximumLength, minimumLength, n);
    }
    if best.Some? {
      var d := best.value.distance;
      MatchMeans(log, head, d, maximumLength);
      var m := best.value.length;
      assert log[head - d..head - d + m] == log[head - d..][..m] && log[head..head + m] == log[head..][..m];
    }
  }

  /** One more distance is looked at. */
  lemma BestOfOneMore(log: seq<Byte>, head: nat, limit: nat, distances: seq<nat>, maximumLength: nat, minimumLength: nat,
                      best: Option<Match>, d: nat)
    requires limit <= head && head + maximumLength <= |log|
    requires IsBest(log, head, limit, distances, maximumLength, minimumLength, best)
    ensures var better := IsCandidate(log, head, limit, d, maximumLength, minimumLength) &&
                          (best.Some? ==> best.value.length < MatchLength(log, head, d, maximumLength));
            IsBest(log, head, limit, distances + [d], maximumLength, minimumLength,
                   if better then Some(Match(d, MatchLength(log, head, d, maximumLength))) else best)
  {
    hide MatchLength;
    var all := distances + [d];
    assert forall i :: 0 <= i < |distances| ==> all[i] == distances[i];
    assert all[|distances|] == d;
  }

  /** A match tells what to copy: from the distance back it gives the next unread bytes. */
  lemma MatchCopies(log: seq<Byte>, head: nat, distance: nat, maximumLength: nat)
    requires 1 <= distance <= head && head + maximumLength <= |log|
    ensures var n := MatchLength(log, head, distance, maximumLength);
            Repeated(log[..head], distance, n) == log[..head + n]
  {
    var n := MatchLength(log, head, distance, maximumLength);
    AgreementMeans(log, head - distance, head, Min(maximumLength, distance));
    var s := log[..head + n];
    forall i | head <= i < |s| ensures s[i] == s[i - distance] {
      AgreesAt(log, head - distance, head, n, i - head);
    }
    RepeatedUnique(log[..head], distance, n, s);
  }

  /** Equal stretches of the ring are equal stretches of the log. */
  lemma StretchSame(ring: seq<Byte>, log: seq<Byte>, limit: nat, i: nat, j: nat, n: nat)
    requires Holds(ring, log, limit) && |log| - limit <= i && |log| - limit <= j && i + n <= |log| && j + n <= |log|
    requires Slot(i, |ring|) + n <= |ring| && Slot(j, |ring|) + n <= |ring|
    requires ring[Slot(i, |ring|)..Slot(i, |ring|) + n] == ring[Slot(j, |ring|)..Slot(j, |ring|) + n]
    ensures Agrees(log, i, j, n)
  {
    hide Slot, Holds;
    WindowPiece(ring, log, limit, i, n);
    WindowPiece(ring, log, limit, j, n);
  }

  lemma ByteInRing(ring: seq<Byte>, log: seq<Byte>, limit: nat, i: nat)
    requires Holds(ring, log, limit) && |log| - limit <= i < |log|
    ensures |ring| > 0 && ring[Slot(i, |ring|)] == log[i]
  {}

  // ----- Runs of operations -----

  /** What the ring answers to one operation: how much there is room for, and how far back it reaches. */
  ghost predicate RingAnswers(l: Ledger, op: Operation, answer: Answer, capacity: nat) {
    0 < capacity && l.taken <= |l.log| <= l.taken + capacity &&
    var room, reach := l.taken + capacity - |l.log|, Min(|l.log|, capacity);
    match op
    case WriteBytes(bytes) => answer == Wrote(Min(|bytes|, room))
    case ReadBytes(_) => answer.Got?
    case DiscardBytes(count) => answer == if count <= |l.log| - l.taken then Done else Failed
    case ReadAgain(distance, _) => if distance <= reach then answer.Got? else answer.Failed?
    case CopyAgain(distance, length) =>
      answer ==
      if distance > reach then Failed
      else if distance == 0 then Wrote(0)
      else if Overshoots(distance, length, room, Slot(|l.log| - distance, capacity), capacity) then Halted
      else Wrote(Min(length, room))
    case PeekBytes(_) => false
  }

  lemma CopyAppends(l: Ledger, distance: nat, length: nat, n: nat, l': Ledger)
    requires n <= length && l'.taken == l.taken <= |l.log|
    requires if distance == 0 then n == 0 && l'.log == l.log else distance <= |l.log| && l'.log == Repeated(l.log, distance, n)
    ensures IsStep(l, CopyAgain(distance, length), Wrote(n), l')
  {
    if distance > 0 {
      RepeatedIsPeriodic(l.log, distance, n);
    }
  }

  class CircularBuffer {
    const buffer: array<Byte>
    var readingHead: nat
    var usedSpace: nat
    var seekbackLimit: nat

    /** Every byte written so far. */
    ghost var log: seq<Byte>

    ghost predicate Valid()
      reads this, buffer
    {
      0 < buffer.Length && usedSpace <= seekbackLimit == Min(|log|, buffer.Length) &&
      readingHead == Slot(|log| - usedSpace, buffer.Length) && Holds(buffer[..], log, seekbackLimit)
    }

    /** The bytes written and not yet read or discarded. */
    ghost function Unread(): (r: seq<Byte>)
      requires usedSpace <= |log|
      reads this
    {
      log[|log| - usedSpace..]
    }

    constructor CreateEmpty(size: nat)
      requires 0 < size
      ensures Valid() && log == [] && fresh(buffer) && buffer.Length == size
    {
      buffer := new Byte[size](_ => 0);
      readingHead, usedSpace, seekbackLimit, log := 0, 0, 0, [];
    }

    function EmptySpace(): (n: int)
      reads this
    {
      buffer.Length - usedSpace
    }

    predicate IsWrappingAround()
      reads this
    {
      buffer.Length <= readingHead + usedSpace
    }

    lemma WriteHead()
      requires Valid()
      ensures Slot(|log|, buffer.Length) ==
              if readingHead + usedSpace < buffer.Length then readingHead + usedSpace
              else readingHead + usedSpace - buffer.Length
    {
      Turn(|log| - usedSpace, usedSpace, buffer.Length);
    }

    /** The longest free stretch that starts where the next byte of the log belongs. */
    method NextWriteSpan() returns (span: Span)
      requires Valid()
      ensures span == Span(Slot(|log|, buffer.Length), Min(EmptySpace(), buffer.Length - Slot(|log|, buffer.Length)))
    {
      WriteHead();
      if IsWrappingAround() {
        return Span(readingHead + usedSpace - buffer.Length, buffer.Length - usedSpace);
      }
      return Span(readingHead + usedSpace, buffer.Length - (readingHead + usedSpace));
    }

    /** The longest stretch of unread bytes that starts `offset` bytes behind the read head. */
    method NextReadSpan(offset: nat) returns (span: Span)
      requires Valid()
      ensures offset > 0 && offset >= usedSpace ==> span.size == 0
      ensures offset == 0 || offset < usedSpace ==>
                var start := Slot(|log| - usedSpace + offset, buffer.Length);
                span == Span(start, Min(buffer.Length - start, usedSpace - offset))
    {
      var head, used := readingHead, usedSpace;
      if offset > 0 {
        if offset >= used {
          return Span(0, 0);
        }
        HeadAfter(|log| - used, offset, buffer.Length);
        head := Slot(head + offset, buffer.Length);
        used := used - offset;
      }
      return Span(head, Min(buffer.Length - head, used));
    }

    /** The longest stretch of the log in the ring that starts `distance` bytes before its end. */
    method NextSeekbackSpan(distance: nat) returns (span: Span)
      requires Valid() && distance <= seekbackLimit
      ensures var start := Slot(|log| - distance, buffer.Length);
              span == Span(start, Min(buffer.Length - start, distance))
    {
      var offset := Slot(buffer.Length + readingHead + usedSpace - distance, buffer.Length);
      SeekbackStart(distance);
      return Span(offset, Min(buffer.Length - offset, distance));
    }

    lemma SeekbackStart(distance: nat)
      requires Valid() && distance <= seekbackLimit
      ensures (buffer.Length + readingHead + usedSpace - distance) % buffer.Length == Slot(|log| - distance, buffer.Length)
    {
      hide Holds;
      BackFrom(|log| - usedSpace, usedSpace, distance, buffer.Length);
    }

    /** Overlapping copies behave as if the source were read first. */
    method CopyTo(start: nat, piece: seq<Byte>)
      requires start + |piece| <= buffer.Length
      modifies buffer
      ensures buffer[..] == Splice(old(buffer[..]), start, piece)
    {
      for i := 0 to |piece|
        invariant buffer[..] == Splice(old(buffer[..]), start, piece[..i])
      {
        buffer[start + i] := piece[i];
        assert piece[..i + 1] == piece[..i] + [piece[i]];
      }
      assert piece[..|piece|] == piece;
    }

    /** Appends bytes that fit behind the write head without turning around. */
    method WritePiece(start: nat, piece: seq<Byte>)
      requires Valid() && start == Slot(|log|, buffer.Length) && start + |piece| <= buffer.Length && |piece| <= EmptySpace()
      modifies this, buffer
      ensures Valid() && log == old(log) + piece && usedSpace == old(usedSpace) + |piece|
      ensures buffer[..] == Splice(old(buffer[..]), start, piece)
    {
      AppendHolds(buffer[..], log, seekbackLimit, piece);
      hide Holds, Splice, Slot;
      CopyTo(start, piece);
      log := log + piece;
      usedSpace := usedSpace + |piece|;
      seekbackLimit := seekbackLimit + |piece|;
      if seekbackLimit > buffer.Length {
        seekbackLimit := buffer.Length;
      }
      assert |log| - usedSpace == |old(log)| - old(usedSpace);
    }

    /**
     Appends as much of a stretch of bytes as there is room for. The stretch may lie in the ring itself,
     when it is a part of the log that ends where, or before, writing starts.
     */
    method Write(source: array<Byte>, offset: nat, size: nat, ghost distance: nat) returns (written: nat)
      requires Valid() && offset + size <= source.Length
      requires source == buffer ==>
                 size <= distance <= seekbackLimit && offset == Slot(|log| - distance, buffer.Length)
      modifies this, buffer
      ensures Valid() && written == Min(size, old(EmptySpace()))
      ensures log == old(log) + old(source[offset..offset + written]) && usedSpace == old(usedSpace) + written
    {
      hide Holds, Splice, Slot;
      ghost var log0, all := log, source[..];
      ghost var view := all[offset..offset + size];
      var remaining: int := size;
      while remaining > 0
        invariant 0 <= remaining <= size == |view| && offset + size <= source.Length
        invariant Valid() && usedSpace == old(usedSpace) + (size - remaining)
        invariant log == log0 + view[..size - remaining]
        invariant source[offset + (size - remaining)..offset + size] == view[size - remaining..]
      {
        var span := NextWriteSpan();
        if span.size == 0 {
          break;
        }
        var done := size - remaining;
        var n := Min(remaining, span.size);
        remaining := WriteNext(source, offset, size, done, n, span.start, log0, distance, view);
      }
      written := size - remaining;
      SliceWithin(all, offset, offset + size, 0, written);
      assert view[0..written] == view[..written];
    }

    method WriteNext(source: array<Byte>, offset: nat, size: nat, done: nat, n: nat, start: nat,
                     ghost log0: seq<Byte>, ghost distance: nat, ghost view: seq<Byte>)
      returns (remaining: nat)
      requires Valid() && offset + size <= source.Length && done + n <= size == |view| && log == log0 + view[..done]
      requires start == Slot(|log|, buffer.Length) && start + n <= buffer.Length && n <= EmptySpace()
      requires source[offset + done..offset + size] == view[done..]
      requires source == buffer ==>
                 size <= distance <= buffer.Length && distance <= |log0| && offset == Slot(|log0| - distance, buffer.Length)
      modifies this, buffer
      ensures Valid() && remaining == size - done - n
      ensures log == log0 + view[..done + n] && usedSpace == old(usedSpace) + n
      ensures source[offset + done + n..offset + size] == view[done + n..]
    {
      hide Holds, Splice, Slot;
      var piece := source[offset + done..offset + done + n];
      ghost var rest := source[offset + done..offset + size];
      assert piece == rest[..n] == view[done..][..n] == view[done..done + n];
      assert view[done + n..] == rest[n..] == source[offset + done + n..offset + size];
      ghost var ring := buffer[..];
      assert view[..done] + piece == view[..done + n];
      Associate(log0, view[..done], piece);
      WritePiece(start, piece);
      if source == buffer {
        ViewIntact(ring, |log0|, distance, offset, size, done, piece);
        assert buffer[offset + done + n..offset + size] == buffer[..][offset + done + n..offset + size];
        assert ring[offset + done + n..offset + size] == view[done + n..];
      }
      remaining := size - done - n;
    }

    /** Copies the bytes of a span that belong to the log from index `from` on. */
    method CopyOut(target: array<Byte>, done: nat, start: nat, n: nat, ghost from: nat)
      requires Valid() && target != buffer && done + n <= target.Length
      requires |log| - seekbackLimit <= from && from + n <= |log| && start == Slot(from, buffer.Length) && start + n <= buffer.Length
      modifies target
      ensures target[..done + n] == old(target[..done]) + log[from..from + n]
      ensures target[done + n..] == old(target[done + n..])
    {
      hide Holds, Slot;
      WindowPiece(buffer[..], log, seekbackLimit, from, n);
      assert buffer[..][start..start + n] == buffer[start..start + n];
      CopyBytes(target, done, start, n);
    }

    method CopyBytes(target: array<Byte>, done: nat, start: nat, n: nat)
      requires target != buffer && done + n <= target.Length && start + n <= buffer.Length
      modifies target
      ensures target[..done + n] == old(target[..done]) + buffer[start..start + n]
      ensures target[done + n..] == old(target[done + n..])
    {
      ghost var piece := buffer[start..start + n];
      for i := 0 to n
        invariant forall k :: 0 <= k < i ==> target[done + k] == piece[k]
        invariant forall k :: 0 <= k < done || done + i <= k < target.Length ==> target[k] == old(target[k])
      {
        assert buffer[start + i] == piece[i];
        target[done + i] := buffer[start + i];
      }
    }

    /** Takes unread bytes, the oldest first, until the target is full or none are left. */
    method Read(target: array<Byte>) returns (n: nat)
      requires Valid() && target != buffer
      modifies this, target
      ensures Valid() && log == old(log) && n == Min(target.Length, old(usedSpace))
      ensures target[..n] == old(Unread())[..n] && target[n..] == old(target[n..])
      ensures usedSpace == old(usedSpace) - n && Unread() == old(Unread())[n..]
    {
      hide Holds, Slot;
      var remaining := target.Length;
      ghost var first := |log| - usedSpace;
      while remaining > 0
        invariant 0 <= remaining <= target.Length
        invariant Valid() && log == old(log) && usedSpace == old(usedSpace) - (target.Length - remaining)
        invariant target[..target.Length - remaining] == log[first..first + (target.Length - remaining)]
        invariant target[target.Length - remaining..] == old(target[target.Length - remaining..])
      {
        var span := NextReadSpan(0);
        if span.size == 0 {
          break;
        }
        var n := Min(span.size, remaining);
        var done := target.Length - remaining;
        CopyOut(target, done, span.start, n, first + done);
        Joined(log, first, done, n);
        AdvanceReadHead(n);
        remaining := remaining - n;
      }
      n := target.Length - remaining;
    }

    method AdvanceReadHead(n: nat)
      requires Valid() && n <= usedSpace && readingHead + n <= buffer.Length
      modifies this`usedSpace, this`readingHead
      ensures Valid() && usedSpace == old(usedSpace) - n
    {
      Turn(|log| - usedSpace, n, buffer.Length);
      usedSpace := usedSpace - n;
      readingHead := readingHead + n;
      if readingHead >= buffer.Length {
        readingHead := readingHead - buffer.Length;
      }
    }

    /** Drops the oldest unread bytes, or refuses when there are not as many. */
    method Discard(size: nat) returns (result: Result<()>)
      requires Valid()
      modifies this`usedSpace, this`readingHead
      ensures Valid() && result.Ok? == (size <= old(usedSpace))
      ensures result.Ok? ==> usedSpace == old(usedSpace) - size && Unread() == old(Unread())[size..]
      ensures result.Error? ==> unchanged(this)
    {
      hide Holds, Slot;
      if usedSpace < size {
        return Error("Can not discard more data than what the buffer contains");
      }
      HeadAfter(|log| - usedSpace, size, buffer.Length);
      usedSpace := usedSpace - size;
      readingHead := Slot(readingHead + size, buffer.Length);
      return Ok(());
    }

    /** Reads bytes again that start `distance` bytes before the end of the log. */
    method ReadWithSeekback(target: array<Byte>, distance: nat) returns (result: Result<nat>)
      requires Valid() && target != buffer
      modifies target
      ensures result.Ok? == (distance <= seekbackLimit)
      ensures result.Ok? ==>
                var n, from := result.value, |log| - distance;
                n == Min(target.Length, distance) && target[..n] == log[from..from + n] && target[n..] == old(target[n..])
      ensures result.Error? ==> target[..] == old(target[..])
    {
      hide Holds, Slot;
      if distance > seekbackLimit {
        return Error("Tried a seekback read beyond the seekback limit");
      }
      var left, remaining := distance, target.Length;
      ghost var from := |log| - distance;
      while remaining > 0
        invariant 0 <= remaining <= target.Length && left == distance - (target.Length - remaining)
        invariant Valid() && left >= 0
        invariant target[..target.Length - remaining] == log[from..from + (target.Length - remaining)]
        invariant target[target.Length - remaining..] == old(target[target.Length - remaining..])
      {
        var span := NextSeekbackSpan(left);
        if span.size == 0 {
          break;
        }
        var n := Min(span.size, remaining);
        var done := target.Length - remaining;
        CopyOut(target, done, span.start, n, from + done);
        Joined(log, from, done, n);
        left := left - n;
        remaining := remaining - n;
      }
      return Ok(target.Length - remaining);
    }

    /** Appends one stretch of the past that starts `far` bytes, a multiple of the distance, before the end. */
    method CopyOnce(span: Span, size: nat, far: nat, ghost distance: nat, ghost from: nat, ghost q: nat) returns (n: nat)
      requires Valid() && 1 <= far <= seekbackLimit && span.start == Slot(|log| - far, buffer.Length)
      requires size <= span.size <= far && span.start + span.size <= buffer.Length
      requires Periodic(log, from, distance) && from <= |log| - far + distance && from <= |log|
      requires far == q * distance && 1 <= q
      modifies this, buffer
      ensures Valid() && n == Min(size, old(EmptySpace())) && usedSpace == old(usedSpace) + n
      ensures |log| == |old(log)| + n && log[..|old(log)|] == old(log) && Periodic(log, from, distance)
    {
      hide Holds, Slot, Periodic;
      ghost var written := Min(size, EmptySpace());
      CopyKeepsPeriod(log, from, distance, q, far, written);
      WindowPiece(buffer[..], log, seekbackLimit, |log| - far, size);
      ghost var piece := log[|log| - far..|log| - far + size];
      assert piece[..written] == log[|log| - far..|log| - far + written];
      n := Write(buffer, span.start, size, far);
      assert old(buffer[span.start..span.start + size])[..n] == old(buffer[span.start..span.start + n]);
    }

    /**
     Appends bytes that are each equal to the one `distance` bytes before it, as many as fit: the same bytes as copying
     one by one, although the copies may overlap what they write and double in length. The process stops exactly when
     the doubled distance overshoots.
     */
    method CopyFromSeekback(distance: nat, length: nat) returns (result: CopyResult)
      requires Valid()
      modifies this, buffer
      ensures result.Refused? <==> distance > old(seekbackLimit)
      ensures result.Refused? ==> Valid() && log == old(log) && usedSpace == old(usedSpace)
      ensures result.Stopped? <==>
                0 < distance <= old(seekbackLimit) &&
                Overshoots(distance, length, old(EmptySpace()), old(Slot(|log| - distance, buffer.Length)), buffer.Length)
      ensures result.Copied? ==>
                Valid() && result.length == (if distance == 0 then 0 else Min(length, old(EmptySpace()))) &&
                usedSpace == old(usedSpace) + result.length &&
                (distance == 0 ==> log == old(log)) &&
                (distance > 0 ==> distance <= |old(log)| && log == Repeated(old(log), distance, result.length))
    {
      if distance > seekbackLimit {
        return Refused("Tried a seekback copy beyond the seekback limit");
      }
      hide Holds, Slot, Repeated, Overshoots, CopyState;
      ghost var log0, used0, q := log, usedSpace, 1;
      ghost var phase := Growing(false);
      var far: nat, remaining: nat := distance, length;
      CopyStarts(distance, length);
      while remaining > 0
        invariant 0 <= remaining <= length && Valid()
        invariant CopyState(log0, used0, distance, length, phase, far, q, remaining)
        decreases remaining
      {
        if EmptySpace() == 0 {
          break;
        }
        if far > seekbackLimit {  // VERIFY
          CopyingStops(log0, used0, distance, length, phase, far, q, remaining);
          return Stopped;
        }
        var span := NextSeekbackSpan(far);
        if span.size == 0 {
          NoSpan(log0, used0, distance, length, phase, far, q, remaining);
          break;
        }
        far, remaining, phase, q := CopyPiece(span, log0, used0, distance, length, phase, far, q, remaining);
      }
      CopyingEnds(log0, used0, distance, length, phase, far, q, remaining);
      return Copied(length - remaining);
    }

    /** A copy so far, which has done nothing from no distance. */
    ghost predicate CopyState(log0: seq<Byte>, used0: nat, distance: nat, length: nat, p: Phase, far: nat, q: nat, remaining: nat)
      reads this, buffer
    {
      if distance == 0 then far == 0 && remaining == length && log == log0 && usedSpace == used0
      else Copying(log0, used0, distance, length, p, far, q, remaining)
    }

    lemma CopyStarts(distance: nat, length: nat)
      requires Valid() && distance <= seekbackLimit
      ensures CopyState(log, usedSpace, distance, length, Growing(false), distance, 1, length)
    {
      if distance > 0 {
        CopyingStarts(distance, length);
      }
    }

    /** Only from no distance there is nothing to copy. */
    lemma NoSpan(log0: seq<Byte>, used0: nat, distance: nat, length: nat, p: Phase, far: nat, q: nat, remaining: nat)
      requires CopyState(log0, used0, distance, length, p, far, q, remaining)
      requires Valid() && Min(buffer.Length - Slot(|log| - far, buffer.Length), far) == 0 && far <= |log|
      ensures distance == 0
    {
      hide Holds, Periodic, InPhase;
      if distance > 0 {
        MulAtLeastOne(q, distance);
      }
    }

    lemma MulAtLeastOne(q: nat, d: nat)
      requires q >= 1 && d >= 1
      ensures q * d >= 1
    {}

    /** A copy so far: log0 is the log at its start, far is q times the distance. */
    ghost predicate Copying(log0: seq<Byte>, used0: nat, distance: nat, length: nat, p: Phase, far: nat, q: nat, remaining: nat)
      reads this, buffer
    {
      Valid() && remaining <= length && usedSpace == used0 + (length - remaining) && used0 <= buffer.Length &&
      1 <= distance <= buffer.Length && distance <= |log0| &&
      |log| == |log0| + (length - remaining) && log[..|log0|] == log0 && Periodic(log, |log0|, distance) &&
      far == q * distance && 1 <= q && far <= |log| && |log0| <= |log| - far + distance &&
      var slot := Slot(|log0| - distance, buffer.Length);
      InPhase(p, distance, length, buffer.Length - used0, slot, buffer.Length, far, length - remaining) &&
      (p.Growing? ==> Slot(|log| - far, buffer.Length) == if p.cut then 0 else slot)
    }

    lemma CopyingStarts(distance: nat, length: nat)
      requires Valid() && 1 <= distance <= seekbackLimit
      ensures Copying(log, usedSpace, distance, length, Growing(false), distance, 1, length)
    {
      hide Holds, Periodic, InPhase;
      PeriodicStart(log, distance);
      PhaseStarts(distance, length, buffer.Length - usedSpace, Slot(|log| - distance, buffer.Length), buffer.Length);
    }

    lemma CopyingStops(log0: seq<Byte>, used0: nat, distance: nat, length: nat, p: Phase, far: nat, q: nat, remaining: nat)
      requires CopyState(log0, used0, distance, length, p, far, q, remaining)
      requires Valid() && far > seekbackLimit && EmptySpace() > 0
      ensures distance > 0 && 1 <= distance <= buffer.Length && distance <= |log0| && used0 <= buffer.Length
      ensures Overshoots(distance, length, buffer.Length - used0, Slot(|log0| - distance, buffer.Length), buffer.Length)
    {
      hide Holds, Slot, Periodic, InPhase, Overshoots;
      PhaseStops(p, distance, length, buffer.Length - used0, Slot(|log0| - distance, buffer.Length), buffer.Length, far,
                 length - remaining);
    }

    lemma CopyingEnds(log0: seq<Byte>, used0: nat, distance: nat, length: nat, p: Phase, far: nat, q: nat, remaining: nat)
      requires CopyState(log0, used0, distance, length, p, far, q, remaining) && Valid()
      requires distance == 0 || remaining == 0 || EmptySpace() == 0
      ensures distance == 0 ==> remaining == length && log == log0 && usedSpace == used0
      ensures distance > 0 ==> 1 <= distance <= buffer.Length && distance <= |log0| && used0 <= buffer.Length
      ensures distance > 0 ==>
                !Overshoots(distance, length, buffer.Length - used0, Slot(|log0| - distance, buffer.Length), buffer.Length) &&
                remaining <= length && length - remaining == Min(length, buffer.Length - used0) &&
                usedSpace == used0 + (length - remaining) && log == Repeated(log0, distance, length - remaining)
    {
      hide Holds, Slot, Periodic, Overshoots, Repeated;
      if distance > 0 {
        PhaseEnds(p, distance, length, buffer.Length - used0, Slot(|log0| - distance, buffer.Length), buffer.Length, far,
                  length - remaining);
        RepeatedUnique(log0, distance, length - remaining, log);
      }
    }

    /** One piece, and the distance for the next one. */
    method CopyPiece(span: Span, ghost log0: seq<Byte>, ghost used0: nat, ghost distance: nat, ghost length: nat, ghost p: Phase,
                     far0: nat, ghost q0: nat, remaining0: nat)
      returns (far: nat, remaining: nat, ghost p': Phase, ghost q: nat)
      requires CopyState(log0, used0, distance, length, p, far0, q0, remaining0) && remaining0 > 0 && EmptySpace() > 0
      requires Valid() && far0 <= seekbackLimit && span.size > 0
      requires var start := Slot(|log| - far0, buffer.Length); span == Span(start, Min(buffer.Length - start, far0))
      modifies this, buffer
      ensures CopyState(log0, used0, distance, length, p', far, q, remaining) && Valid() && remaining < remaining0
    {
      hide Holds, Slot, Periodic, InPhase;
      ghost var slot, cap, start := Slot(|log0| - distance, buffer.Length), buffer.Length, |log| - far0;
      var n := CopyOnce(span, Min(span.size, remaining0), far0, distance, |log0|, q0);
      remaining := remaining0 - n;
      far, q := far0, q0;
      if remaining > far && n == far {
        Doubled(q, distance);
        far := far * 2;
        q := q * 2;
      }
      p' := NextPhase(p, distance, length, cap - used0, slot, cap, far0, far, length - remaining0, n, start);
      assert log[..|log0|] == log[..|old(log)|][..|log0|];
    }

    static method FilledAndRead(bytes: array<Byte>, target: array<Byte>) returns (ring: CircularBuffer)
      requires bytes.Length == 3 && target.Length == 3
      modifies target
      ensures fresh(ring) && fresh(ring.buffer) && ring.Valid()
      ensures |ring.log| == 3 && ring.buffer.Length == 3 && ring.usedSpace == 0
    {
      hide Holds, Slot;
      ring := new CircularBuffer.CreateEmpty(3);
      var written := ring.Write(bytes, 0, 3, 0);
      var read := ring.Read(target);
    }

    /** A copy of five bytes from two bytes back, into an empty ring of three bytes that has been full, ends the process. */
    static method FiveOvershootThreeHere(bytes: array<Byte>, target: array<Byte>) returns (result: CopyResult)
      requires bytes.Length == 3 && target.Length == 3
      modifies target
      ensures result.Stopped?
    {
      hide Holds, Repeated, Overshoots;
      var ring := FilledAndRead(bytes, target);
      FiveOvershootThree();
      result := ring.CopyFromSeekback(2, 5);
    }

    // ----- Looking for a copy -----

    /** The longest stretch of the log in the ring that starts `distance` bytes before the read head. */
    method NextSearchSpan(distance: nat) returns (span: Span)
      requires Valid() && distance <= seekbackLimit - usedSpace
      ensures var start := Slot(|log| - usedSpace - distance, buffer.Length);
              span == Span(start, Min(buffer.Length - start, distance))
    {
      hide Holds;
      var offset := Slot(buffer.Length + readingHead - distance, buffer.Length);
      BackFrom(|log| - usedSpace, 0, distance, buffer.Length);
      return Span(offset, Min(buffer.Length - offset, distance));
    }

    /** How far two stretches of the ring agree. */
    method MatchingPrefixLength(a: Span, b: Span) returns (n: nat)
      requires a.start + a.size <= buffer.Length && b.start + b.size <= buffer.Length
      ensures n <= Min(a.size, b.size) && buffer[a.start..a.start + n] == buffer[b.start..b.start + n]
      ensures n < Min(a.size, b.size) ==> buffer[a.start + n] != buffer[b.start + n]
    {
      var most := Min(a.size, b.size);
      for i := 0 to most
        invariant buffer[a.start..a.start + i] == buffer[b.start..b.start + i]
      {
        assert buffer[a.start..a.start + i + 1] == buffer[a.start..a.start + i] + [buffer[a.start + i]];
        assert buffer[b.start..b.start + i + 1] == buffer[b.start..b.start + i] + [buffer[b.start + i]];
        if buffer[a.start + i] != buffer[b.start + i] {
          return i;
        }
      }
      return most;
    }

    /** The agreement of the bytes at a distance with those to be read next, piece by piece around the end of the ring. */
    method FindMatchLength(distance: nat, maximumLength: nat) returns (length: nat)
      requires Valid() && distance <= seekbackLimit - usedSpace && maximumLength <= usedSpace
      ensures length == MatchLength(log, |log| - usedSpace, distance, maximumLength)
    {
      hide Holds, Slot, Agreement, Agrees;
      ghost var head := |log| - usedSpace;
      ghost var from := head - distance;
      length := 0;
      AgreesNowhere(log, from, head);
      while length < maximumLength
        invariant length <= Min(maximumLength, distance) && Agrees(log, from, head, length)
      {
        var submatch := FindSubmatch(distance, length, maximumLength);
        if submatch == 0 {
          break;
        }
        AgreesMore(log, from, head, length, submatch);
        length := length + submatch;
      }
      AgreementIs(log, from, head, Min(maximumLength, distance), length);
    }

    /** How the match goes on; nothing more when the read head is reached or the next bytes differ. */
    method FindSubmatch(distance: nat, length: nat, maximumLength: nat) returns (submatch: nat)
      requires Valid() && distance <= seekbackLimit - usedSpace && length < maximumLength <= usedSpace && length <= distance
      ensures length + submatch <= Min(maximumLength, distance)
      ensures var head := |log| - usedSpace;
              Agrees(log, head - distance + length, head + length, submatch) &&
              (submatch == 0 && length < distance ==> log[head - distance + length] != log[head + length])
    {
      hide Holds, Slot, Agrees;
      var haystack := NextSearchSpan(distance - length);
      var needle := NextReadSpan(length);
      submatch := MatchingPrefixLength(Span(haystack.start, Min(haystack.size, maximumLength - length)),
                                       Span(needle.start, Min(needle.size, maximumLength - length)));
      ghost var head := |log| - usedSpace;
      StretchAgrees(head - distance + length, head + length, haystack, needle, maximumLength - length, submatch);
    }

    /** What the comparison of two stretches of the ring says about the log. */
    lemma StretchAgrees(i: nat, j: nat, haystack: Span, needle: Span, most: nat, n: nat)
      requires Valid() && |log| - seekbackLimit <= i <= j <= |log| && j + most <= |log|
      requires haystack.start == Slot(i, buffer.Length) && needle.start == Slot(j, buffer.Length)
      requires haystack.start + haystack.size <= buffer.Length && needle.start + needle.size <= buffer.Length
      requires i + haystack.size <= |log| && j + needle.size <= |log| && needle.size > 0 && most > 0
      requires n <= Min(Min(haystack.size, most), Min(needle.size, most))
      requires buffer[haystack.start..haystack.start + n] == buffer[needle.start..needle.start + n]
      requires n < Min(Min(haystack.size, most), Min(needle.size, most)) ==>
                 buffer[haystack.start + n] != buffer[needle.start + n]
      ensures Agrees(log, i, j, n)
      ensures n == 0 && haystack.size > 0 ==> log[i] != log[j]
    {
      hide Slot, Holds, Agrees;
      StretchSame(buffer[..], log, seekbackLimit, i, j, n);
      if n == 0 && haystack.size > 0 {
        ByteInRing(buffer[..], log, seekbackLimit, i);
        ByteInRing(buffer[..], log, seekbackLimit, j);
      }
    }

    /** Tries the distances in turn and keeps the first one of the longest matches with the next unread bytes. */
    method FindCopyInSeekback(distances: seq<nat>, maximumLength0: nat, minimumLength: nat) returns (best: Option<Match>)
      requires Valid() && minimumLength > 0
      ensures var maximumLength := Min(maximumLength0, usedSpace);
              IsBest(log, |log| - usedSpace, seekbackLimit - usedSpace, distances, maximumLength, minimumLength, best)
    {
      hide Holds, Slot, MatchLength, IsBest;
      var maximumLength := maximumLength0;
      if maximumLength > usedSpace {
        maximumLength := usedSpace;
      }
      if maximumLength < minimumLength {
        NoneLongEnough(log, |log| - usedSpace, seekbackLimit - usedSpace, distances, maximumLength, minimumLength);
        return None;
      }
      best := None;
      BestOfNone(log, |log| - usedSpace, seekbackLimit - usedSpace, maximumLength, minimumLength);
      for i := 0 to |distances|
        invariant IsBest(log, |log| - usedSpace, seekbackLimit - usedSpace, distances[..i], maximumLength, minimumLength, best)
      {
        var distance := distances[i];
        BestOfOneMore(log, |log| - usedSpace, seekbackLimit - usedSpace, distances[..i], maximumLength, minimumLength, best, distance);
        assert distances[..i + 1] == distances[..i] + [distance];
        if distance > seekbackLimit - usedSpace || distance <= 0 {
          continue;
        }
        if distance < minimumLength {
          continue;
        }
        var length := FindMatchLength(distance, maximumLength);
        if length < minimumLength {
          continue;
        }
        if best.None? || best.value.length < length {
          best := Some(Match(distance, length));
        }
      }
      assert distances[..|distances|] == distances;
    }

    /** The ledger tells what has been written to the ring and how much of it is taken. */
    ghost predicate Shows(l: Ledger)
      reads this
    {
      log == l.log && usedSpace + l.taken == |l.log|
    }

    /** One operation of a run. */
    method Execute(op: Operation, ghost l: Ledger) returns (answer: Answer, ghost next: Ledger)
      requires Valid() && Shows(l) && !op.PeekBytes?
      modifies this, buffer
      ensures IsStep(l, op, answer, next) && RingAnswers(l, op, answer, buffer.Length)
      ensures !answer.Halted? ==> Valid() && Shows(next)
    {
      hide Holds, Slot, IsStep, RingAnswers;
      match op {
        case WriteBytes(bytes) =>
          answer, next := ExecuteWrite(bytes, l);
        case ReadBytes(count) =>
          answer, next := ExecuteRead(count, l);
        case DiscardBytes(count) =>
          answer, next := ExecuteDiscard(count, l);
        case ReadAgain(distance, count) =>
          answer, next := ExecuteReadAgain(distance, count, l);
        case CopyAgain(distance, length) =>
          answer, next := ExecuteCopyAgain(distance, length, l);
      }
    }

    method ExecuteWrite(bytes: seq<Byte>, ghost l: Ledger) returns (answer: Answer, ghost next: Ledger)
      requires Valid() && Shows(l)
      modifies this, buffer
      ensures IsStep(l, WriteBytes(bytes), answer, next) && RingAnswers(l, WriteBytes(bytes), answer, buffer.Length)
      ensures Valid() && Shows(next) && !answer.Halted?
    {
      hide Holds, Slot;
      var source := ArrayOf(bytes);
      var n := Write(source, 0, |bytes|, 0);
      next := Ledger(log, l.taken);
      answer := Wrote(n);
    }

    method ExecuteRead(count: nat, ghost l: Ledger) returns (answer: Answer, ghost next: Ledger)
      requires Valid() && Shows(l)
      modifies this
      ensures IsStep(l, ReadBytes(count), answer, next) && RingAnswers(l, ReadBytes(count), answer, buffer.Length)
      ensures Valid() && Shows(next) && !answer.Halted?
    {
      hide Holds, Slot;
      var target := new Byte[count](_ => 0);
      var n := Read(target);
      next := Ledger(log, l.taken + n);
      answer := Got(target[..n]);
    }

    method ExecuteDiscard(count: nat, ghost l: Ledger) returns (answer: Answer, ghost next: Ledger)
      requires Valid() && Shows(l)
      modifies this
      ensures IsStep(l, DiscardBytes(count), answer, next) && RingAnswers(l, DiscardBytes(count), answer, buffer.Length)
      ensures Valid() && Shows(next) && !answer.Halted?
    {
      hide Holds, Slot;
      next := l;
      answer := Failed;
      var result := Discard(count);
      if result.Ok? {
        next := Ledger(log, l.taken + count);
        answer := Done;
      }
    }

    method ExecuteReadAgain(distance: nat, count: nat, ghost l: Ledger) returns (answer: Answer, ghost next: Ledger)
      requires Valid() && Shows(l)
      ensures IsStep(l, ReadAgain(distance, count), answer, next) && RingAnswers(l, ReadAgain(distance, count), answer, buffer.Length)
      ensures Valid() && Shows(next) && !answer.Halted?
    {
      hide Holds, Slot;
      next := l;
      answer := Failed;
      var target := new Byte[count](_ => 0);
      var result := ReadWithSeekback(target, distance);
      if result.Ok? {
        answer := Got(target[..result.value]);
      }
    }

    method ExecuteCopyAgain(distance: nat, length: nat, ghost l: Ledger) returns (answer: Answer, ghost next: Ledger)
      requires Valid() && Shows(l)
      modifies this, buffer
      ensures IsStep(l, CopyAgain(distance, length), answer, next) && RingAnswers(l, CopyAgain(distance, length), answer, buffer.Length)
      ensures !answer.Halted? ==> Valid() && Shows(next)
    {
      hide Holds, Slot, Overshoots, Repeated, Periodic;
      next := l;
      var result := CopyFromSeekback(distance, length);
      match result {
        case Refused(_) =>
          answer := Failed;
        case Stopped =>
          answer := Halted;
        case Copied(n) =>
          next := Ledger(log, l.taken);
          CopyAppends(l, distance, length, n, next);
          answer := Wrote(n);
      }
    }

    /**
     Any run of operations on an empty ring is a run on a log: first in, first out, with the past still readable. It goes
     on to the last operation unless a copy ends the process.
     */
    method Run(ops: seq<Operation>) returns (answers: seq<Answer>, ghost ledgers: seq<Ledger>)
      requires Valid() && log == [] && forall op :: op in ops ==> !op.PeekBytes?
      modifies this, buffer
      ensures IsRun(ledgers, ops, answers)
      ensures forall i :: 0 <= i < |answers| ==> RingAnswers(ledgers[i], ops[i], answers[i], buffer.Length)
      ensures forall i :: 0 <= i < |answers| - 1 ==> !answers[i].Halted?
      ensures answers == [] || !answers[|answers| - 1].Halted? ==>
                |answers| == |ops| && Valid() && Shows(ledgers[|ops|])
    {
      hide Holds, Slot, IsStep, RingAnswers;
      answers, ledgers := [], [Ledger([], 0)];
      for i := 0 to |ops|
        invariant |answers| == i && IsRun(ledgers, ops, answers) && Valid() && Shows(ledgers[i])
        invariant forall k :: 0 <= k < i ==> RingAnswers(ledgers[k], ops[k], answers[k], buffer.Length)
        invariant forall k :: 0 <= k < i ==> !answers[k].Halted?
      {
        var answer, next := Execute(ops[i], ledgers[i]);
        answers, ledgers := answers + [answer], ledgers + [next];
        if answer.Halted? {
          return;
        }
      }
    }
  }

  method ArrayOf(bytes: seq<Byte>) returns (a: array<Byte>)
    ensures fresh(a) && a[..] == bytes
  {
    a := new Byte[|bytes|](i requires 0 <= i < |bytes| => bytes[i]);
  }

  lemma BestOfNone(log: seq<Byte>, head: nat, limit: nat, maximumLength: nat, minimumLength: nat)
    requires limit <= head && head + maximumLength <= |log|
    ensures IsBest(log, head, limit, [], maximumLength, minimumLength, None)
  {}

  lemma NoneLongEnough(log: seq<Byte>, head: nat, limit: nat, distances: seq<nat>, maximumLength: nat, minimumLength: nat)
    requires limit <= head && head + maximumLength <= |log| && maximumLength < minimumLength
    ensures IsBest(log, head, limit, distances, maximumLength, minimumLength, None)
  {}

  /** Writing the first bytes of a copied stretch does not touch those still to be copied. */
  lemma ViewIntact(ring: seq<Byte>, length: nat, distance: nat, offset: nat, size: nat, done: nat, piece: seq<Byte>)
    requires 0 < |ring| && size <= distance <= |ring| && distance <= length && offset + size <= |ring|
    requires offset == Slot(length - distance, |ring|)
    requires done + |piece| <= size && Slot(length + done, |ring|) + |piece| <= |ring|
    ensures Splice(ring, Slot(length + done, |ring|), piece)[offset + done + |piece|..offset + size]
         == ring[offset + done + |piece|..offset + size]
  {
    var start, from := Slot(length + done, |ring|), offset + done + |piece|;
    var ring' := Splice(ring, start, piece);
    forall k | from <= k < offset + size ensures |ring'| == |ring| && ring'[k] == ring[k] {
      SpliceAt(ring, start, piece, k);
      Turn(length - distance, k - offset, |ring|);
      AwayFromHead(length + done, length - distance + (k - offset), |piece|, |ring|);
    }
  }
}
