/**
 The allocating memory stream: a list of chunks of fixed size that is a queue of bytes.
 */
module MemoryStreams {
  import opened Basics
  import opened ByteLogs
  import opened MemMem

  const CHUNK_SIZE: nat := 4096

  /** The unread part of each chunk: only the first may start, and only the last may end, inside its chunk. */
  ghost function Spans(chunks: seq<seq<Byte>>, start: nat, limit: nat): (spans: seq<seq<Byte>>)
    requires WellFormed(chunks, start, limit)
    ensures |spans| == |chunks|
  {
    if chunks == [] then []
    else if |chunks| == 1 then [chunks[0][start..limit]]
    else [chunks[0][start..]] + Spans(chunks[1..], 0, limit)
  }

  ghost predicate WellFormed(chunks: seq<seq<Byte>>, start: nat, limit: nat) {
    (forall i :: 0 <= i < |chunks| ==> |chunks[i]| == CHUNK_SIZE) &&
    (chunks == [] ==> start == 0 && limit == 0) &&
    limit <= CHUNK_SIZE && start <= if |chunks| <= 1 then limit else CHUNK_SIZE
  }

  /** The bytes written and not yet read. */
  ghost function Queue(chunks: seq<seq<Byte>>, start: nat, limit: nat): seq<Byte>
    requires WellFormed(chunks, start, limit)
  {
    Joined(Spans(chunks, start, limit))
  }

  lemma QueueJoined(chunks: seq<seq<Byte>>, start: nat, limit: nat)
    requires WellFormed(chunks, start, limit)
    ensures Queue(chunks, start, limit) == Joined(Spans(chunks, start, limit))
  {}

  lemma JoinedOne(s: seq<Byte>)
    ensures Joined([s]) == s
  {
    assert Joined([s]) == s + Joined([]);
  }

  lemma QueueFirst(chunks: seq<seq<Byte>>, start: nat, limit: nat)
    requires WellFormed(chunks, start, limit)
    ensures chunks == [] ==> Queue(chunks, start, limit) == []
    ensures |chunks| == 1 ==> Queue(chunks, start, limit) == chunks[0][start..limit]
    ensures |chunks| > 1 ==> Queue(chunks, start, limit) == chunks[0][start..] + Queue(chunks[1..], 0, limit)
  {
    if |chunks| == 1 {
      JoinedOne(chunks[0][start..limit]);
    }
  }

  lemma SliceJoin(s: seq<Byte>, a: nat, b: nat, c: nat)
    requires a <= b <= c <= |s|
    ensures s[a..b] + s[b..c] == s[a..c] && (c == |s| ==> s[b..c] == s[b..] && s[a..c] == s[a..])
  {}

  /** Reading on within the first chunk. */
  lemma QueueAdvance(chunks: seq<seq<Byte>>, start: nat, limit: nat, n: nat)
    requires WellFormed(chunks, start, limit) && chunks != [] && start + n <= if |chunks| == 1 then limit else CHUNK_SIZE
    ensures Queue(chunks, start, limit) == chunks[0][start..start + n] + Queue(chunks, start + n, limit)
  {
    QueueFirst(chunks, start, limit);
    QueueFirst(chunks, start + n, limit);
    hide Queue, WellFormed;
    if |chunks| == 1 {
      SliceJoin(chunks[0], start, start + n, limit);
    } else {
      SliceJoin(chunks[0], start, start + n, CHUNK_SIZE);
      Associate(chunks[0][start..start + n], chunks[0][start + n..], Queue(chunks[1..], 0, limit));
    }
  }

  /** Bytes written behind those in the last chunk come last. */
  lemma {:induction false} QueueExtend(chunks: seq<seq<Byte>>, start: nat, limit: nat, last: seq<Byte>, n: nat)
    requires WellFormed(chunks, start, limit) && chunks != [] && limit + n <= CHUNK_SIZE && |last| == CHUNK_SIZE
    requires last[..limit] == chunks[|chunks| - 1][..limit]
    ensures WellFormed(chunks[|chunks| - 1 := last], start, limit + n)
    ensures Queue(chunks[|chunks| - 1 := last], start, limit + n) == Queue(chunks, start, limit) + last[limit..limit + n]
  {
    var chunks' := chunks[|chunks| - 1 := last];
    QueueFirst(chunks, start, limit);
    QueueFirst(chunks', start, limit + n);
    hide Queue;
    if |chunks| == 1 {
      SliceJoin(last, start, limit, limit + n);
      assert chunks[0][start..limit] == chunks[0][..limit][start..] == last[start..limit];
    } else {
      QueueExtend(chunks[1..], 0, limit, last, n);
      assert chunks'[1..] == chunks[1..][|chunks[1..]| - 1 := last];
      Associate(chunks[0][start..], Queue(chunks[1..], 0, limit), last[limit..limit + n]);
    }
  }

  /** A new chunk, nothing of which is written yet, adds nothing. */
  lemma {:induction false} QueueNewChunk(chunks: seq<seq<Byte>>, start: nat, added: seq<Byte>)
    requires chunks != [] && WellFormed(chunks, start, CHUNK_SIZE) && |added| == CHUNK_SIZE
    ensures WellFormed(chunks + [added], start, 0)
    ensures Queue(chunks + [added], start, 0) == Queue(chunks, start, CHUNK_SIZE)
  {
    var chunks' := chunks + [added];
    QueueFirst(chunks, start, CHUNK_SIZE);
    QueueFirst(chunks', start, 0);
    assert chunks'[1..] == chunks[1..] + [added];
    if |chunks| == 1 {
      assert chunks'[1..] == [added];
      QueueFirst([added], 0, 0);
      assert chunks[0][start..] == chunks[0][start..CHUNK_SIZE];
    } else {
      QueueNewChunk(chunks[1..], 0, added);
    }
  }

  /** What the stream answers to one operation: it takes all bytes, and it does not go back. */
  ghost predicate StreamAnswers(l: Ledger, op: Operation, answer: Answer) {
    match op
    case WriteBytes(bytes) => answer == Wrote(|bytes|)
    case ReadBytes(_) => answer.Got?
    case PeekBytes(_) => answer.Got?
    case DiscardBytes(count) => answer == if count + l.taken <= |l.log| then Done else Failed
    case _ => false
  }

  predicate Offered(op: Operation) {
    !op.ReadAgain? && !op.CopyAgain?
  }

  class AllocatingMemoryStream {
    /** The chunks from the head to the tail. */
    var chunks: seq<array<Byte>>
    var headReadOffset: nat
    var tailWriteOffset: nat
    var usedBufferSize: nat

    /** What the chunks hold. */
    ghost var memory: seq<seq<Byte>>

    ghost predicate Mirror()
      reads this, chunks
    {
      |memory| == |chunks| &&
      (forall i :: 0 <= i < |chunks| ==> chunks[i].Length == CHUNK_SIZE && chunks[i][..] == memory[i]) &&
      forall i, j :: 0 <= i < j < |chunks| ==> chunks[i] != chunks[j]
    }

    ghost predicate Valid()
      reads this, chunks
    {
      Mirror() && WellFormed(memory, headReadOffset, tailWriteOffset) && usedBufferSize == |Contents()|
    }

    ghost function Contents(): seq<Byte>
      requires WellFormed(memory, headReadOffset, tailWriteOffset)
      reads this
    {
      Queue(memory, headReadOffset, tailWriteOffset)
    }

    constructor ()
      ensures Valid() && Contents() == [] && chunks == []
    {
      chunks, memory, headReadOffset, tailWriteOffset, usedBufferSize := [], [], 0, 0, 0;
      new;
      QueueFirst([], 0, 0);
    }

    /** Where the written part of the head chunk ends. */
    function HeadEnd(): (end: nat)
      requires |chunks| > 0
      reads this
    {
      if |chunks| == 1 then tailWriteOffset else CHUNK_SIZE
    }

    method AppendNewChunk()
      requires Valid() && (chunks == [] || tailWriteOffset == CHUNK_SIZE)
      modifies this
      ensures Valid() && Contents() == old(Contents()) && |chunks| == |old(chunks)| + 1 && tailWriteOffset == 0
      ensures chunks[..|chunks| - 1] == old(chunks) && fresh(chunks[|chunks| - 1])
      ensures usedBufferSize == old(usedBufferSize) && headReadOffset == old(headReadOffset)
    {
      hide Queue;
      var chunk := new Byte[CHUNK_SIZE](_ => 0);
      if chunks == [] {
        QueueFirst([], 0, 0);
        QueueFirst([chunk[..]], 0, 0);
        assert memory == [] && memory + [chunk[..]] == [chunk[..]];
      } else {
        QueueNewChunk(memory, headReadOffset, chunk[..]);
      }
      chunks := chunks + [chunk];
      memory := memory + [chunk[..]];
      tailWriteOffset := 0;
    }

    method PopHeadChunk()
      requires Mirror() && WellFormed(memory, headReadOffset, tailWriteOffset) && |chunks| > 0
      requires headReadOffset == HeadEnd()
      modifies this
      ensures Mirror() && WellFormed(memory, headReadOffset, tailWriteOffset) && Contents() == old(Contents())
      ensures chunks == old(chunks)[1..] && usedBufferSize == old(usedBufferSize)
    {
      hide Queue;
      QueueFirst(memory, headReadOffset, tailWriteOffset);
      QueueFirst([], 0, 0);
      if |chunks| == 1 {
        chunks, memory, tailWriteOffset := [], [], 0;
      } else {
        chunks, memory := chunks[1..], memory[1..];
      }
      headReadOffset := 0;
    }

    /** Steps over bytes of the head chunk, and drops the chunk when nothing of it is left. */
    method Consume(n: nat)
      requires Valid() && |chunks| > 0 && headReadOffset + n <= HeadEnd()
      modifies this
      ensures Valid() && n <= |old(Contents())| && Contents() == old(Contents())[n..]
      ensures usedBufferSize == old(usedBufferSize) - n
      ensures old(Contents())[..n] == old(memory)[0][old(headReadOffset)..old(headReadOffset) + n]
      ensures n == HeadLeft(old(|chunks|), old(headReadOffset), old(tailWriteOffset)) ==> |chunks| < |old(chunks)|
      ensures n < HeadLeft(old(|chunks|), old(headReadOffset), old(tailWriteOffset)) ==> chunks == old(chunks)
      ensures forall c :: c in chunks ==> c in old(chunks)
    {
      hide Queue;
      QueueAdvance(memory, headReadOffset, tailWriteOffset, n);
      ghost var piece := memory[0][headReadOffset..headReadOffset + n];
      var end := HeadEnd();
      headReadOffset := headReadOffset + n;
      usedBufferSize := usedBufferSize - n;
      if headReadOffset == end {
        PopHeadChunk();
      }
    }

    static ghost function HeadLeft(count: nat, start: nat, limit: nat): int {
      (if count == 1 then limit else CHUNK_SIZE) - start
    }

    /** Appends all the bytes. */
    method WriteSome(bytes: seq<Byte>) returns (written: nat)
      requires Valid()
      modifies this, chunks
      ensures Valid() && written == |bytes| && Contents() == old(Contents()) + bytes
      ensures forall c :: c in chunks ==> c in old(chunks) || fresh(c)
    {
      hide Queue, WellFormed;
      ghost var before, old_chunks := Contents(), chunks;
      written := 0;
      while written < |bytes|
        invariant 0 <= written <= |bytes| && Valid() && Contents() == before + bytes[..written]
        invariant forall c :: c in chunks ==> c in old_chunks || fresh(c)
      {
        if |chunks| == 0 || tailWriteOffset == CHUNK_SIZE {
          AppendNewChunk();
        }
        TailRoom();
        assert chunks[|chunks| - 1] in chunks;
        var n := Min(|bytes| - written, CHUNK_SIZE - tailWriteOffset);
        CopyToTail(bytes[written..written + n]);
        assert bytes[..written + n] == bytes[..written] + bytes[written..written + n];
        written := written + n;
      }
      assert bytes[..|bytes|] == bytes;
    }

    lemma TailRoom()
      requires WellFormed(memory, headReadOffset, tailWriteOffset)
      ensures tailWriteOffset <= CHUNK_SIZE
    {}

    method CopyToTail(piece: seq<Byte>)
      requires Valid() && |chunks| > 0 && tailWriteOffset + |piece| <= CHUNK_SIZE
      modifies this, chunks[|chunks| - 1]
      ensures Valid() && Contents() == old(Contents()) + piece && chunks == old(chunks)
      ensures tailWriteOffset == old(tailWriteOffset) + |piece|
    {
      hide Queue;
      var tail := chunks[|chunks| - 1];
      ghost var before := tail[..];
      for i := 0 to |piece|
        invariant chunks == old(chunks) && tailWriteOffset == old(tailWriteOffset)
        invariant forall k :: 0 <= k < i ==> tail[tailWriteOffset + k] == piece[k]
        invariant tail[..tailWriteOffset] == before[..tailWriteOffset]
        modifies tail
      {
        tail[tailWriteOffset + i] := piece[i];
      }
      assert tail[..][tailWriteOffset..tailWriteOffset + |piece|] == piece;
      QueueExtend(memory, headReadOffset, tailWriteOffset, tail[..], |piece|);
      memory := memory[|memory| - 1 := tail[..]];
      tailWriteOffset := tailWriteOffset + |piece|;
      usedBufferSize := usedBufferSize + |piece|;
    }

    /** Takes bytes, the oldest first, until the target is full or none are left. */
    method ReadSome(target: array<Byte>) returns (n: nat)
      requires Valid() && target !in chunks
      modifies this, target
      ensures Valid() && n == Min(target.Length, |old(Contents())|)
      ensures target[..n] == old(Contents())[..n] && Contents() == old(Contents())[n..]
      ensures target[n..] == old(target[n..])
      ensures forall c :: c in chunks ==> c in old(chunks)
    {
      hide Queue, WellFormed;
      ghost var before := Contents();
      n := 0;
      while n < target.Length && |chunks| > 0
        invariant 0 <= n <= target.Length && n <= |before| && Valid() && target !in chunks
        invariant target[..n] == before[..n] && Contents() == before[n..] && target[n..] == old(target[n..])
        invariant forall c :: c in chunks ==> c in old(chunks)
        decreases |chunks|, target.Length - n
      {
        HeadBounds();
        var copied := Min(HeadEnd() - headReadOffset, target.Length - n);
        ghost var piece := memory[0][headReadOffset..headReadOffset + copied];
        CopyOut(0, headReadOffset, target, n, copied);
        Consume(copied);
        assert before[n..][..copied] == piece && before[n..][copied..] == before[n + copied..];
        assert before[..n + copied] == before[..n] + before[n..][..copied];
        assert old(target[n..])[copied..] == old(target[n + copied..]);
        n := n + copied;
      }
      if |chunks| == 0 {
        EmptyQueue();
      }
    }

    lemma HeadBounds()
      requires WellFormed(memory, headReadOffset, tailWriteOffset) && |chunks| == |memory| && |chunks| > 0
      ensures headReadOffset <= HeadEnd() <= CHUNK_SIZE
    {}

    lemma EmptyQueue()
      requires Valid() && chunks == []
      ensures Contents() == []
    {
      QueueFirst(memory, headReadOffset, tailWriteOffset);
    }

    /** Copies bytes of one chunk. */
    method CopyOut(chunk: nat, from: nat, target: array<Byte>, at: nat, n: nat)
      requires Mirror() && chunk < |chunks| && target !in chunks && at + n <= target.Length && from + n <= CHUNK_SIZE
      modifies target
      ensures target[..at + n] == old(target[..at]) + memory[chunk][from..from + n]
      ensures target[at + n..] == old(target[at + n..])
    {
      ghost var piece := memory[chunk][from..from + n];
      for i := 0 to n
        invariant target[..at + i] == old(target[..at]) + piece[..i] && Mirror()
        invariant target[at + i..] == old(target[at + i..])
      {
        assert chunks[chunk][from + i] == chunks[chunk][..][from + i] == piece[i];
        target[at + i] := chunks[chunk][from + i];
        assert piece[..i + 1] == piece[..i] + [piece[i]];
        assert target[at + i + 1..] == old(target[at + i..])[1..] == old(target[at + i + 1..]);
      }
      assert piece[..n] == piece;
    }

    /** Copies what fits of the written part of a chunk, which holds the bytes that follow those copied before. */
    method PeekChunk(chunk: nat, from: nat, end: nat, target: array<Byte>, at: nat, ghost contents: seq<Byte>,
                     ghost before: seq<Byte>)
      returns (copied: nat)
      requires Mirror() && chunk < |chunks| && target !in chunks && from <= end <= CHUNK_SIZE && at <= target.Length
      requires at + (end - from) <= |contents| && contents[at..at + (end - from)] == memory[chunk][from..end]
      requires |before| == target.Length && target[..at] == contents[..at] && target[at..] == before[at..]
      modifies target
      ensures copied == Min(end - from, target.Length - at) && at + copied <= |contents|
      ensures target[..at + copied] == contents[..at + copied] && target[at + copied..] == before[at + copied..]
    {
      copied := Min(end - from, target.Length - at);
      PieceCopied(contents, at, memory[chunk][from..end], copied);
      SliceWithin(memory[chunk], from, end, 0, copied);
      assert memory[chunk][from..end][0..copied] == memory[chunk][from..end][..copied];
      CopyOut(chunk, from, target, at, copied);
      assert old(target[at..])[copied..] == old(target[at + copied..]) && before[at..][copied..] == before[at + copied..];
    }

    /** Copies the oldest bytes and leaves them in the stream. */
    method PeekSome(target: array<Byte>)
      requires Valid() && target !in chunks
      modifies target
      ensures Valid() && Contents() == old(Contents())
      ensures var n := Min(target.Length, |Contents()|);
              target[..n] == Contents()[..n] && target[n..] == old(target[n..])
    {
      hide Queue, WellFormed, Spans, Joined;
      ghost var contents, spans := Contents(), Spans(memory, headReadOffset, tailWriteOffset);
      QueueJoined(memory, headReadOffset, tailWriteOffset);
      ghost var before := target[..];
      var readBytes, i, chunkOffset := 0, 0, headReadOffset;
      assert spans[0..] == spans && contents[0..] == contents;
      while i < |chunks| && readBytes < target.Length
        invariant i <= |chunks| && 0 <= readBytes <= target.Length && readBytes <= |contents|
        invariant Mirror() && WellFormed(memory, headReadOffset, tailWriteOffset) && Contents() == contents
        invariant chunkOffset == if i == 0 then headReadOffset else 0
        invariant target[..readBytes] == contents[..readBytes] && target[readBytes..] == before[readBytes..]
        invariant Joined(spans[i..]) == contents[readBytes..]
      {
        var end := if i == |chunks| - 1 then tailWriteOffset else CHUNK_SIZE;
        SpanAt(memory, headReadOffset, tailWriteOffset, i);
        NextSpan(spans, i, contents, readBytes);
        var copied := PeekChunk(i, chunkOffset, end, target, readBytes, contents, before);
        readBytes := readBytes + copied;
        if copied < end - chunkOffset {
          break;
        }
        i, chunkOffset := i + 1, 0;
      }
      if readBytes < target.Length {
        NoSpansLeft(spans);
      }
    }

    /** Drops the oldest bytes, or refuses when there are not as many. */
    method Discard(count0: nat) returns (result: Result<()>)
      requires Valid()
      modifies this
      ensures Valid() && result.Ok? == (count0 <= |old(Contents())|)
      ensures Contents() == old(Contents())[if result.Ok? then count0 else 0..]
      ensures forall c :: c in chunks ==> c in old(chunks)
    {
      hide Queue, WellFormed;
      ghost var before := Contents();
      if count0 > usedBufferSize {
        return Error("Number of discarded bytes is higher than the number of allocated bytes");
      }
      var count := count0;
      while count > 0
        invariant 0 <= count <= count0 <= |before| && Valid() && Contents() == before[count0 - count..]
        invariant forall c :: c in chunks ==> c in old(chunks)
        decreases |chunks|, count
      {
        if |chunks| == 0 {
          EmptyQueue();
        }
        HeadBounds();
        var toConsume := Min(HeadEnd() - headReadOffset, count);
        Consume(toConsume);
        assert before[count0 - count..][toConsume..] == before[count0 - count + toConsume..];
        count := count - toConsume;
      }
      return Ok(());
    }

    /** The first place of some bytes among those not yet read. */
    method OffsetOf(needle: seq<Byte>) returns (r: Option<nat>)
      requires Valid() && |needle| > 0
      ensures IsFirst(Contents(), needle, r)
    {
      if |chunks| == 0 {
        EmptyQueue();
        return None;
      }
      var searchSpans: seq<seq<Byte>> := [];
      for i := 0 to |chunks|
        invariant searchSpans == Spans(memory, headReadOffset, tailWriteOffset)[..i]
      {
        var start := if i == 0 then headReadOffset else 0;
        var end := if i == |chunks| - 1 then tailWriteOffset else CHUNK_SIZE;
        SpanAt(memory, headReadOffset, tailWriteOffset, i);
        assert chunks[i][..] == memory[i];
        searchSpans := searchSpans + [chunks[i][start..end]];
      }
      assert searchSpans == Spans(memory, headReadOffset, tailWriteOffset);
      r := Memmem(searchSpans, needle);
    }

    /** The bytes in the stream are those written and not yet taken. */
    ghost predicate Shows(l: Ledger)
      requires WellFormed(memory, headReadOffset, tailWriteOffset)
      reads this
    {
      l.taken <= |l.log| && Contents() == Waiting(l)
    }

    /** One operation of a run. */
    method Execute(op: Operation, ghost l: Ledger) returns (answer: Answer, ghost next: Ledger)
      requires Valid() && Shows(l) && Offered(op)
      modifies this, chunks
      ensures IsStep(l, op, answer, next) && StreamAnswers(l, op, answer) && Valid() && Shows(next)
      ensures forall c :: c in chunks ==> c in old(chunks) || fresh(c)
    {
      hide Queue, WellFormed;
      next := l;
      match op {
        case WriteBytes(bytes) =>
          var n := WriteSome(bytes);
          next := Ledger(l.log + bytes, l.taken);
          answer := Wrote(n);
        case ReadBytes(count) =>
          var target := new Byte[count](_ => 0);
          var n := ReadSome(target);
          next := Ledger(l.log, l.taken + n);
          answer := Got(target[..n]);
        case PeekBytes(count) =>
          var target := new Byte[count](_ => 0);
          PeekSome(target);
          answer := Got(target[..Min(count, usedBufferSize)]);
        case DiscardBytes(count) =>
          var result := Discard(count);
          answer := Failed;
          if result.Ok? {
            next := Ledger(l.log, l.taken + count);
            answer := Done;
          }
      }
    }

    /** Any run of operations on an empty stream is a run on a log: first in, first out. */
    method Run(ops: seq<Operation>) returns (answers: seq<Answer>, ghost ledgers: seq<Ledger>)
      requires Valid() && Contents() == [] && forall op :: op in ops ==> Offered(op)
      modifies this, chunks
      ensures IsRun(ledgers, ops, answers) && |answers| == |ops| && Valid() && Shows(ledgers[|ops|])
      ensures forall i :: 0 <= i < |ops| ==> StreamAnswers(ledgers[i], ops[i], answers[i])
    {
      hide Queue, WellFormed, IsStep, StreamAnswers;
      ghost var first := chunks;
      answers, ledgers := [], [Ledger([], 0)];
      for i := 0 to |ops|
        invariant |answers| == i && IsRun(ledgers, ops, answers) && Valid() && Shows(ledgers[i])
        invariant forall k :: 0 <= k < i ==> StreamAnswers(ledgers[k], ops[k], answers[k])
        invariant forall c :: c in chunks ==> c in first || fresh(c)
      {
        assert forall k :: 0 <= k < |chunks| ==> chunks[k] in first || fresh(chunks[k]);
        var answer, next := Execute(ops[i], ledgers[i]);
        answers, ledgers := answers + [answer], ledgers + [next];
      }
    }
  }

  /** The unread bytes from a place on start with those of the next span. */
  lemma NextSpan(spans: seq<seq<Byte>>, i: nat, contents: seq<Byte>, at: nat)
    requires i < |spans| && at <= |contents| && Joined(spans[i..]) == contents[at..]
    ensures at + |spans[i]| <= |contents| && contents[at..at + |spans[i]|] == spans[i]
    ensures Joined(spans[i + 1..]) == contents[at + |spans[i]|..]
  {
    var rest := spans[i + 1..];
    assert spans[i..] == [spans[i]] + rest;
    assert contents[at..] == spans[i] + Joined(rest);
    assert contents[at..][..|spans[i]|] == spans[i] && contents[at..][|spans[i]|..] == Joined(rest);
  }

  lemma PieceCopied(contents: seq<Byte>, at: nat, span: seq<Byte>, n: nat)
    requires n <= |span| && at + |span| <= |contents| && contents[at..at + |span|] == span
    ensures contents[..at + n] == contents[..at] + span[..n]
  {
    assert contents[at..at + n] == contents[at..at + |span|][..n];
  }

  lemma NoSpansLeft(spans: seq<seq<Byte>>)
    ensures Joined(spans[|spans|..]) == []
  {}

  lemma {:induction false} SpanAt(chunks: seq<seq<Byte>>, start: nat, limit: nat, i: nat)
    requires WellFormed(chunks, start, limit) && i < |chunks|
    ensures var first, end := if i == 0 then start else 0, if i == |chunks| - 1 then limit else CHUNK_SIZE;
            first <= end <= |chunks[i]| && Spans(chunks, start, limit)[i] == chunks[i][first..end]
  {
    if i > 0 {
      SpanAt(chunks[1..], 0, limit, i - 1);
    }
  }
}
