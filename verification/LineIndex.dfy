/**
 The line index of the line-tracking lexer: line starts are found on demand and kept in a red-black tree; inside the
 input the answers are those of counting newlines from the start. At its end they are exactly when the input is empty
 or ends with a newline, as long as nobody has asked for a place behind the end; without a final newline they never are.
 */
module LineIndex {
  import opened TreeShapes
  import opened TreeOrder
  import opened TreeBalance
  import opened RedBlackTrees

  datatype Position = Position(offset: nat, line: nat, column: nat)

  // ----- The plain scan -----

  ghost function CountNewlines(s: string): nat {
    if s == "" then 0 else CountNewlines(s[..|s| - 1]) + if s[|s| - 1] == '\n' then 1 else 0
  }

  /** Where the line starts that contains the place behind s. */
  ghost function LineStart(s: string): (start: nat)
    ensures start <= |s|
  {
    if s == "" then 0 else if s[|s| - 1] == '\n' then |s| else LineStart(s[..|s| - 1])
  }

  /** Line and column of an index by counting; the first line may start at another position. */
  ghost function PlainPosition(input: string, first: Position, index: nat): Position
    requires index <= |input|
  {
    var newlines, start := CountNewlines(input[..index]), LineStart(input[..index]);
    Position(index, newlines + first.line, index - start + if newlines == 0 then first.column else 0)
  }

  /** In the first line the columns go on from where it starts. */
  lemma FirstLinePosition(input: string, first: Position, index: nat)
    requires index <= |input| && NoNewline(input, 0, index)
    ensures PlainPosition(input, first, index) == Position(index, first.line, first.column + index)
  {
    assert input[..0] == "";
    ScanWithoutNewline(input, 0, index);
  }

  /** Behind a newline the columns start again, one line further on. */
  lemma NextLinePosition(input: string, first: Position, newline: nat, index: nat)
    requires newline < index <= |input| && input[newline] == '\n' && NoNewline(input, newline + 1, index)
    ensures PlainPosition(input, first, index) ==
            Position(index, PlainPosition(input, first, newline).line + 1, index - newline - 1)
  {
    ScanNewline(input, newline);
    ScanWithoutNewline(input, newline + 1, index);
  }

  predicate EndsWithNewline(input: string) {
    input != "" && input[|input| - 1] == '\n'
  }

  ghost predicate NoNewline(input: string, from: int, end: int) {
    forall k :: from <= k < end && 0 <= k < |input| ==> input[k] != '\n'
  }

  lemma {:induction false} ScanWithoutNewline(input: string, from: nat, end: nat)
    requires from <= end <= |input| && NoNewline(input, from, end) && LineStart(input[..from]) == from
    ensures CountNewlines(input[..end]) == CountNewlines(input[..from]) && LineStart(input[..end]) == from
    decreases end - from
  {
    if from < end {
      assert input[..end][..end - 1] == input[..end - 1];
      ScanWithoutNewline(input, from, end - 1);
    }
  }

  lemma ScanNewline(input: string, at: nat)
    requires at < |input| && input[at] == '\n'
    ensures CountNewlines(input[..at + 1]) == CountNewlines(input[..at]) + 1 && LineStart(input[..at + 1]) == at + 1
  {
    assert input[..at + 1][..at] == input[..at];
  }

  // ----- The line starts in the tree -----

  /** The line start after a is b, or b is the end of the input when no newline follows. */
  ghost predicate NextStart(input: string, a: int, b: int) {
    0 <= a <= b <= |input| && NoNewline(input, a, b - 1) &&
    ((a < b && input[b - 1] == '\n') || (b == |input| && NoNewline(input, a, b)))
  }

  /** The nodes are the first line starts, numbered from 0. */
  ghost predicate Indexed(input: string, order: seq<Node>, largest: int) {
    |order| >= 1 && order[0].key == 0 && order[|order| - 1].key == largest &&
    (forall i :: 0 <= i < |order| ==> order[i].value == i) &&
    forall i :: 0 < i < |order| ==> NextStart(input, order[i - 1].key, order[i].key)
  }

  /** Up to the line start number i the scan counts i newlines. */
  lemma {:induction false} ScanToStart(input: string, order: seq<Node>, largest: int, i: nat)
    requires Indexed(input, order, largest) && i < |order| && order[i].key < |input|
    ensures 0 <= order[i].key && CountNewlines(input[..order[i].key]) == i && LineStart(input[..order[i].key]) == order[i].key
    ensures i > 0 ==> order[i - 1].key < order[i].key
  {
    if i > 0 {
      assert NextStart(input, order[i - 1].key, order[i].key);
      ScanToStart(input, order, largest, i - 1);
      ScanWithoutNewline(input, order[i - 1].key, order[i].key - 1);
      ScanNewline(input, order[i].key - 1);
    }
  }

  /** The largest line start that is not above an index inside the input is the start of its line. */
  lemma AnswerAgrees(input: string, order: seq<Node>, largest: int, index: nat, r: Node)
    requires Indexed(input, order, largest) && index < |input| && index <= largest
    requires LargestNotAbove(order, index, r)
    ensures r.value == CountNewlines(input[..index]) && r.key == LineStart(input[..index])
  {
    var i :| 0 <= i < |order| && order[i] == r;
    ScanToStart(input, order, largest, i);
    if i + 1 < |order| {
      assert NextStart(input, order[i].key, order[i + 1].key);
      assert order[i + 1].key > index;
    }
    assert NoNewline(input, order[i].key, index);
    ScanWithoutNewline(input, order[i].key, index);
  }

  /** No line start is listed twice. */
  ghost predicate Rising(order: seq<Node>) {
    forall i :: 0 < i < |order| ==> order[i - 1].key < order[i].key
  }

  /** The end of the input counts as a line start, also when no newline stands before it. */
  lemma EndCounts(input: string, order: seq<Node>, largest: int)
    requires Indexed(input, order, largest) && Rising(order) && largest == |input| > 0
    ensures |order| >= 2
    ensures EndsWithNewline(input) ==> CountNewlines(input) == |order| - 1 && LineStart(input) == |input|
    ensures !EndsWithNewline(input) ==> CountNewlines(input) == |order| - 2 && LineStart(input) < |input|
  {
    var n := |order| - 1;
    assert NextStart(input, order[n - 1].key, order[n].key);
    var before := order[n - 1].key;
    ScanToStart(input, order, largest, n - 1);
    assert input[..|input|] == input;
    if EndsWithNewline(input) {
      ScanWithoutNewline(input, before, |input| - 1);
      ScanNewline(input, |input| - 1);
    } else {
      ScanWithoutNewline(input, before, |input|);
    }
  }

  /** The answer for the end of the input is the last node. */
  lemma EndAnswer(input: string, order: seq<Node>, largest: int, r: Node)
    requires Indexed(input, order, largest) && Rising(order) && largest == |input| > 0 && LargestNotAbove(order, |input|, r)
    ensures r.key == |input| && r.value == |order| - 1
  {
    var k :| 0 <= k < |order| && order[k] == r;
    forall i | 0 <= i < |order| ensures order[i].key <= largest {
      KeysRise(input, order, largest, i);
    }
    forall i | 0 <= i < |order| - 1 ensures order[i].key < largest {
      assert order[i + 1 - 1].key < order[i + 1].key;
    }
  }

  /** Behind the end the last node answers, whether or not its key is listed before. */
  lemma BehindAnswer(input: string, order: seq<Node>, largest: int, index: nat, r: Node)
    requires Indexed(input, order, largest) && largest == |input| < index && LargestNotAbove(order, index, r)
    ensures r.key == |input| && r.value == |order| - 1
  {
    KeysRise(input, order, largest, |order| - 1);
    assert order[|order| - 1].key == largest;
    forall k | 0 <= k < |order| ensures order[k].key <= largest {
      KeysRise(input, order, largest, k);
    }
    assert IsLastNotAbove(order, index, r);
  }

  /** At the end some node with that key answers. */
  lemma SomeEndAnswer(input: string, order: seq<Node>, largest: int, r: Node)
    requires Indexed(input, order, largest) && largest == |input| && LargestNotAbove(order, |input|, r)
    ensures exists k :: 0 <= k < |order| && order[k] == r && r.key == |input| && r.value == k
  {
    var k :| 0 <= k < |order| && order[k] == r;
    KeysRise(input, order, largest, k);
  }

  lemma PlainAb(first: Position)
    ensures CountNewlines("ab") == 0 && !EndsWithNewline("ab")
    ensures PlainPosition("ab", first, 2) == Position(2, first.line, first.column + 2)
  {
    assert "ab"[..2] == "ab" && "ab"[..1] == "a" && "a"[..0] == "";
    assert CountNewlines("a") == 0 && LineStart("a") == 0;
  }

  lemma RisingOn(order: seq<Node>, n: Node, largest: int)
    requires Rising(order) && order != [] && order[|order| - 1].key == largest < n.key
    ensures Rising(order + [n])
  {
    forall i | 0 < i < |order + [n]| ensures (order + [n])[i - 1].key < (order + [n])[i].key {
      assert i < |order| ==> order[i - 1].key < order[i].key;
    }
  }

  lemma {:induction false} KeysRise(input: string, order: seq<Node>, largest: int, i: nat)
    requires Indexed(input, order, largest) && i < |order|
    ensures order[i].key <= largest && largest >= 0
    decreases |order| - i
  {
    if i > 0 {
      assert NextStart(input, order[i - 1].key, order[i].key);
    }
    if i + 1 < |order| {
      KeysRise(input, order, largest, i + 1);
      assert NextStart(input, order[i].key, order[i + 1].key);
    }
  }

  /** A new line start comes last. */
  lemma StartAppended(input: string, order: seq<Node>, largest: int, n: Node)
    requires Indexed(input, order, largest) && n.value == |order| && NextStart(input, largest, n.key)
    ensures Inserted(order, n) == order + [n] && Indexed(input, order + [n], n.key) && 0 <= n.key <= |input|
  {
    forall k | 0 <= k < |order| ensures order[k].key <= n.key {
      KeysRise(input, order, largest, k);
    }
    InsertedAt(order, n, []);
    assert order + [] == order && order + [n] + [] == order + [n];
  }

  method FindNewline(input: string, start: nat) returns (at: nat)
    requires start <= |input|
    ensures start <= at <= |input| && NoNewline(input, start, at) && (at < |input| ==> input[at] == '\n')
  {
    at := start;
    while at < |input| && input[at] != '\n'
      invariant start <= at <= |input| && NoNewline(input, start, at)
    {
      at := at + 1;
    }
  }

  class LineTrackingLexer {
    const input: string
    const firstLineStartPosition: Position
    const lineStartPositions: RedBlackTree
    var largestKnownLineStartPosition: nat

    ghost predicate Valid()
      reads this, lineStartPositions, lineStartPositions.mem.Keys
    {
      lineStartPositions.Valid() && largestKnownLineStartPosition <= |input| &&
      Indexed(input, lineStartPositions.Contents(), largestKnownLineStartPosition)
    }

    /**
     What holds at first and stays so until somebody asks for a place behind the end while that is in the tree: the
     line starts are listed once, except that an empty input has the same start twice.
     */
    ghost predicate Untouched()
      reads this, lineStartPositions, lineStartPositions.mem.Keys
    {
      var order := lineStartPositions.Contents();
      if input == "" then |order| == 2 && lineStartPositions.root == order[0] else Rising(order)
    }

    constructor (input: string, startPosition: Position)
      ensures Valid() && this.input == input && firstLineStartPosition == startPosition
      ensures Untouched()
      ensures fresh(lineStartPositions) && fresh(lineStartPositions.mem.Keys)
    {
      this.input, firstLineStartPosition := input, startPosition;
      lineStartPositions := new RedBlackTree();
      largestKnownLineStartPosition := 0;
      new;
      var first := new Node(0, 0);
      lineStartPositions.Insert(first);
      assert Inserted([], first) == [first];
      lineStartPositions.OnlyNode(first);
      var newline := FindNewline(input, 0);
      AddLineStart(if newline < |input| then newline + 1 else |input|);
    }

    /** Inserts the next line start, or the end of the input. */
    method AddLineStart(position: nat)
      requires Valid() && NextStart(input, largestKnownLineStartPosition, position)
      modifies this, lineStartPositions, lineStartPositions.mem.Keys
      ensures Valid() && largestKnownLineStartPosition == position
      ensures var order := old(lineStartPositions.Contents());
              |lineStartPositions.Contents()| == |order| + 1 && lineStartPositions.Contents()[..|order|] == order
      ensures position > old(largestKnownLineStartPosition) && old(Rising(lineStartPositions.Contents())) ==>
                Rising(lineStartPositions.Contents())
      ensures |old(lineStartPositions.Contents())| == 1 ==> lineStartPositions.root == old(lineStartPositions.root)
      ensures fresh(lineStartPositions.mem.Keys - old(lineStartPositions.mem.Keys))
    {
      hide Inserted, LargestNotAbove, NextStart, Rising;
      ghost var order := lineStartPositions.Contents();
      var node := new Node(position, lineStartPositions.size);
      StartAppended(input, order, largestKnownLineStartPosition, node);
      if position > largestKnownLineStartPosition && Rising(order) {
        RisingOn(order, node, largestKnownLineStartPosition);
      }
      hide Indexed;
      lineStartPositions.Insert(node);
      largestKnownLineStartPosition := position;
    }

    /** Looks for line starts until one is not before the index, or the end is listed. */
    method Extend(index: nat)
      requires Valid()
      modifies this, lineStartPositions, lineStartPositions.mem.Keys
      ensures Valid() && (index <= largestKnownLineStartPosition || largestKnownLineStartPosition == |input|)
      ensures index <= |input| && old(Untouched()) ==> Untouched()
      ensures index > |input| ==> |lineStartPositions.Contents()| > |old(lineStartPositions.Contents())|
      ensures fresh(lineStartPositions.mem.Keys - old(lineStartPositions.mem.Keys))
    {
      hide Indexed, Inserted, LargestNotAbove, Rising;
      ghost var keys, n := lineStartPositions.mem.Keys, |lineStartPositions.Contents()|;
      while index > largestKnownLineStartPosition
        invariant Valid() && fresh(lineStartPositions.mem.Keys - keys) && |lineStartPositions.Contents()| >= n
        invariant index <= |input| && old(Untouched()) ==> Untouched()
        decreases |input| - largestKnownLineStartPosition
      {
        var nextNewline := FindNewline(input, largestKnownLineStartPosition);
        if nextNewline == |input| {
          AddLineStart(|input|);
          break;
        }
        AddLineStart(nextNewline + 1);
      }
    }

    /**
     Line and column of an index; what is not known yet is looked for first. Inside the input they are those of the
     plain scan. At the end of an input that does not end with a newline, the end counts as the start of one more
     line, so that the answer is never that of the scan, whatever has been asked before. Every question for a place behind the end adds a line start there: the answer is the line of the last one,
     and from then on the end itself is answered with one of them.
     */
    method PositionFor(index: nat) returns (position: Position)
      requires Valid()
      modifies this, lineStartPositions, lineStartPositions.mem.Keys
      ensures Valid() && position.offset == index
      ensures fresh(lineStartPositions.mem.Keys - old(lineStartPositions.mem.Keys))
      ensures index < |input| ==> position == PlainPosition(input, firstLineStartPosition, index)
      ensures index <= |input| && old(Untouched()) ==> Untouched()
      ensures index == |input| && old(Untouched()) ==>
                (position == PlainPosition(input, firstLineStartPosition, index) <==> input == "" || EndsWithNewline(input)) &&
                (input != "" && !EndsWithNewline(input) ==>
                   position == Position(index, CountNewlines(input) + 1 + firstLineStartPosition.line, 0))
      ensures index == |input| && input != "" ==>
                exists k :: 0 < k < |lineStartPositions.Contents()| && lineStartPositions.Contents()[k].key == |input| &&
                            position == Position(index, k + firstLineStartPosition.line, 0)
      ensures index == |input| && input != "" && !EndsWithNewline(input) ==>
                position != PlainPosition(input, firstLineStartPosition, index)
      ensures index > |input| ==>
                |lineStartPositions.Contents()| > |old(lineStartPositions.Contents())| &&
                position == Position(index, |lineStartPositions.Contents()| - 1 + firstLineStartPosition.line, index - |input|)
    {
      hide Indexed, Inserted, LargestNotAbove, CountNewlines, LineStart, Rising;
      SomeStart(input, lineStartPositions.Contents(), largestKnownLineStartPosition);
      Extend(index);
      ghost var order, largest := lineStartPositions.Contents(), largestKnownLineStartPosition;
      var previousLine := lineStartPositions.FindLargestNotAbove(index);
      StartsAtZero(input, order, largest, index, previousLine);
      var line := previousLine.value;
      var column := index - previousLine.key;
      if index < |input| {
        AnswerAgrees(input, order, largest, index, previousLine);
      } else if index > |input| {
        BehindAnswer(input, order, largest, index, previousLine);
      } else {
        EndAnswers(order, largest, previousLine);
      }
      if line == 0 {
        column := column + firstLineStartPosition.column;
      }
      line := line + firstLineStartPosition.line;
      return Position(index, line, column);
    }

    /** The answers for the end of the input. */
    lemma EndAnswers(order: seq<Node>, largest: int, r: Node)
      requires Valid() && order == lineStartPositions.Contents() && largest == largestKnownLineStartPosition == |input|
      requires LargestNotAbove(order, |input|, r)
      requires lineStartPositions.root != null && lineStartPositions.root.key == |input| ==> r == lineStartPositions.root
      ensures input != "" && !EndsWithNewline(input) ==> input[..|input|] == input && LineStart(input) < |input|
      ensures input != "" ==> exists k :: 0 < k < |order| && order[k].key == |input| && r.key == |input| && r.value == k
      ensures Untouched() && input == "" ==> r.key == 0 && r.value == 0 && CountNewlines(input) == 0 && LineStart(input) == 0
      ensures Untouched() && input != "" ==>
                input[..|input|] == input && r.key == |input| &&
                (EndsWithNewline(input) ==> r.value == CountNewlines(input) && LineStart(input) == |input|) &&
                (!EndsWithNewline(input) ==> r.value == CountNewlines(input) + 1)
    {
      SomeEndAnswer(input, order, largest, r);
      if input != "" && !EndsWithNewline(input) {
        assert LineStart(input) == LineStart(input[..|input| - 1]);
      }
      if Untouched() && input != "" {
        EndCounts(input, order, largest);
        EndAnswer(input, order, largest, r);
      }
    }
  }

  /** By counting, the end of "ab" is on the first line, in the third column; a new index answers the next line, column 0. */
  method AbAtItsEnd(first: Position) returns (position: Position)
    ensures position == Position(2, first.line + 1, 0)
    ensures PlainPosition("ab", first, 2) == Position(2, first.line, first.column + 2)
  {
    hide Rising, Indexed, LargestNotAbove, CountNewlines, LineStart, PlainPosition;
    var lexer := new LineTrackingLexer("ab", first);
    PlainAb(first);
    position := lexer.PositionFor(2);
  }

  lemma SomeStart(input: string, order: seq<Node>, largest: int)
    requires Indexed(input, order, largest)
    ensures |order| >= 1
  {}

  lemma StartsAtZero(input: string, order: seq<Node>, largest: int, index: nat, r: Node?)
    requires Indexed(input, order, largest) && LargestNotAbove(order, index, r)
    ensures r != null && r.key <= index && r.value >= 0
  {}
}
