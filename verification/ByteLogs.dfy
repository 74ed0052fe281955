/**
 Runs of operations on a queue of bytes, told as a log of all bytes written and how many of them have been taken out
 again: first in, first out, whatever else is asked in between.
 */
module ByteLogs {
  import opened Basics

  /** The bytes written so far, of which the first `taken` have been read or discarded. */
  datatype Ledger = Ledger(log: seq<Byte>, taken: nat)

  datatype Operation =
    | WriteBytes(bytes: seq<Byte>)
    | ReadBytes(count: nat)
    | PeekBytes(count: nat)
    | DiscardBytes(count: nat)
    | ReadAgain(distance: nat, count: nat)
    | CopyAgain(distance: nat, length: nat)

  /** What the caller sees: how many bytes were written, the bytes read, or that it went well, failed or ended the process. */
  datatype Answer = Wrote(count: nat) | Got(bytes: seq<Byte>) | Done | Failed | Halted

  /** From `from` on every byte is the one `distance` places before it. */
  ghost predicate Periodic(s: seq<Byte>, from: nat, distance: nat) {
    1 <= distance <= from && forall i :: from <= i < |s| ==> s[i] == s[i - distance]
  }

  /** The bytes still in the queue. */
  function Waiting(l: Ledger): seq<Byte>
    requires l.taken <= |l.log|
  {
    l.log[l.taken..]
  }

  function FirstOf(s: seq<Byte>, n: nat): seq<Byte> {
    s[..Min(n, |s|)]
  }

  /** The bytes that op appended, as many as the answer says. */
  ghost predicate Appends(l: Ledger, op: Operation, n: nat, l': Ledger) {
    l'.taken == l.taken && |l'.log| == |l.log| + n && l'.log[..|l.log|] == l.log &&
    match op
    case WriteBytes(bytes) => n <= |bytes| && l'.log[|l.log|..] == bytes[..n]
    case CopyAgain(distance, length) => n <= length && (n > 0 ==> Periodic(l'.log, |l.log|, distance))
    case _ => false
  }

  /** One operation, its answer, and the ledger before and after. */
  ghost predicate IsStep(l: Ledger, op: Operation, answer: Answer, l': Ledger) {
    l.taken <= |l.log| &&
    match answer
    case Wrote(n) => Appends(l, op, n, l')
    case Got(bytes) =>
      (match op
       case ReadBytes(count) => bytes == FirstOf(Waiting(l), count) && l' == Ledger(l.log, l.taken + |bytes|)
       case PeekBytes(count) => bytes == FirstOf(Waiting(l), count) && l' == l
       case ReadAgain(distance, count) =>
         distance <= |l.log| && bytes == FirstOf(l.log[|l.log| - distance..], count) && l' == l
       case _ => false)
    case Done => op.DiscardBytes? && op.count <= |Waiting(l)| && l' == Ledger(l.log, l.taken + op.count)
    case Failed => l' == l && (op.DiscardBytes? ==> op.count > |Waiting(l)|)
    case Halted => l' == l
  }

  ghost predicate IsRun(ledgers: seq<Ledger>, ops: seq<Operation>, answers: seq<Answer>) {
    |ledgers| == |answers| + 1 && |answers| <= |ops| && ledgers[0] == Ledger([], 0) &&
    forall i :: 0 <= i < |answers| ==> IsStep(ledgers[i], ops[i], answers[i], ledgers[i + 1])
  }

  /** How many bytes the answers report as written. */
  function Written(answers: seq<Answer>): nat {
    if answers == [] then 0
    else Written(answers[..|answers| - 1]) + match answers[|answers| - 1] case Wrote(n) => n case _ => 0
  }

  /** How many bytes have left the queue, read or discarded. */
  function Taken(ops: seq<Operation>, answers: seq<Answer>): nat
    requires |answers| <= |ops|
  {
    if answers == [] then 0
    else Taken(ops, answers[..|answers| - 1]) + TakenOnce(ops[|answers| - 1], answers[|answers| - 1])
  }

  function TakenOnce(op: Operation, answer: Answer): nat {
    match op
    case ReadBytes(_) => if answer.Got? then |answer.bytes| else 0
    case DiscardBytes(count) => if answer.Done? then count else 0
    case _ => 0
  }

  /** The answers up to any point tell how long the log is, and how much of it is taken. */
  lemma {:induction false} Counted(ledgers: seq<Ledger>, ops: seq<Operation>, answers: seq<Answer>, i: nat)
    requires IsRun(ledgers, ops, answers) && i <= |answers|
    ensures |ledgers[i].log| == Written(answers[..i]) && ledgers[i].taken == Taken(ops, answers[..i])
  {
    if i > 0 {
      Counted(ledgers, ops, answers, i - 1);
      assert answers[..i][..i - 1] == answers[..i - 1];
      assert IsStep(ledgers[i - 1], ops[i - 1], answers[i - 1], ledgers[i - 1 + 1]);
    }
  }

  /** The log only grows. */
  lemma {:induction false} Grows(ledgers: seq<Ledger>, ops: seq<Operation>, answers: seq<Answer>, i: nat, j: nat)
    requires IsRun(ledgers, ops, answers) && i <= j <= |answers|
    ensures ledgers[i].log <= ledgers[j].log && ledgers[i].taken <= ledgers[j].taken
    decreases j - i
  {
    if i < j {
      Grows(ledgers, ops, answers, i, j - 1);
      assert IsStep(ledgers[j - 1], ops[j - 1], answers[j - 1], ledgers[j - 1 + 1]);
    }
  }

  lemma {:induction false} NeverMoreThanWritten(ledgers: seq<Ledger>, ops: seq<Operation>, answers: seq<Answer>, i: nat)
    requires IsRun(ledgers, ops, answers) && i <= |answers|
    ensures ledgers[i].taken <= |ledgers[i].log|
  {
    if i > 0 {
      assert IsStep(ledgers[i - 1], ops[i - 1], answers[i - 1], ledgers[i - 1 + 1]);
    }
  }

  /** Where the bytes of one operation stand in the log, counted from what the answers before it report. */
  ghost predicate InPlace(log: seq<Byte>, op: Operation, answer: Answer, written: nat, taken: nat) {
    match answer
    case Wrote(n) =>
      written + n <= |log| &&
      (op.WriteBytes? ==> n <= |op.bytes| && log[written..written + n] == op.bytes[..n]) &&
      (op.CopyAgain? && n > 0 ==> Periodic(log[..written + n], written, op.distance))
    case Got(bytes) =>
      (op.ReadBytes? || op.PeekBytes? ==> taken + |bytes| <= written <= |log| && log[taken..taken + |bytes|] == bytes) &&
      (op.ReadAgain? ==>
         op.distance <= written && |bytes| <= op.distance && written <= |log| &&
         log[written - op.distance..written - op.distance + |bytes|] == bytes)
    case _ => true
  }

  lemma StepInPlace(l: Ledger, op: Operation, answer: Answer, l': Ledger, log: seq<Byte>)
    requires IsStep(l, op, answer, l') && l'.log <= log
    ensures InPlace(log, op, answer, |l.log|, l.taken)
  {
    assert log[..|l'.log|] == l'.log;
    assert |l.log| <= |l'.log| && log[..|l.log|] == l.log;
    match answer
    case Wrote(n) =>
      assert log[|l.log|..|l.log| + n] == l'.log[|l.log|..];
    case Got(bytes) =>
      if op.ReadBytes? || op.PeekBytes? {
        assert log[l.taken..l.taken + |bytes|] == l.log[l.taken..][..|bytes|];
      } else if op.ReadAgain? {
        var from := |l.log| - op.distance;
        assert log[from..from + |bytes|] == l.log[from..][..|bytes|];
      }
    case _ =>
  }

  /**
   First in, first out: with the log of the whole run, what each operation wrote stands behind what all before it wrote,
   and what it read is what follows the bytes taken before it.
   */
  lemma FirstInFirstOut(ledgers: seq<Ledger>, ops: seq<Operation>, answers: seq<Answer>, i: nat)
    requires IsRun(ledgers, ops, answers) && i < |answers|
    ensures var end := ledgers[|answers|];
            |end.log| == Written(answers) && end.taken == Taken(ops, answers) && end.taken <= |end.log| &&
            InPlace(end.log, ops[i], answers[i], Written(answers[..i]), Taken(ops, answers[..i]))
  {
    hide IsStep, InPlace;
    Counted(ledgers, ops, answers, i);
    Counted(ledgers, ops, answers, |answers|);
    NeverMoreThanWritten(ledgers, ops, answers, |answers|);
    assert answers[..|answers|] == answers;
    Grows(ledgers, ops, answers, i + 1, |answers|);
    StepInPlace(ledgers[i], ops[i], answers[i], ledgers[i + 1], ledgers[|answers|].log);
  }
}
