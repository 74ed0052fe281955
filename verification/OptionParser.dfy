/**
 The getopt of the option parser: called until it reports the end, it moves options and their values in front of
 all other arguments and keeps both groups in their order.
 */
module OptionParsers {
  import opened Basics

  datatype ArgumentRequirement = NoArgument | HasOptionalArgument | HasRequiredArgument

  datatype LongOption = LongOption(name: string, requirement: ArgumentRequirement, hasFlag: bool, val: int)

  datatype Spec = Spec(shortOptions: string, longOptions: seq<LongOption>)

  datatype GetOptResult = GetOptResult(result: int, optarg: Option<string>, consumedArgs: nat)

  /** A leading plus sign: the first plain argument ends the options, and nothing is moved. */
  predicate StopsAtPositional(spec: Spec) {
    StartsWith(spec.shortOptions, "+")
  }

  /** What getopt returns at the end, and on an error. */
  const END := -1
  const ERROR := '?' as int

  /** A plain argument, or a single dash. */
  predicate IsPositional(arg: string) {
    !StartsWith(arg, "-") || arg == "-"
  }

  // ----- What an argument asks for -----

  function IndexOf(s: string, c: char): (i: nat)
    ensures i <= |s| && (i < |s| ==> s[i] == c)
  {
    if s == "" || s[0] == c then 0 else 1 + IndexOf(s[1..], c)
  }

  datatype Lookup = Unknown | Repeated | Known(requirement: ArgumentRequirement)

  /** The colons behind an option's letter tell whether it has a value; a letter may occur only once. */
  function LookupShort(spec: Spec, option: char): Lookup {
    var at := IndexOf(spec.shortOptions, option);
    if at == |spec.shortOptions| then Unknown
    else
      var behind := spec.shortOptions[at + 1..];
      if IndexOf(behind, option) < |behind| then Repeated
      else if StartsWith(behind, "::") then Known(HasOptionalArgument)
      else if StartsWith(behind, ":") then Known(HasRequiredArgument)
      else Known(NoArgument)
  }

  /** The long option that an argument without its dashes names, and the value behind an equals sign. */
  function LookupLong(options: seq<LongOption>, arg: string): Option<(LongOption, Option<string>)> {
    if options == [] then None
    else
      var option := options[0];
      if !StartsWith(arg, option.name) then LookupLong(options[1..], arg)
      else if |arg| == |option.name| then Some((option, None))
      else if arg[|option.name|] == '=' then Some((option, Some(arg[|option.name| + 1..])))
      else LookupLong(options[1..], arg)
  }

  /** How many arguments a group of short options takes from its letter at index on; 0 stands for an error. */
  function ShortTakes(spec: Spec, arg: string, index: nat, hasNext: bool): nat
    requires 1 <= index < |arg|
    decreases |arg| - index
  {
    var lookup := LookupShort(spec, arg[index]);
    if !lookup.Known? || arg[index] == '?' then 0
    else if index + 1 < |arg| then
      if lookup.requirement == NoArgument then ShortTakes(spec, arg, index + 1, hasNext) else 1
    else if lookup.requirement != HasRequiredArgument then 1
    else if hasNext then 2
    else 0
  }

  function LongTakes(spec: Spec, arg: string, hasNext: bool): nat
    requires StartsWith(arg, "--")
  {
    match LookupLong(spec.longOptions, arg[2..])
    case None => 0
    case Some((option, value)) =>
      if !option.hasFlag && option.val == ERROR then 0
      else match option.requirement
        case NoArgument => if value.Some? then 0 else 1
        case HasOptionalArgument => 1
        case HasRequiredArgument => if value.Some? then 1 else if hasNext then 2 else 0
  }

  function Takes(spec: Spec, args: seq<string>): (n: nat)
    requires args != [] && !IsPositional(args[0]) && args[0] != "--"
    ensures n <= |args|
  {
    if StartsWith(args[0], "--") then LongTakes(spec, args[0], |args| > 1)
    else
      var n := ShortTakes(spec, args[0], 1, |args| > 1);
      ShortTakesAtMost(spec, args[0], 1, |args| > 1);
      n
  }

  lemma {:induction false} ShortTakesAtMost(spec: Spec, arg: string, index: nat, hasNext: bool)
    requires 1 <= index < |arg|
    ensures ShortTakes(spec, arg, index, hasNext) <= if hasNext then 2 else 1
    decreases |arg| - index
  {
    if index + 1 < |arg| {
      ShortTakesAtMost(spec, arg, index + 1, hasNext);
    }
  }

  // ----- What the calls of a whole run report -----

  /** The letter or value of an option, and its argument. */
  datatype Report = Report(result: int, optarg: Option<string>)

  /** The argument behind the first one. */
  function Second(args: seq<string>): Option<string> {
    if |args| > 1 then Some(args[1]) else None
  }

  /** What a group of short options reports from its letter at index on, up to the first error. */
  function ShortReports(spec: Spec, arg: string, index: nat, next: Option<string>): seq<Report>
    requires 1 <= index < |arg|
    decreases |arg| - index
  {
    var lookup, letter := LookupShort(spec, arg[index]), arg[index] as int;
    if !lookup.Known? || letter == ERROR then []
    else if index + 1 < |arg| then
      if lookup.requirement == NoArgument then [Report(letter, None)] + ShortReports(spec, arg, index + 1, next)
      else [Report(letter, Some(arg[index + 1..]))]
    else if lookup.requirement != HasRequiredArgument then [Report(letter, Some(""))]
    else if next.Some? then [Report(letter, next)]
    else []
  }

  function LongReports(spec: Spec, arg: string, next: Option<string>): seq<Report>
    requires StartsWith(arg, "--")
  {
    var takes := LongTakes(spec, arg, next.Some?);
    match LookupLong(spec.longOptions, arg[2..])
    case None => []
    case Some((option, value)) =>
      if takes == 0 then []
      else [Report(if option.hasFlag then 0 else option.val, if takes == 2 then next else value)]
  }

  /** What the option at the front reports, from the letter at index on if it is a group of short ones. */
  function HeadReports(spec: Spec, args: seq<string>, index: nat): seq<Report>
    requires args != [] && !IsPositional(args[0]) && args[0] != "--"
  {
    if StartsWith(args[0], "--") then LongReports(spec, args[0], Second(args))
    else if Max(index, 1) < |args[0]| then ShortReports(spec, args[0], Max(index, 1), Second(args))
    else []
  }

  /** All that is reported until the end or the first error, if the letters before index have been reported. */
  function Reports(spec: Spec, args: seq<string>, index: nat): seq<Report>
    decreases |args|
  {
    if args == [] || args[0] == "--" then []
    else if IsPositional(args[0]) then if StopsAtPositional(spec) then [] else Reports(spec, args[1..], 0)
    else
      var n := Takes(spec, args);
      HeadReports(spec, args, index) + if n == 0 then [] else Reports(spec, args[n..], 0)
  }

  /** Plain arguments report nothing. */
  lemma {:induction false} ReportsSkip(spec: Spec, skipped: seq<string>, rest: seq<string>)
    requires !StopsAtPositional(spec) && forall i :: 0 <= i < |skipped| ==> IsPositional(skipped[i])
    ensures skipped != [] ==> Reports(spec, skipped + rest, 0) == Reports(spec, rest, 0)
  {
    if skipped != [] {
      ReportsSkip(spec, skipped[1..], rest);
      assert (skipped + rest)[0] == skipped[0] && (skipped + rest)[1..] == skipped[1..] + rest;
      assert skipped[0] != "--" by {
        assert IsPositional(skipped[0]);
      }
      assert |skipped| == 1 ==> skipped[1..] + rest == rest;
    }
  }

  /** The option at the front has reported once: what is still to come. */
  lemma ReportsTake(spec: Spec, rest: seq<string>, index: nat, r: Report, taken: nat, index': nat)
    requires rest != [] && !IsPositional(rest[0]) && rest[0] != "--" && taken <= |rest|
    requires HeadReports(spec, rest, index) == [r] + if taken == 0 then HeadReports(spec, rest, index') else []
    requires taken > 0 ==> taken == Takes(spec, rest) && index' == 0
    ensures Reports(spec, rest, index) == [r] + Reports(spec, rest[taken..], index')
  {
    hide HeadReports, Takes;
    assert rest[0..] == rest;
    assert [r] + [] == [r];
  }

  /** Nothing is reported at the end or on an error. */
  lemma ReportsNone(spec: Spec, rest: seq<string>, index: nat)
    requires rest == [] || rest[0] == "--" || (StopsAtPositional(spec) && IsPositional(rest[0])) ||
             (!IsPositional(rest[0]) && Takes(spec, rest) == 0 && HeadReports(spec, rest, index) == [])
    ensures Reports(spec, rest, index) == []
  {}

  /** How many reports come before the first one that looks like the end. */
  function BeforeEnd(reports: seq<Report>): (n: nat)
    ensures n <= |reports| && (n < |reports| ==> reports[n].result == END)
    ensures forall i :: 0 <= i < n ==> reports[i].result != END
  {
    if reports == [] || reports[0].result == END then 0 else 1 + BeforeEnd(reports[1..])
  }

  lemma BeforeEndIs(reports: seq<Report>, n: nat)
    requires n <= |reports| && (n < |reports| ==> reports[n].result == END)
    requires forall i :: 0 <= i < n ==> reports[i].result != END
    ensures BeforeEnd(reports) == n
  {}

  /** The next report, if there is one, comes first among those expected. */
  lemma BeforeEndStep(reports: seq<Report>, expected: seq<Report>, report: Report)
    requires BeforeEnd(reports) == |reports| && (expected != [] ==> expected[0] == report)
    ensures expected == [] || report.result == END ==>
              BeforeEnd(reports + expected) == |reports| && (reports + expected)[..|reports|] == reports
    ensures report.result != END ==> BeforeEnd(reports + [report]) == |reports| + 1
  {
    if expected == [] || report.result == END {
      BeforeEndIs(reports + expected, |reports|);
    }
    if report.result != END {
      BeforeEndIs(reports + [report], |reports| + 1);
    }
  }

  /** No report looks like the end when no long option has that value. */
  lemma {:induction false} NoValueLooksLikeEnd(spec: Spec, args: seq<string>, index: nat)
    requires forall i :: 0 <= i < |spec.longOptions| ==> spec.longOptions[i].val != END
    ensures BeforeEnd(Reports(spec, args, index)) == |Reports(spec, args, index)|
    decreases |args|
  {
    hide Takes;
    if args != [] && args[0] != "--" {
      if IsPositional(args[0]) {
        NoValueLooksLikeEnd(spec, args[1..], 0);
      } else {
        HeadIsNoEnd(spec, args, index);
        var n := Takes(spec, args);
        if n > 0 {
          NoValueLooksLikeEnd(spec, args[n..], 0);
        }
        BeforeEndIs(Reports(spec, args, index), |Reports(spec, args, index)|);
      }
    }
  }

  lemma HeadIsNoEnd(spec: Spec, args: seq<string>, index: nat)
    requires forall i :: 0 <= i < |spec.longOptions| ==> spec.longOptions[i].val != END
    requires args != [] && !IsPositional(args[0]) && args[0] != "--"
    ensures forall r :: r in HeadReports(spec, args, index) ==> r.result != END
  {
    hide ShortReports;
    if StartsWith(args[0], "--") {
      LongValue(spec.longOptions, args[0][2..]);
    } else if Max(index, 1) < |args[0]| {
      LettersAreNoEnd(spec, args[0], Max(index, 1), Second(args));
    }
  }

  lemma {:induction false} LettersAreNoEnd(spec: Spec, arg: string, index: nat, next: Option<string>)
    requires 1 <= index < |arg|
    ensures forall r :: r in ShortReports(spec, arg, index, next) ==> r.result != END
    decreases |arg| - index
  {
    if index + 1 < |arg| {
      LettersAreNoEnd(spec, arg, index + 1, next);
    }
  }

  lemma {:induction false} LongValue(options: seq<LongOption>, arg: string)
    requires forall i :: 0 <= i < |options| ==> options[i].val != END
    ensures var found := LookupLong(options, arg);
            found.Some? ==> found.value.0.val != END
  {
    if options != [] {
      LongValue(options[1..], arg);
    }
  }

  /** With a long option of that value the first report already looks like the end. */
  lemma EndAsValue()
    ensures var spec, args := Spec("", [LongOption("x", NoArgument, false, END)]), ["--x", "--x"];
            Reports(spec, args, 0) == [Report(END, None), Report(END, None)] && BeforeEnd(Reports(spec, args, 0)) == 0
  {
    var spec, args := Spec("", [LongOption("x", NoArgument, false, END)]), ["--x", "--x"];
    assert "--x"[2..] == "x";
    assert LookupLong(spec.longOptions, "x") == Some((spec.longOptions[0], None));
    assert args[1..] == ["--x"] && ["--x"][1..] == [];
    assert Takes(spec, args) == 1 && Takes(spec, ["--x"]) == 1;
    assert Reports(spec, [], 0) == [];
    assert Reports(spec, ["--x"], 0) == [Report(END, None)] + Reports(spec, [], 0);
  }

  // ----- The partition a whole run makes -----

  datatype Split = Failed | Split(options: seq<string>, positionals: seq<string>)

  /** Options with their values up to and including a double dash, and all other arguments. */
  function Partition(spec: Spec, args: seq<string>): Split
    decreases |args|
  {
    if args == [] then Split([], [])
    else if args[0] == "--" then Split(["--"], args[1..])
    else if IsPositional(args[0]) then
      if StopsAtPositional(spec) then Split([], args)
      else match Partition(spec, args[1..])
      case Failed => Failed
      case Split(o, p) => Split(o, [args[0]] + p)
    else
      var n := Takes(spec, args);
      if n == 0 then Failed
      else match Partition(spec, args[n..])
        case Failed => Failed
        case Split(o, p) => Split(args[..n] + o, p)
  }

  /** Which arguments count as options or values. */
  function Marks(spec: Spec, args: seq<string>): (marks: seq<bool>)
    requires Partition(spec, args).Split?
    ensures |marks| == |args|
    decreases |args|
  {
    if args == [] then []
    else if args[0] == "--" then [true] + seq(|args| - 1, _ => false)
    else if IsPositional(args[0]) then
      if StopsAtPositional(spec) then seq(|args|, _ => false) else [false] + Marks(spec, args[1..])
    else
      var n := Takes(spec, args);
      seq(n, _ => true) + Marks(spec, args[n..])
  }

  function Chosen(args: seq<string>, marks: seq<bool>, wanted: bool): seq<string>
    requires |marks| == |args|
  {
    if args == [] then []
    else (if marks[0] == wanted then [args[0]] else []) + Chosen(args[1..], marks[1..], wanted)
  }

  lemma {:induction false} ChosenJoin(a: seq<string>, b: seq<string>, m: seq<bool>, n: seq<bool>, wanted: bool)
    requires |m| == |a| && |n| == |b|
    ensures Chosen(a + b, m + n, wanted) == Chosen(a, m, wanted) + Chosen(b, n, wanted)
  {
    if a == [] {
      assert a + b == b && m + n == n;
    } else {
      ChosenJoin(a[1..], b, m[1..], n, wanted);
      assert (a + b)[0] == a[0] && (a + b)[1..] == a[1..] + b && (m + n)[0] == m[0] && (m + n)[1..] == m[1..] + n;
      Associate(if m[0] == wanted then [a[0]] else [], Chosen(a[1..], m[1..], wanted), Chosen(b, n, wanted));
    }
  }

  lemma {:induction false} ChosenAll(a: seq<string>, mark: bool)
    ensures Chosen(a, seq(|a|, _ => mark), mark) == a && Chosen(a, seq(|a|, _ => mark), !mark) == []
  {
    if a != [] {
      ChosenAll(a[1..], mark);
      assert seq(|a|, _ => mark)[1..] == seq(|a| - 1, _ => mark);
    }
  }

  /** Both groups are what the marks choose, each in the order of the arguments: the partition is stable. */
  lemma {:induction false} PartitionIsStable(spec: Spec, args: seq<string>)
    requires Partition(spec, args).Split?
    ensures Partition(spec, args).options == Chosen(args, Marks(spec, args), true)
    ensures Partition(spec, args).positionals == Chosen(args, Marks(spec, args), false)
    decreases |args|
  {
    if args == [] {
    } else if args[0] == "--" {
      ChosenAll(args[1..], false);
      assert Marks(spec, args)[1..] == seq(|args[1..]|, _ => false);
    } else if IsPositional(args[0]) && StopsAtPositional(spec) {
      ChosenAll(args, false);
    } else if IsPositional(args[0]) {
      PartitionIsStable(spec, args[1..]);
      assert Marks(spec, args)[1..] == Marks(spec, args[1..]);
    } else {
      var n := Takes(spec, args);
      PartitionIsStable(spec, args[n..]);
      ChosenAll(args[..n], true);
      assert args == args[..n] + args[n..];
      ChosenJoin(args[..n], args[n..], seq(n, _ => true), Marks(spec, args[n..]), true);
      ChosenJoin(args[..n], args[n..], seq(n, _ => true), Marks(spec, args[n..]), false);
    }
  }

  // ----- One call in the middle of a run -----

  /** The arguments start with a plain argument: the partition of the others decides. */
  lemma {:induction false} PositionalsFirst(spec: Spec, skipped: seq<string>, rest: seq<string>)
    requires !StopsAtPositional(spec) && forall i :: 0 <= i < |skipped| ==> IsPositional(skipped[i])
    ensures Partition(spec, skipped + rest).Split? <==> Partition(spec, rest).Split?
    ensures Partition(spec, rest).Split? ==>
              Partition(spec, skipped + rest) ==
              Split(Partition(spec, rest).options, skipped + Partition(spec, rest).positionals)
  {
    if skipped == [] {
      assert skipped + rest == rest;
    } else {
      PositionalsFirst(spec, skipped[1..], rest);
      assert (skipped + rest)[0] == skipped[0] && (skipped + rest)[1..] == skipped[1..] + rest;
      assert skipped[0] != "--" by {
        assert IsPositional(skipped[0]);
      }
      if Partition(spec, rest).Split? {
        assert [skipped[0]] + (skipped[1..] + Partition(spec, rest).positionals) == skipped + Partition(spec, rest).positionals;
      }
    }
  }

  /** Where a run stands: options taken, plain arguments passed over, and what has not been looked at. */
  ghost predicate Progress(spec: Spec, original: seq<string>, args: seq<string>, done: seq<string>, passed: seq<string>,
                           rest: seq<string>)
  {
    args == done + passed + rest && (forall i :: 0 <= i < |passed| ==> IsPositional(passed[i])) &&
    (StopsAtPositional(spec) ==> passed == []) &&
    (Partition(spec, original).Split? <==> Partition(spec, rest).Split?) &&
    (Partition(spec, rest).Split? ==>
       Partition(spec, original) ==
       Split(done + Partition(spec, rest).options, passed + Partition(spec, rest).positionals))
  }

  lemma ProgressStart(spec: Spec, original: seq<string>)
    ensures Progress(spec, original, original, [], [], original)
  {
    if Partition(spec, original).Split? {
      var p := Partition(spec, original);
      assert Split([] + p.options, [] + p.positionals) == p;
    }
    assert original == [] + [] + original;
  }

  /** Passing over plain arguments. */
  lemma ProgressSkip(spec: Spec, original: seq<string>, args: seq<string>, done: seq<string>, passed: seq<string>,
                     skipped: seq<string>, rest: seq<string>)
    requires Progress(spec, original, args, done, passed, skipped + rest) && !StopsAtPositional(spec)
    requires forall i :: 0 <= i < |skipped| ==> IsPositional(skipped[i])
    ensures Progress(spec, original, args, done, passed + skipped, rest)
  {
    PositionalsFirst(spec, skipped, rest);
    assert done + passed + (skipped + rest) == done + (passed + skipped) + rest;
    if Partition(spec, rest).Split? {
      assert passed + (skipped + Partition(spec, rest).positionals) == passed + skipped + Partition(spec, rest).positionals;
    }
  }

  /** Taking an option and moving it, with its value, in front of the arguments passed over. */
  lemma ProgressTake(spec: Spec, original: seq<string>, args: seq<string>, done: seq<string>, passed: seq<string>,
                     rest: seq<string>)
    requires Progress(spec, original, args, done, passed, rest)
    requires rest != [] && !IsPositional(rest[0]) && rest[0] != "--" && Takes(spec, rest) > 0
    ensures var n := Takes(spec, rest);
            Progress(spec, original, done + rest[..n] + passed + rest[n..], done + rest[..n], passed, rest[n..])
  {
    var n := Takes(spec, rest);
    if Partition(spec, rest[n..]).Split? {
      var p := Partition(spec, rest[n..]);
      assert done + (rest[..n] + p.options) == done + rest[..n] + p.options;
    }
  }

  /** At the end the arguments are the options followed by all others. */
  lemma ProgressEnd(spec: Spec, original: seq<string>, args: seq<string>, done: seq<string>, passed: seq<string>,
                    rest: seq<string>)
    requires Progress(spec, original, args, done, passed, rest)
    ensures rest == [] ==> Partition(spec, original) == Split(done, passed) && args == done + passed
    ensures StopsAtPositional(spec) && rest != [] && IsPositional(rest[0]) ==>
              passed == [] && Partition(spec, original) == Split(done, rest) && args == done + rest
    ensures rest != [] && rest[0] == "--" ==>
              Partition(spec, original) == Split(done + ["--"], passed + rest[1..])
  {
    assert done + [] == done && passed + [] == passed;
  }

  /** The block from `at` to k and the n arguments behind it have changed places. */
  function Exchanged(args: seq<string>, at: nat, k: nat, n: nat): seq<string>
    requires at <= k && k + n <= |args|
  {
    args[..at] + args[k..k + n] + args[at..k] + args[k + n..]
  }

  /** Moving a block behind the one that follows it. */
  lemma BlocksExchanged(args: seq<string>, at: nat, k: nat, taken: nat)
    requires at <= k && k + taken <= |args|
    ensures Splice(Splice(args, at + taken, args[at..k]), at, args[k..k + taken]) == Exchanged(args, at, k, taken)
  {
    var first := Splice(args, at + taken, args[at..k]);
    assert first[at + taken..] == args[at..k] + args[k + taken..];
    assert first[..at] == args[..at];
  }

  lemma NothingMoves(s: seq<string>, k: nat)
    requires k <= |s|
    ensures Exchanged(s, k, k, 0) == s
  {}

  class OptionParser {
    var args: array<string>
    var spec: Spec
    var argIndex: nat
    var skippedArguments: nat
    var consumedArgs: nat
    var indexIntoMultioptionArgument: nat
    var stopOnFirstNonOption: bool
    var optargValue: Option<string>

    constructor (args: array<string>, spec: Spec)
      ensures this.args == args && this.spec == spec
      ensures argIndex == 0 && indexIntoMultioptionArgument == 0
    {
      this.args, this.spec := args, spec;
      argIndex, skippedArguments, consumedArgs, indexIntoMultioptionArgument := 0, 0, 0, 0;
      stopOnFirstNonOption, optargValue := false, None;
    }

    function CurrentArg(): string
      reads this, args
    {
      if argIndex >= args.Length then "" else args[argIndex]
    }

    /** Passes over plain arguments, unless it is to stop at the first of them. */
    method FindNextOption() returns (found: bool)
      requires argIndex <= args.Length
      modifies this`skippedArguments, this`argIndex
      ensures old(argIndex) <= argIndex <= args.Length && skippedArguments == argIndex - old(argIndex)
      ensures forall i :: old(argIndex) <= i < argIndex ==> IsPositional(args[i])
      ensures found ==> argIndex < args.Length && !IsPositional(args[argIndex]) && args[argIndex] != "--"
      ensures !found ==>
                argIndex == args.Length || args[argIndex] == "--" || (stopOnFirstNonOption && IsPositional(args[argIndex]))
      ensures stopOnFirstNonOption ==> argIndex == old(argIndex)
    {
      skippedArguments := 0;
      while argIndex < args.Length
        invariant old(argIndex) <= argIndex <= args.Length && skippedArguments == argIndex - old(argIndex)
        invariant forall i :: old(argIndex) <= i < argIndex ==> IsPositional(args[i])
        invariant stopOnFirstNonOption ==> argIndex == old(argIndex)
      {
        var arg := CurrentArg();
        if !StartsWith(arg, "-") || arg == "-" {
          if stopOnFirstNonOption {
            return false;
          }
          skippedArguments, argIndex := skippedArguments + 1, argIndex + 1;
          continue;
        }
        if arg == "--" {
          return false;
        }
        return true;
      }
      return false;
    }

    /** One letter of a group of short options. */
    method HandleShortOption() returns (result: int)
      requires argIndex < args.Length && !IsPositional(args[argIndex])
      requires indexIntoMultioptionArgument < |args[argIndex]|
      modifies this`consumedArgs, this`indexIntoMultioptionArgument, this`optargValue
      ensures var arg := args[argIndex];
              var index := if old(indexIntoMultioptionArgument) == 0 then 1 else old(indexIntoMultioptionArgument);
              var hasNext := argIndex + 1 < args.Length;
              var takes := ShortTakes(spec, arg, index, hasNext);
              (result == ERROR ==> takes == 0) &&
              (result != ERROR ==>
                 result == arg[index] as int &&
                 (consumedArgs == 0 ==>
                    indexIntoMultioptionArgument == index + 1 < |arg| &&
                    ShortTakes(spec, arg, index + 1, hasNext) == takes) &&
                 (consumedArgs > 0 ==> consumedArgs == takes && indexIntoMultioptionArgument == 0))
      ensures var arg := args[argIndex];
              var index := if old(indexIntoMultioptionArgument) == 0 then 1 else old(indexIntoMultioptionArgument);
              var next := Second(args[argIndex..]);
              ShortReports(spec, arg, index, next) ==
              if result == ERROR then []
              else [Report(result, optargValue)] + if consumedArgs == 0 then ShortReports(spec, arg, index + 1, next) else []
    {
      hide LookupShort;
      var arg := CurrentArg();
      if indexIntoMultioptionArgument == 0 {
        indexIntoMultioptionArgument := 1;
      }
      var option := arg[indexIntoMultioptionArgument];
      indexIntoMultioptionArgument := indexIntoMultioptionArgument + 1;
      var lookup := LookupShort(spec, option);
      if !lookup.Known? {
        return ERROR;
      }
      if indexIntoMultioptionArgument < |arg| {
        if lookup.requirement == NoArgument {
          optargValue := None;
          consumedArgs := 0;
        } else {
          optargValue := Some(arg[indexIntoMultioptionArgument..]);
          indexIntoMultioptionArgument := 0;
          consumedArgs := 1;
        }
      } else {
        indexIntoMultioptionArgument := 0;
        if lookup.requirement != HasRequiredArgument {
          assert arg[|arg|..] == "";
          optargValue := Some("");
          consumedArgs := 1;
        } else if argIndex + 1 < args.Length {
          optargValue := Some(args[argIndex + 1]);
          consumedArgs := 2;
        } else {
          return ERROR;
        }
      }
      return option as int;
    }

    /** A long option; it is found by going through the list. */
    method FindLongOption(arg: string) returns (found: Option<LongOption>)
      modifies this`optargValue
      ensures match LookupLong(spec.longOptions, arg)
              case None => found == None && optargValue == old(optargValue)
              case Some((option, value)) => found == Some(option) && optargValue == value
    {
      for index := 0 to |spec.longOptions|
        invariant LookupLong(spec.longOptions, arg) == LookupLong(spec.longOptions[index..], arg)
        invariant optargValue == old(optargValue)
      {
        var option := spec.longOptions[index];
        assert spec.longOptions[index..][1..] == spec.longOptions[index + 1..];
        if !StartsWith(arg, option.name) {
          continue;
        }
        if |arg| == |option.name| {
          optargValue := None;
          return Some(option);
        }
        if arg[|option.name|] == '=' {
          optargValue := Some(arg[|option.name| + 1..]);
          return Some(option);
        }
      }
      return None;
    }

    method HandleLongOption() returns (result: int)
      requires argIndex < args.Length && StartsWith(args[argIndex], "--")
      modifies this`consumedArgs, this`optargValue
      ensures var takes := LongTakes(spec, args[argIndex], argIndex + 1 < args.Length);
              (result == ERROR ==> takes == 0) && (result != ERROR ==> takes > 0 && consumedArgs == takes)
      ensures LongReports(spec, args[argIndex], Second(args[argIndex..])) ==
              if result == ERROR then [] else [Report(result, optargValue)]
      ensures result != ERROR ==>
                var found := LookupLong(spec.longOptions, args[argIndex][2..]);
                found.Some? && result == if found.value.0.hasFlag then 0 else found.value.0.val
    {
      var found := FindLongOption(args[argIndex][2..]);
      if found == None {
        return ERROR;
      }
      var option := found.value;
      match option.requirement {
        case NoArgument =>
          if optargValue.Some? {
            return ERROR;
          }
          consumedArgs := 1;
        case HasOptionalArgument =>
          consumedArgs := 1;
        case HasRequiredArgument =>
          if optargValue.Some? {
            consumedArgs := 1;
          } else if argIndex + 1 < args.Length {
            optargValue := Some(args[argIndex + 1]);
            consumedArgs := 2;
          } else {
            return ERROR;
          }
      }
      if option.hasFlag {
        return 0;
      }
      return option.val;
    }

    /** Copies arguments within the list. */
    method CopyTo(at: nat, piece: seq<string>)
      requires at + |piece| <= args.Length
      modifies args
      ensures args[..] == Splice(old(args[..]), at, piece)
    {
      for i := 0 to |piece|
        invariant args[..] == Splice(old(args[..]), at, piece[..i])
      {
        args[at + i] := piece[i];
        assert piece[..i + 1] == piece[..i] + [piece[i]];
      }
      assert piece[..|piece|] == piece;
    }

    /** Puts the arguments just consumed in front of those passed over. */
    method ShiftArgv()
      requires skippedArguments <= argIndex && argIndex + consumedArgs <= args.Length
      modifies this`argIndex, this`skippedArguments, args
      ensures argIndex == old(argIndex) - old(skippedArguments)
      ensures args[..] == Exchanged(old(args[..]), argIndex, old(argIndex), consumedArgs)
    {
      hide Splice, Exchanged;
      ghost var before := args[..];
      if consumedArgs == 0 && skippedArguments == 0 {
        NothingMoves(before, argIndex);
        return;
      }
      var buffer := args[argIndex..argIndex + consumedArgs];
      var skipped := args[argIndex - skippedArguments..argIndex];
      var at := argIndex - skippedArguments;
      BlocksExchanged(before, at, argIndex, consumedArgs);
      assert buffer == before[argIndex..argIndex + consumedArgs] && skipped == before[at..argIndex];
      CopyTo(argIndex + consumedArgs - skippedArguments, skipped);
      assert args[..] == Splice(before, at + consumedArgs, skipped);
      CopyTo(at, buffer);
      argIndex := argIndex - skippedArguments;
      skippedArguments := 0;
    }

    // ----- A run of calls -----

    /** A group of short options that has been started stands at the front of what is left. */
    ghost predicate InGroup(rest: seq<string>)
      reads this
    {
      indexIntoMultioptionArgument > 0 ==>
        rest != [] && !IsPositional(rest[0]) && !StartsWith(rest[0], "--") && indexIntoMultioptionArgument < |rest[0]| &&
        Takes(spec, rest) == ShortTakes(spec, rest[0], indexIntoMultioptionArgument, |rest| > 1)
    }

    ghost predicate Between(original: seq<string>, done: seq<string>, passed: seq<string>, rest: seq<string>)
      reads this, args
    {
      Progress(spec, original, args[..], done, passed, rest) && argIndex == |done| && InGroup(rest)
    }

    /** The search for the next option, seen as progress of the run. */
    method Seek(ghost original: seq<string>, ghost done: seq<string>, ghost passed: seq<string>, ghost rest: seq<string>)
      returns (found: bool, ghost passed': seq<string>, ghost rest': seq<string>)
      requires Between(original, done, passed, rest) && stopOnFirstNonOption == StopsAtPositional(spec)
      modifies this`skippedArguments, this`argIndex
      ensures Progress(spec, original, args[..], done, passed', rest') && InGroup(rest') && |rest'| <= |rest|
      ensures argIndex == |done| + |passed'| && skippedArguments == |passed'|
      ensures found ==> rest' != [] && !IsPositional(rest'[0]) && rest'[0] != "--"
      ensures !found ==> rest' == [] || rest'[0] == "--" || (StopsAtPositional(spec) && IsPositional(rest'[0]))
      ensures |rest'| == |rest| || indexIntoMultioptionArgument > 0 ==> rest' == rest
      ensures Reports(spec, rest, indexIntoMultioptionArgument) == Reports(spec, rest', indexIntoMultioptionArgument)
    {
      hide Partition, Takes, ShortTakes, Reports;
      ghost var all := args[..];
      found := FindNextOption();
      if stopOnFirstNonOption {
        passed', rest' := passed, rest;
        assert rest != [] ==> all[argIndex] == rest[0];
        return;
      }
      ghost var n := argIndex - |done| - |passed|;
      PassedAll(all, done, passed, rest, argIndex);
      ghost var skipped := rest[..n];
      passed', rest' := passed + skipped, rest[n..];
      assert rest == skipped + rest';
      forall i | 0 <= i < |skipped| ensures IsPositional(skipped[i]) {
        assert all[|done| + |passed| + i] == rest[i];
      }
      ProgressSkip(spec, original, all, done, passed, skipped, rest');
      ReportsSkip(spec, skipped, rest');
      assert rest' != [] ==> all[argIndex] == rest'[0];
      assert n > 0 ==> IsPositional(rest[0]);
    }

    /** The search cannot stop among arguments that are known to be plain. */
    lemma PassedAll(all: seq<string>, done: seq<string>, passed: seq<string>, rest: seq<string>, stop: nat)
      requires all == done + passed + rest && (forall i :: 0 <= i < |passed| ==> IsPositional(passed[i]))
      requires |done| <= stop <= |all|
      requires stop == |all| || !IsPositional(all[stop])
      ensures |done| + |passed| <= stop
    {
      forall k | |done| <= k < |done| + |passed| ensures IsPositional(all[k]) {
        assert all[k] == passed[k - |done|];
      }
    }

    /**
     One call. The arguments stay those of the run so far; at the end they are the options, with their values and a
     double dash, followed by all others; and an error is reported exactly when the arguments have no partition.
     */
    method GetOpt(ghost original: seq<string>, ghost done: seq<string>, ghost passed: seq<string>, ghost rest: seq<string>)
      returns (r: GetOptResult, ghost ended: bool, ghost done': seq<string>, ghost passed': seq<string>,
               ghost rest': seq<string>)
      requires Between(original, done, passed, rest)
      modifies this`argIndex, this`skippedArguments, this`consumedArgs, this`indexIntoMultioptionArgument,
               this`stopOnFirstNonOption, this`optargValue, args
      ensures r.result == ERROR ==> Partition(spec, original) == Failed
      ensures ended ==> r.result == END
      ensures r.result == ERROR || ended ==> Reports(spec, rest, old(indexIntoMultioptionArgument)) == []
      ensures r.result != ERROR && !ended ==>
                Reports(spec, rest, old(indexIntoMultioptionArgument)) ==
                [Report(r.result, r.optarg)] + Reports(spec, rest', indexIntoMultioptionArgument) &&
                |done'| == |done| + r.consumedArgs
      ensures ended ==>
                Partition(spec, original).Split? &&
                args[..] == Partition(spec, original).options + Partition(spec, original).positionals &&
                argIndex == |Partition(spec, original).options|
      ensures r.result != ERROR && !ended ==>
                Between(original, done', passed', rest') && |rest'| <= |rest| &&
                (|rest'| == |rest| ==> rest' == rest && indexIntoMultioptionArgument > old(indexIntoMultioptionArgument))
    {
      hide Partition, Takes, ShortTakes, LongTakes, Progress, Reports, HeadReports;
      stopOnFirstNonOption := StartsWith(spec.shortOptions, "+");
      var shouldReorderArgv := !stopOnFirstNonOption;
      var found;
      found, passed', rest' := Seek(original, done, passed, rest);
      ended, done' := !found, done;
      ProgressArgs(spec, original, args[..], done, passed', rest');
      var arg := CurrentArg();
      assert rest' != [] ==> arg == args[..][argIndex] == rest'[0];
      var res := END;
      if !found {
        if arg == "--" {
          consumedArgs := 1;
        } else {
          consumedArgs := 0;
        }
      } else {
        res := HandleOption(rest');
        if res == ERROR {
          TakesNothing(spec, original, args[..], done, passed', rest');
          ReportsNone(spec, rest', old(indexIntoMultioptionArgument));
          return GetOptResult(ERROR, optargValue, 0), false, done', passed', rest';
        }
      }
      FinishCall(shouldReorderArgv, done, passed', rest');
      r := GetOptResult(res, optargValue, consumedArgs);
      ghost var before := done + passed' + rest';
      if !found {
        ProgressEnd(spec, original, before, done, passed', rest');
        EndArgs(args[..], done, passed', rest', consumedArgs);
        ReportsNone(spec, rest', indexIntoMultioptionArgument);
        PositionalEnd(done, rest');
      } else {
        done', rest' := OptionDone(original, args[..], done, passed', rest', consumedArgs, old(indexIntoMultioptionArgument),
                                   indexIntoMultioptionArgument, Report(res, optargValue));
      }
    }

    /** An option has reported once, and has been moved with its value if that was its last report. */
    lemma OptionDone(original: seq<string>, all: seq<string>, done: seq<string>, passed: seq<string>, rest: seq<string>, n: nat,
                     index0: nat, index: nat, report: Report) returns (done': seq<string>, rest': seq<string>)
      requires Progress(spec, original, done + passed + rest, done, passed, rest)
      requires rest != [] && !IsPositional(rest[0]) && rest[0] != "--" && n <= |rest|
      requires all == done + rest[..n] + passed + rest[n..]
      requires HeadReports(spec, rest, index0) == [report] + if n == 0 then HeadReports(spec, rest, index) else []
      requires n > 0 ==> n == Takes(spec, rest) && index == 0
      ensures done' == done + rest[..n] && rest' == rest[n..] && Progress(spec, original, all, done', passed, rest')
      ensures Reports(spec, rest, index0) == [report] + Reports(spec, rest', index)
    {
      hide Progress, Takes, HeadReports, Reports;
      ReportsTake(spec, rest, index0, report, n, index);
      done', rest' := done + rest[..n], rest[n..];
      if n > 0 {
        ProgressTake(spec, original, done + passed + rest, done, passed, rest);
      } else {
        assert done' == done && rest' == rest;
      }
    }

    lemma PositionalEnd(done: seq<string>, rest: seq<string>)
      ensures done + rest[..0] + [] + rest[0..] == done + rest
    {}

    lemma EndArgs(all: seq<string>, done: seq<string>, passed: seq<string>, rest: seq<string>, n: nat)
      requires n <= |rest| && all == done + rest[..n] + passed + rest[n..]
      ensures rest == [] ==> all == done + passed
      ensures n == 1 && rest[0] == "--" ==> all == done + ["--"] + (passed + rest[1..])
    {
      if n == 1 {
        assert rest[..1] == [rest[0]];
      }
    }

    /** One option, long or short. */
    method HandleOption(ghost rest: seq<string>) returns (res: int)
      requires argIndex < args.Length && rest != [] && rest == args[argIndex..] && InGroup(rest)
      requires !IsPositional(rest[0]) && rest[0] != "--"
      modifies this`consumedArgs, this`indexIntoMultioptionArgument, this`optargValue
      ensures res == ERROR ==> Takes(spec, rest) == 0
      ensures res != ERROR ==> consumedArgs <= |rest|
      ensures res != ERROR && consumedArgs > 0 ==> consumedArgs == Takes(spec, rest) && indexIntoMultioptionArgument == 0
      ensures res != ERROR && consumedArgs == 0 ==>
                InGroup(rest) && indexIntoMultioptionArgument > old(indexIntoMultioptionArgument)
      ensures HeadReports(spec, rest, old(indexIntoMultioptionArgument)) ==
              if res == ERROR then []
              else [Report(res, optargValue)] +
                   if consumedArgs == 0 then HeadReports(spec, rest, indexIntoMultioptionArgument) else []
    {
      hide ShortTakes, LongTakes, ShortReports, LongReports;
      assert args[argIndex] == rest[0];
      assert Takes(spec, rest) <= |rest|;
      if StartsWith(args[argIndex], "--") {
        res := HandleLongOption();
        assert rest == args[argIndex..];
        assert [Report(res, optargValue)] + [] == [Report(res, optargValue)];
      } else {
        res := HandleShortOption();
        assert rest == args[argIndex..];
      }
    }

    /** Moves what has been consumed, and steps behind it. */
    method FinishCall(shouldReorderArgv: bool, ghost done: seq<string>, ghost passed: seq<string>, ghost rest: seq<string>)
      requires args[..] == done + passed + rest && (!shouldReorderArgv ==> passed == [])
      requires argIndex == |done| + |passed| && skippedArguments == |passed| && consumedArgs <= |rest|
      modifies this`argIndex, this`skippedArguments, args
      ensures args[..] == done + rest[..consumedArgs] + passed + rest[consumedArgs..]
      ensures argIndex == |done| + consumedArgs
    {
      hide Exchanged;
      ghost var before := args[..];
      if shouldReorderArgv {
        ShiftArgv();
      }
      Finished(before, done, passed, rest, consumedArgs, args[..]);
      argIndex := argIndex + consumedArgs;
    }

    /** The blocks have changed places, or there is only one of them. */
    lemma Finished(before: seq<string>, done: seq<string>, passed: seq<string>, rest: seq<string>, n: nat, after: seq<string>)
      requires before == done + passed + rest && n <= |rest|
      requires after == Exchanged(before, |done|, |done| + |passed|, n) || (after == before && passed == [])
      ensures after == done + rest[..n] + passed + rest[n..]
    {
      var at, k := |done|, |done| + |passed|;
      assert before[..at] == done && before[at..k] == passed && before[k..k + n] == rest[..n] && before[k + n..] == rest[n..];
      assert rest == rest[..n] + rest[n..];
    }

    /**
     Calls getopt until it reports the end, or an error. All options are reported, and the arguments are parted, unless
     one of the reports looks like the end: then the reports are those before it.
     */
    method ParseAll() returns (ok: bool, reports: seq<Report>)
      requires argIndex == 0 && indexIntoMultioptionArgument == 0
      modifies this`argIndex, this`skippedArguments, this`consumedArgs, this`indexIntoMultioptionArgument,
               this`stopOnFirstNonOption, this`optargValue, args
      ensures var all := Reports(spec, old(args[..]), 0);
              reports == all[..BeforeEnd(all)] && (BeforeEnd(all) < |all| ==> ok)
      ensures BeforeEnd(Reports(spec, old(args[..]), 0)) == |Reports(spec, old(args[..]), 0)| ==>
                ok == Partition(spec, old(args[..])).Split? &&
                (ok ==> var p := Partition(spec, old(args[..]));
                        args[..] == p.options + p.positionals && argIndex == |p.options|)
    {
      hide Partition, Progress, InGroup, Reports;
      ghost var original, done, passed, rest := args[..], [], [], args[..];
      ghost var ended;
      ProgressStart(spec, original);
      NoGroup(rest);
      reports := [];
      while true
        invariant Between(original, done, passed, rest)
        invariant Reports(spec, original, 0) == reports + Reports(spec, rest, indexIntoMultioptionArgument)
        invariant BeforeEnd(reports) == |reports|
        decreases |rest|, if rest == [] then 0 else |rest[0]| - indexIntoMultioptionArgument
      {
        GroupInside(rest);
        var r;
        ghost var expected := Reports(spec, rest, indexIntoMultioptionArgument);
        r, ended, done, passed, rest := GetOpt(original, done, passed, rest);
        GroupInside(rest);
        BeforeEndStep(reports, expected, Report(r.result, r.optarg));
        if r.result == END {
          return true, reports;
        }
        if r.result == ERROR {
          return false, reports;
        }
        reports := reports + [Report(r.result, r.optarg)];
        assert reports[..|reports|] == reports;
      }
    }

    lemma NoGroup(rest: seq<string>)
      requires indexIntoMultioptionArgument == 0
      ensures InGroup(rest)
    {}

    lemma GroupInside(rest: seq<string>)
      ensures InGroup(rest) && indexIntoMultioptionArgument > 0 ==> rest != [] && indexIntoMultioptionArgument < |rest[0]|
    {}
  }

  lemma ProgressArgs(spec: Spec, original: seq<string>, args: seq<string>, done: seq<string>, passed: seq<string>,
                     rest: seq<string>)
    requires Progress(spec, original, args, done, passed, rest)
    ensures args == done + passed + rest && (StopsAtPositional(spec) ==> passed == [])
  {}

  lemma TakesNothing(spec: Spec, original: seq<string>, args: seq<string>, done: seq<string>, passed: seq<string>,
                     rest: seq<string>)
    requires Progress(spec, original, args, done, passed, rest)
    requires rest != [] && !IsPositional(rest[0]) && rest[0] != "--" && Takes(spec, rest) == 0
    ensures Partition(spec, original) == Failed
  {}
}
