/**
 Command lines as a program writes them, read back by the option parser: options in all their spellings, with and
 without values, and plain arguments between them.
 */
module WrittenOptions {
  import opened Basics
  import opened OptionParsers

  // ----- What the short options' text and the list of long options offer -----

  /** No colon: no value. One: a value. Two: perhaps a value. */
  function Colons(requirement: ArgumentRequirement): string {
    match requirement
    case NoArgument => ""
    case HasRequiredArgument => ":"
    case HasOptionalArgument => "::"
  }

  /** The letter stands in the text once, with these colons behind it. */
  ghost predicate OfferedAt(shortOptions: string, c: char, requirement: ArgumentRequirement, p: string, q: string) {
    shortOptions == p + [c] + Colons(requirement) + q && c !in p && c !in q && (q == "" || q[0] != ':')
  }

  ghost predicate Offers(shortOptions: string, c: char, requirement: ArgumentRequirement) {
    c != ':' && c != '?' && exists p, q :: OfferedAt(shortOptions, c, requirement, p, q)
  }

  /** The option is the first one of its name, and no name holds an equals sign. */
  ghost predicate OffersLong(longOptions: seq<LongOption>, option: LongOption) {
    option.name != "" && (option.hasFlag || option.val != ERROR) &&
    (forall i :: 0 <= i < |longOptions| ==> '=' !in longOptions[i].name) &&
    exists i :: IsFirstNamed(longOptions, option, i)
  }

  ghost predicate IsFirstNamed(longOptions: seq<LongOption>, option: LongOption, i: int) {
    0 <= i < |longOptions| && longOptions[i] == option && forall j :: 0 <= j < i ==> longOptions[j].name != option.name
  }

  lemma IndexOfIs(s: string, c: char, i: nat)
    requires i <= |s| && c !in s[..i] && (i < |s| ==> s[i] == c)
    ensures IndexOf(s, c) == i
  {
    forall j | 0 <= j < i ensures s[j] != c {
      assert s[..i][j] in s[..i];
    }
    if i < |s| {
      FirstIndex(s, c, i);
    }
  }

  lemma {:induction false} FirstIndex(s: string, c: char, i: nat)
    requires i < |s| && s[i] == c
    ensures IndexOf(s, c) <= i
  {
    if i > 0 && s[0] != c {
      FirstIndex(s[1..], c, i - 1);
    }
  }

  lemma ColonsRead(requirement: ArgumentRequirement, q: string)
    requires q == "" || q[0] != ':'
    ensures StartsWith(Colons(requirement) + q, "::") <==> requirement == HasOptionalArgument
    ensures StartsWith(Colons(requirement) + q, ":") <==> requirement != NoArgument
  {
    var text := Colons(requirement) + q;
    assert |text| >= 1 ==> text[..1][0] == text[0];
    assert |text| >= 2 ==> text[..2][1] == text[1];
  }

  lemma ColonsBehind(p: string, c: char, requirement: ArgumentRequirement, q: string)
    requires c != ':' && c !in p && c !in q
    ensures var s := p + [c] + Colons(requirement) + q;
            IndexOf(s, c) == |p| < |s| && s[|p| + 1..] == Colons(requirement) + q &&
            IndexOf(s[|p| + 1..], c) == |s[|p| + 1..]|
  {
    hide IndexOf;
    var s := p + [c] + Colons(requirement) + q;
    assert s[..|p|] == p;
    IndexOfIs(s, c, |p|);
    var behind := s[|p| + 1..];
    assert behind == Colons(requirement) + q && behind[..|behind|] == behind;
    IndexOfIs(behind, c, |behind|);
  }

  lemma OfferedLetter(spec: Spec, c: char, requirement: ArgumentRequirement)
    requires Offers(spec.shortOptions, c, requirement)
    ensures LookupShort(spec, c) == Known(requirement)
  {
    hide IndexOf, StartsWith, Colons;
    var p, q :| OfferedAt(spec.shortOptions, c, requirement, p, q);
    ColonsBehind(p, c, requirement, q);
    ColonsRead(requirement, q);
  }

  lemma NoSuchLetter(spec: Spec, c: char)
    requires c !in spec.shortOptions
    ensures LookupShort(spec, c) == Unknown
  {
    assert spec.shortOptions[..|spec.shortOptions|] == spec.shortOptions;
    IndexOfIs(spec.shortOptions, c, |spec.shortOptions|);
  }

  // ----- What is written -----

  /** A plain argument, some letters behind one dash, or a word behind two. */
  datatype Item =
    | Plain(text: string)
    | Letters(flags: string, last: char, requirement: ArgumentRequirement, value: Option<string>, separate: bool)
    | Word(option: LongOption, value: Option<string>, separate: bool)

  /** A value is given where one is asked for, or may be; only one that is asked for may be an argument of its own. */
  predicate ValueFits(requirement: ArgumentRequirement, value: Option<string>, separate: bool) {
    match requirement
    case NoArgument => value.None? && !separate
    case HasOptionalArgument => !separate
    case HasRequiredArgument => value.Some?
  }

  ghost predicate AreFlags(spec: Spec, flags: string) {
    forall k :: 0 <= k < |flags| ==> Offers(spec.shortOptions, flags[k], NoArgument)
  }

  ghost predicate Good(spec: Spec, item: Item) {
    match item
    case Plain(text) => text == "" || text[0] != '-' || text == "-"
    case Letters(flags, last, requirement, value, separate) =>
      AreFlags(spec, flags) && Offers(spec.shortOptions, last, requirement) && (flags + [last])[0] != '-' &&
      ValueFits(requirement, value, separate) && (value.Some? && !separate ==> value.value != "")
    case Word(option, value, separate) =>
      OffersLong(spec.longOptions, option) && ValueFits(option.requirement, value, separate)
  }

  function Attached(before: string, value: Option<string>, separate: bool): string {
    if value.Some? && !separate then before + value.value else ""
  }

  function Apart(value: Option<string>, separate: bool): seq<string> {
    if value.Some? && separate then [value.value] else []
  }

  function Written(item: Item): seq<string> {
    match item
    case Plain(text) => [text]
    case Letters(flags, last, _, value, separate) =>
      ["-" + (flags + [last] + Attached("", value, separate))] + Apart(value, separate)
    case Word(option, value, separate) =>
      ["--" + (option.name + Attached("=", value, separate))] + Apart(value, separate)
  }

  function FlagReports(flags: string): seq<Report> {
    if flags == "" then [] else [Report(flags[0] as int, None)] + FlagReports(flags[1..])
  }

  /** What the parser is to report: a letter at the end of its argument has the empty value rather than none. */
  function Told(item: Item): seq<Report> {
    match item
    case Plain(_) => []
    case Letters(flags, last, _, value, _) =>
      FlagReports(flags) + [Report(last as int, if value.Some? then value else Some(""))]
    case Word(option, value, _) => [Report(if option.hasFlag then 0 else option.val, value)]
  }

  // ----- One item -----

  /** Letters from some place of an argument on. */
  lemma {:induction false} LettersRead(spec: Spec, arg: string, head: string, flags: string, last: char,
                                       requirement: ArgumentRequirement, attached: string, next: Option<string>)
    requires arg == head + flags + [last] + attached && |head| >= 1
    requires AreFlags(spec, flags) && Offers(spec.shortOptions, last, requirement)
    requires attached != "" ==> requirement != NoArgument
    ensures ShortTakes(spec, arg, |head|, next.Some?) ==
            if attached != "" || requirement != HasRequiredArgument then 1 else if next.Some? then 2 else 0
    ensures ShortReports(spec, arg, |head|, next) ==
            FlagReports(flags) +
            if attached != "" then [Report(last as int, Some(attached))]
            else if requirement != HasRequiredArgument then [Report(last as int, Some(""))]
            else if next.Some? then [Report(last as int, next)]
            else []
    decreases |flags|
  {
    hide LookupShort, Offers;
    if flags == "" {
      assert arg[|head|] == last && arg[|head| + 1..] == attached;
      LetterNotError(spec, last, requirement);
      OfferedLetter(spec, last, requirement);
    } else {
      var c := flags[0];
      assert Offers(spec.shortOptions, c, NoArgument);
      LetterNotError(spec, c, NoArgument);
      OfferedLetter(spec, c, NoArgument);
      assert arg == head + [c] + flags[1..] + [last] + attached;
      assert arg[|head|] == c;
      LettersRead(spec, arg, head + [c], flags[1..], last, requirement, attached, next);
    }
  }

  lemma LetterNotError(spec: Spec, c: char, requirement: ArgumentRequirement)
    requires Offers(spec.shortOptions, c, requirement)
    ensures c as int != ERROR
  {}

  /** A word, and the value attached to it, is found by its name. */
  lemma {:induction false} WordFound(options: seq<LongOption>, option: LongOption, i: nat, value: Option<string>)
    requires IsFirstNamed(options, option, i) && forall k :: 0 <= k < |options| ==> '=' !in options[k].name
    ensures LookupLong(options, option.name + Attached("=", value, false)) == Some((option, value))
  {
    var arg := option.name + Attached("=", value, false);
    if i == 0 {
      assert arg[..|option.name|] == option.name;
      if value.Some? {
        assert arg == option.name + ("=" + value.value);
        assert arg[|option.name|] == '=' && arg[|option.name| + 1..] == value.value;
      }
    } else {
      assert IsFirstNamed(options[1..], option, i - 1) by {
        forall j | 0 <= j < i - 1 ensures options[1..][j].name != option.name {
          assert options[1..][j] == options[j + 1];
        }
      }
      WordFound(options[1..], option, i - 1, value);
      OtherName(options[0].name, option.name, value);
    }
  }

  /** Another name does not end where this one, or its equals sign, stands. */
  lemma OtherName(other: string, name: string, value: Option<string>)
    requires other != name && '=' !in other && '=' !in name
    ensures var arg := name + Attached("=", value, false);
            StartsWith(arg, other) ==> |arg| != |other| && arg[|other|] != '='
  {
    var arg := name + Attached("=", value, false);
    if |other| < |name| {
      assert arg[|other|] == name[|other|];
      assert name[|other|] in name;
    } else if |other| == |name| {
      assert arg[..|name|] == name;
    } else if |other| <= |arg| {
      assert arg[|name|] == '=' && arg[..|other|][|name|] == arg[|name|];
      assert other[|name|] in other;
    }
  }

  lemma WordArgument(option: LongOption, attached: string, rest: seq<string>)
    requires option.name != ""
    ensures var arg := "--" + (option.name + attached);
            StartsWith(arg, "--") && arg != "--" && !IsPositional(arg) && arg[2..] == option.name + attached
  {
    var arg := "--" + (option.name + attached);
    assert arg[..2] == "--" && arg[..1] == "-" && |arg| > 2;
  }

  lemma LettersArgument(text: string)
    requires text != "" && text[0] != '-'
    ensures var arg := "-" + text;
            !StartsWith(arg, "--") && arg != "--" && !IsPositional(arg)
  {
    var arg := "-" + text;
    assert arg[..1] == "-" && |arg| >= 2 && arg[1] == text[0];
    assert arg[..2][1] == arg[1];
  }

  /** An option as it is written takes its own arguments, and reports what it is to report. */
  ghost predicate IsRead(spec: Spec, item: Item, rest: seq<string>) {
    var args := Written(item) + rest;
    !item.Plain? && !IsPositional(args[0]) && args[0] != "--" &&
    Takes(spec, args) == |Written(item)| && HeadReports(spec, args, 0) == Told(item)
  }

  lemma LettersAreRead(spec: Spec, item: Item, rest: seq<string>)
    requires Good(spec, item) && item.Letters?
    ensures IsRead(spec, item, rest)
  {
    hide IsPositional, StartsWith, ShortTakes, ShortReports, LookupLong, Offers, OffersLong;
    var args := Written(item) + rest;
    assert args[0] == Written(item)[0];
    var value, separate := item.value, item.separate;
    var attached := Attached("", value, separate);
    var text := item.flags + [item.last] + attached;
    assert "-" + item.flags + [item.last] + attached == "-" + text;
    assert text[0] == (item.flags + [item.last])[0];
    assert value.Some? && !separate ==> attached == value.value;
    LettersArgument(text);
    LettersRead(spec, "-" + text, "-", item.flags, item.last, item.requirement, attached, Second(args));
  }

  lemma WordIsRead(spec: Spec, item: Item, rest: seq<string>)
    requires Good(spec, item) && item.Word?
    ensures IsRead(spec, item, rest)
  {
    hide IsPositional, StartsWith, ShortTakes, ShortReports, LookupLong, Offers, OffersLong;
    var args := Written(item) + rest;
    assert args[0] == Written(item)[0];
    var option, attached := item.option, Attached("=", item.value, item.separate);
    var given := if item.separate then None else item.value;
    assert attached == Attached("=", given, false);
    WordNamed(spec, option);
    WordArgument(option, attached, rest);
    WordLookedUp(spec.longOptions, option, given);
  }

  lemma WordNamed(spec: Spec, option: LongOption)
    requires OffersLong(spec.longOptions, option)
    ensures option.name != "" && (option.hasFlag || option.val != ERROR)
  {}

  lemma WordLookedUp(options: seq<LongOption>, option: LongOption, value: Option<string>)
    requires OffersLong(options, option)
    ensures LookupLong(options, option.name + Attached("=", value, false)) == Some((option, value))
  {
    hide LookupLong, Attached;
    var i :| IsFirstNamed(options, option, i);
    WordFound(options, option, i, value);
  }

  // ----- Whole command lines -----

  function WrittenAll(items: seq<Item>): seq<string> {
    if items == [] then [] else Written(items[0]) + WrittenAll(items[1..])
  }

  function ToldAll(items: seq<Item>): seq<Report> {
    if items == [] then [] else Told(items[0]) + ToldAll(items[1..])
  }

  /** The arguments of all options, or all plain ones. */
  function Chosen(items: seq<Item>, plain: bool): seq<string> {
    if items == [] then []
    else (if items[0].Plain? == plain then Written(items[0]) else []) + Chosen(items[1..], plain)
  }

  predicate HasPlus(spec: Spec) {
    spec.shortOptions != "" && spec.shortOptions[0] == '+'
  }

  /** After a leading plus sign nothing may stand behind a plain argument, so that there is none among the options. */
  ghost predicate AllGood(spec: Spec, items: seq<Item>) {
    forall k :: 0 <= k < |items| ==> Good(spec, items[k]) && (HasPlus(spec) ==> !items[k].Plain?)
  }

  ghost function After(split: Split, options: seq<string>, positionals: seq<string>): Split {
    match split
    case Failed => Failed
    case Split(o, p) => Split(options + o, positionals + p)
  }

  lemma ItemRead(spec: Spec, item: Item, rest: seq<string>)
    requires Good(spec, item) && (HasPlus(spec) ==> !item.Plain?)
    ensures Reports(spec, Written(item) + rest, 0) == Told(item) + Reports(spec, rest, 0)
    ensures Partition(spec, Written(item) + rest) ==
            After(Partition(spec, rest), if item.Plain? then [] else Written(item), if item.Plain? then Written(item) else [])
  {
    hide Takes, HeadReports;
    var args := Written(item) + rest;
    if item.Plain? {
      assert args[0] == item.text && args[1..] == rest;
    } else {
      hide Written, Told;
      if item.Letters? {
        LettersAreRead(spec, item, rest);
      } else {
        WordIsRead(spec, item, rest);
      }
      var n := |Written(item)|;
      assert args[n..] == rest && args[..n] == Written(item);
    }
  }

  /**
   Items in any order are read back: each option is reported with its value, options come first with their values, plain
   arguments last, both in their order, and what follows is read as if it stood alone.
   */
  lemma {:induction false} WrittenIsRead(spec: Spec, items: seq<Item>, rest: seq<string>)
    requires AllGood(spec, items)
    ensures Reports(spec, WrittenAll(items) + rest, 0) == ToldAll(items) + Reports(spec, rest, 0)
    ensures Partition(spec, WrittenAll(items) + rest) ==
            After(Partition(spec, rest), Chosen(items, false), Chosen(items, true))
  {
    hide Reports, Partition, Written, Told, Good;
    if items == [] {
      assert WrittenAll(items) + rest == rest;
    } else {
      var behind := WrittenAll(items[1..]) + rest;
      WrittenIsRead(spec, items[1..], rest);
      ItemRead(spec, items[0], behind);
      assert WrittenAll(items) + rest == Written(items[0]) + behind;
      Associate(Told(items[0]), ToldAll(items[1..]), Reports(spec, rest, 0));
      TwiceAfter(Partition(spec, rest), Chosen(items[1..], false), Chosen(items[1..], true),
                 if items[0].Plain? then [] else Written(items[0]), if items[0].Plain? then Written(items[0]) else []);
    }
  }

  lemma TwiceAfter(split: Split, o: seq<string>, p: seq<string>, o': seq<string>, p': seq<string>)
    ensures After(After(split, o, p), o', p') == After(split, o' + o, p' + p)
  {
    if split.Split? {
      Associate(o', o, split.options);
      Associate(p', p, split.positionals);
    }
  }

  /** How a command line may end: there, at a double dash, or after a leading plus sign at a plain argument. */
  lemma EndsWell(spec: Spec, rest: seq<string>)
    ensures Reports(spec, [], 0) == [] && Partition(spec, []) == Split([], [])
    ensures Reports(spec, ["--"] + rest, 0) == [] && Partition(spec, ["--"] + rest) == Split(["--"], rest)
    ensures HasPlus(spec) && rest != [] && Good(spec, Plain(rest[0])) ==>
              Reports(spec, rest, 0) == [] && Partition(spec, rest) == Split([], rest)
  {
    hide Takes, HeadReports;
    assert (["--"] + rest)[1..] == rest;
  }

  /** One colon: the next argument is the value, or what stands behind the letter. */
  lemma OneColon(p: string, c: char, q: string, longOptions: seq<LongOption>, v: string, rest: seq<string>)
    requires c !in p && c !in q && c !in ":?-" && (q == "" || q[0] != ':') && v != ""
    ensures var spec := Spec(p + [c] + ":" + q, longOptions);
            Reports(spec, ["-" + [c], v] + rest, 0) == [Report(c as int, Some(v))] + Reports(spec, rest, 0) &&
            Partition(spec, ["-" + [c], v] + rest) == After(Partition(spec, rest), ["-" + [c], v], []) &&
            Reports(spec, ["-" + ([c] + v)] + rest, 0) == [Report(c as int, Some(v))] + Reports(spec, rest, 0)
  {
    hide Reports, Partition, After;
    OneLetter(p, c, HasRequiredArgument, q, longOptions, Some(v), true, rest);
    OneLetter(p, c, HasRequiredArgument, q, longOptions, Some(v), false, rest);
    assert [c] + "" == [c] && ["-" + [c]] + [v] == ["-" + [c], v];
    assert Attached("", Some(v), false) == v && Apart(Some(v), false) == [];
    assert ["-" + ([c] + v)] + [] + rest == ["-" + ([c] + v)] + rest;
  }

  /** Two colons: only what stands behind the letter is the value, and the next argument stays where it is. */
  lemma TwoColons(p: string, c: char, q: string, longOptions: seq<LongOption>, v: string, rest: seq<string>)
    requires c !in p && c !in q && c !in ":?-" && (q == "" || q[0] != ':') && v != ""
    ensures var spec := Spec(p + [c] + "::" + q, longOptions);
            Reports(spec, ["-" + [c]] + rest, 0) == [Report(c as int, Some(""))] + Reports(spec, rest, 0) &&
            Partition(spec, ["-" + [c]] + rest) == After(Partition(spec, rest), ["-" + [c]], []) &&
            Reports(spec, ["-" + ([c] + v)] + rest, 0) == [Report(c as int, Some(v))] + Reports(spec, rest, 0)
  {
    hide Reports, Partition, After;
    OneLetter(p, c, HasOptionalArgument, q, longOptions, None, false, rest);
    OneLetter(p, c, HasOptionalArgument, q, longOptions, Some(v), false, rest);
    assert [c] + "" == [c] && ["-" + [c]] + [] == ["-" + [c]];
    assert Attached("", Some(v), false) == v && Apart(Some(v), false) == [];
    assert ["-" + ([c] + v)] + [] + rest == ["-" + ([c] + v)] + rest;
  }

  /** No colon: no value, and the next argument stays where it is. */
  lemma NoColon(p: string, c: char, q: string, longOptions: seq<LongOption>, rest: seq<string>)
    requires c !in p && c !in q && c !in ":?-" && (q == "" || q[0] != ':')
    ensures var spec := Spec(p + [c] + q, longOptions);
            Reports(spec, ["-" + [c]] + rest, 0) == [Report(c as int, Some(""))] + Reports(spec, rest, 0) &&
            Partition(spec, ["-" + [c]] + rest) == After(Partition(spec, rest), ["-" + [c]], [])
  {
    hide Reports, Partition, After;
    OneLetter(p, c, NoArgument, q, longOptions, None, false, rest);
    assert p + [c] + "" + q == p + [c] + q;
    assert [c] + "" == [c] && ["-" + [c]] + [] == ["-" + [c]];
  }

  lemma OneLetter(p: string, c: char, requirement: ArgumentRequirement, q: string, longOptions: seq<LongOption>,
                  value: Option<string>, separate: bool, rest: seq<string>)
    requires c !in p && c !in q && c !in ":?-" && (q == "" || q[0] != ':')
    requires ValueFits(requirement, value, separate) && (value.Some? ==> value.value != "")
    ensures var spec, text := Spec(p + [c] + Colons(requirement) + q, longOptions), [c] + Attached("", value, separate);
            Reports(spec, ["-" + text] + Apart(value, separate) + rest, 0) ==
            [Report(c as int, if value.Some? then value else Some(""))] + Reports(spec, rest, 0) &&
            Partition(spec, ["-" + text] + Apart(value, separate) + rest) ==
            After(Partition(spec, rest), ["-" + text] + Apart(value, separate), [])
  {
    hide Reports, Partition;
    var spec := Spec(p + [c] + Colons(requirement) + q, longOptions);
    var item := Letters("", c, requirement, value, separate);
    assert OfferedAt(spec.shortOptions, c, requirement, p, q);
    assert [] + [c] == [c] && [c][0] == c;
    ItemRead(spec, item, rest);
    assert [] + Told(item) == Told(item);
  }

  // ----- Arguments that are refused -----

  /** An argument that starts with letters that are fine, or a word. */
  datatype Fault =
    | UnknownLetter(flags: string, c: char, more: string)
    | MissingValue(flags: string, last: char)
    | UnknownWord(name: string, value: Option<string>)
    | UnwantedValue(option: LongOption, given: string)
    | MissingWordValue(option: LongOption)

  /** A value is missing only where no argument follows. */
  ghost predicate IsFault(spec: Spec, fault: Fault, rest: seq<string>) {
    match fault
    case UnknownLetter(flags, c, _) => AreFlags(spec, flags) && c !in spec.shortOptions && (flags + [c])[0] != '-'
    case MissingValue(flags, last) =>
      AreFlags(spec, flags) && Offers(spec.shortOptions, last, HasRequiredArgument) && (flags + [last])[0] != '-' && rest == []
    case UnknownWord(name, _) =>
      name != "" && '=' !in name &&
      forall i :: 0 <= i < |spec.longOptions| ==> '=' !in spec.longOptions[i].name && spec.longOptions[i].name != name
    case UnwantedValue(option, _) => OffersLong(spec.longOptions, option) && option.requirement == NoArgument
    case MissingWordValue(option) =>
      OffersLong(spec.longOptions, option) && option.requirement == HasRequiredArgument && rest == []
  }

  function FaultText(fault: Fault): string {
    match fault
    case UnknownLetter(flags, c, more) => "-" + (flags + [c] + more)
    case MissingValue(flags, last) => "-" + (flags + [last])
    case UnknownWord(name, value) => "--" + (name + Attached("=", value, false))
    case UnwantedValue(option, given) => "--" + (option.name + Attached("=", Some(given), false))
    case MissingWordValue(option) => "--" + option.name
  }

  /** The letters before the fault are still reported. */
  function FaultTold(fault: Fault): seq<Report> {
    match fault
    case UnknownLetter(flags, _, _) => FlagReports(flags)
    case MissingValue(flags, _) => FlagReports(flags)
    case _ => []
  }

  lemma {:induction false} UnknownLetterRead(spec: Spec, arg: string, head: string, flags: string, c: char, more: string,
                                             next: Option<string>)
    requires arg == head + flags + [c] + more && |head| >= 1 && AreFlags(spec, flags) && c !in spec.shortOptions
    ensures ShortTakes(spec, arg, |head|, next.Some?) == 0 && ShortReports(spec, arg, |head|, next) == FlagReports(flags)
    decreases |flags|
  {
    hide LookupShort, Offers;
    if flags == "" {
      assert arg[|head|] == c;
      NoSuchLetter(spec, c);
    } else {
      assert Offers(spec.shortOptions, flags[0], NoArgument);
      LetterNotError(spec, flags[0], NoArgument);
      OfferedLetter(spec, flags[0], NoArgument);
      assert arg == head + [flags[0]] + flags[1..] + [c] + more;
      assert arg[|head|] == flags[0];
      UnknownLetterRead(spec, arg, head + [flags[0]], flags[1..], c, more, next);
    }
  }

  lemma {:induction false} WordNotFound(options: seq<LongOption>, name: string, value: Option<string>)
    requires '=' !in name
    requires forall i :: 0 <= i < |options| ==> '=' !in options[i].name && options[i].name != name
    ensures LookupLong(options, name + Attached("=", value, false)) == None
  {
    if options != [] {
      OtherName(options[0].name, name, value);
      WordNotFound(options[1..], name, value);
    }
  }

  lemma FaultFails(spec: Spec, fault: Fault, rest: seq<string>)
    requires IsFault(spec, fault, rest)
    ensures Reports(spec, [FaultText(fault)] + rest, 0) == FaultTold(fault)
    ensures Partition(spec, [FaultText(fault)] + rest) == Failed
  {
    hide IsPositional, StartsWith, ShortTakes, ShortReports, LookupLong, Offers, OffersLong;
    var args := [FaultText(fault)] + rest;
    match fault
    case UnknownLetter(flags, c, more) =>
      var text := flags + [c] + more;
      assert "-" + flags + [c] + more == "-" + text;
      assert text[0] == (flags + [c])[0];
      LettersArgument(text);
      UnknownLetterRead(spec, "-" + text, "-", flags, c, more, Second(args));
    case MissingValue(flags, last) =>
      var text := flags + [last];
      assert "-" + flags + [last] + "" == "-" + text;
      LettersArgument(text);
      LettersRead(spec, "-" + text, "-", flags, last, HasRequiredArgument, "", Second(args));
    case UnknownWord(name, value) =>
      WordArgument(LongOption(name, NoArgument, false, 0), Attached("=", value, false), rest);
      WordNotFound(spec.longOptions, name, value);
    case UnwantedValue(option, given) =>
      WordNamed(spec, option);
      WordArgument(option, Attached("=", Some(given), false), rest);
      WordLookedUp(spec.longOptions, option, Some(given));
    case MissingWordValue(option) =>
      WordNamed(spec, option);
      WordArgument(option, "", rest);
      WordLookedUp(spec.longOptions, option, None);
      assert option.name + "" == option.name;
  }

  // ----- The parser itself -----

  /** A whole command line written and parsed: everything is reported, and the arguments are parted. */
  method WriteAndParse(spec: Spec, items: seq<Item>)
    returns (ok: bool, reports: seq<Report>, options: seq<string>, positionals: seq<string>)
    requires AllGood(spec, items) && forall i :: 0 <= i < |spec.longOptions| ==> spec.longOptions[i].val != END
    ensures ok && reports == ToldAll(items) && options == Chosen(items, false) && positionals == Chosen(items, true)
  {
    hide Reports, Partition;
    var written := WrittenAll(items);
    var args := new string[|written|](i requires 0 <= i < |written| => written[i]);
    assert args[..] == written && written + [] == written;
    WrittenIsRead(spec, items, []);
    EndsWell(spec, []);
    NoValueLooksLikeEnd(spec, written, 0);
    var parser := new OptionParser(args, spec);
    ok, reports := parser.ParseAll();
    options, positionals := args[..parser.argIndex], args[parser.argIndex..];
    assert ToldAll(items) + [] == ToldAll(items);
    assert Chosen(items, false) + [] == Chosen(items, false) && Chosen(items, true) + [] == Chosen(items, true);
  }

  /** A refused argument ends the parsing with an error, after everything before it has been reported. */
  method WriteAndFail(spec: Spec, items: seq<Item>, fault: Fault, rest: seq<string>) returns (ok: bool, reports: seq<Report>)
    requires AllGood(spec, items) && IsFault(spec, fault, rest)
    requires forall i :: 0 <= i < |spec.longOptions| ==> spec.longOptions[i].val != END
    ensures !ok && reports == ToldAll(items) + FaultTold(fault)
  {
    hide Reports, Partition;
    var written := WrittenAll(items) + ([FaultText(fault)] + rest);
    var args := new string[|written|](i requires 0 <= i < |written| => written[i]);
    assert args[..] == written;
    WrittenIsRead(spec, items, [FaultText(fault)] + rest);
    FaultFails(spec, fault, rest);
    NoValueLooksLikeEnd(spec, written, 0);
    var parser := new OptionParser(args, spec);
    ok, reports := parser.ParseAll();
  }
}
