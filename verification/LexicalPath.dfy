/**
 Paths as text: canonical form, and the way from one absolute path to another.
 */
module LexicalPaths {
  import opened Basics

  // ----- Splitting and joining at slashes -----

  /** The place of the first slash, or the length. */
  function FirstSlash(s: string): (i: nat)
    ensures i <= |s| && (forall k :: 0 <= k < i ==> s[k] != '/') && (i < |s| ==> s[i] == '/')
  {
    if s == "" || s[0] == '/' then 0 else 1 + FirstSlash(s[1..])
  }

  /** The parts between slashes, without the empty ones. */
  function SplitParts(s: string): seq<string>
    decreases |s|
  {
    if s == "" then []
    else
      var i := FirstSlash(s);
      (if i == 0 then [] else [s[..i]]) + (if i == |s| then [] else SplitParts(s[i + 1..]))
  }

  function Joined(parts: seq<string>): string {
    if parts == [] then ""
    else if |parts| == 1 then parts[0]
    else parts[0] + "/" + Joined(parts[1..])
  }

  predicate IsPart(part: string) {
    part != "" && '/' !in part
  }

  ghost predicate AreParts(parts: seq<string>) {
    forall i :: 0 <= i < |parts| ==> IsPart(parts[i])
  }

  lemma FirstSlashIs(s: string, i: nat)
    requires i <= |s| && (forall k :: 0 <= k < i ==> s[k] != '/') && (i < |s| ==> s[i] == '/')
    ensures FirstSlash(s) == i
  {}

  /** Text that starts with a part: the rest starts behind its slash. */
  lemma SplitFirst(head: string, rest: string)
    requires '/' !in head
    ensures SplitParts(head + "/" + rest) == (if head == "" then [] else [head]) + SplitParts(rest)
  {
    var s := head + "/" + rest;
    FirstSlashIs(s, |head|);
    assert s[..|head|] == head && s[|head| + 1..] == rest;
  }

  lemma SplitOne(head: string)
    requires '/' !in head
    ensures SplitParts(head) == if head == "" then [] else [head]
  {
    FirstSlashIs(head, |head|);
    assert head[..|head|] == head;
  }

  lemma {:induction false} SplitConcat(a: string, b: string)
    ensures SplitParts(a + "/" + b) == SplitParts(a) + SplitParts(b)
    decreases |a|
  {
    hide SplitParts;
    var i := FirstSlash(a);
    var head := a[..i];
    assert '/' !in head;
    if i == |a| {
      assert head == a;
      SplitFirst(a, b);
      SplitOne(a);
    } else {
      var rest := a[i + 1..];
      assert a == head + "/" + rest;
      SplitConcat(rest, b);
      SplitFirst(head, rest);
      SplitFirst(head, rest + "/" + b);
      assert a + "/" + b == head + "/" + (rest + "/" + b);
      assert (if head == "" then [] else [head]) + (SplitParts(rest) + SplitParts(b))
          == (if head == "" then [] else [head]) + SplitParts(rest) + SplitParts(b);
    }
  }

  lemma SplitAbsolute(s: string)
    ensures SplitParts("/" + s) == SplitParts(s)
  {
    SplitFirst("", s);
    assert "" + "/" + s == "/" + s;
  }

  lemma {:induction false} SplitIntoParts(s: string)
    ensures AreParts(SplitParts(s))
    decreases |s|
  {
    if s != "" {
      var i := FirstSlash(s);
      if i < |s| {
        SplitIntoParts(s[i + 1..]);
      }
    }
  }

  lemma {:induction false} SplitJoined(parts: seq<string>)
    requires AreParts(parts)
    ensures SplitParts(Joined(parts)) == parts
  {
    if |parts| == 1 {
      SplitOne(parts[0]);
    } else if parts != [] {
      SplitJoined(parts[1..]);
      SplitFirst(parts[0], Joined(parts[1..]));
    }
  }

  // ----- The canonical form -----

  /** One part after those kept so far. */
  function Step(kept: seq<string>, part: string, isAbsolute: bool): seq<string> {
    if part == "." then kept
    else if part == ".." && kept == [] && isAbsolute then kept
    else if part == ".." && kept != [] && kept[|kept| - 1] != ".." then kept[..|kept| - 1]
    else kept + [part]
  }

  function Steps(kept: seq<string>, parts: seq<string>, isAbsolute: bool): seq<string>
    decreases |parts|
  {
    if parts == [] then kept else Steps(Step(kept, parts[0], isAbsolute), parts[1..], isAbsolute)
  }

  function Rendered(kept: seq<string>, isAbsolute: bool): string {
    (if isAbsolute then "/" else "") + Joined(if kept == [] && !isAbsolute then ["."] else kept)
  }

  predicate IsAbsolute(path: string) {
    path != "" && path[0] == '/'
  }

  /** What is left of a path after dropping dots and cancelling double dots. */
  function Resolved(path: string): seq<string> {
    Steps([], SplitParts(path), IsAbsolute(path))
  }

  function Canonical(path: string): string {
    if path == "" then "." else Rendered(Resolved(path), IsAbsolute(path))
  }

  lemma {:induction false} StepsConcat(kept: seq<string>, a: seq<string>, b: seq<string>, isAbsolute: bool)
    ensures Steps(kept, a + b, isAbsolute) == Steps(Steps(kept, a, isAbsolute), b, isAbsolute)
    decreases |a|
  {
    if a == [] {
      assert a + b == b;
    } else {
      StepsConcat(Step(kept, a[0], isAbsolute), a[1..], b, isAbsolute);
      assert (a + b)[0] == a[0] && (a + b)[1..] == a[1..] + b;
    }
  }

  /** Canonical parts: no single dots, and double dots only at the start of a relative path. */
  ghost predicate Normal(kept: seq<string>, isAbsolute: bool) {
    AreParts(kept) && (forall i :: 0 <= i < |kept| ==> kept[i] != ".") &&
    (forall i :: 0 <= i < |kept| && isAbsolute ==> kept[i] != "..") &&
    (forall i, j :: 0 <= i < j < |kept| && kept[j] == ".." ==> kept[i] == "..")
  }

  lemma StepNormal(kept: seq<string>, part: string, isAbsolute: bool)
    requires Normal(kept, isAbsolute) && IsPart(part)
    ensures Normal(Step(kept, part, isAbsolute), isAbsolute)
  {
    var next := Step(kept, part, isAbsolute);
    if next == kept + [part] {
      forall i, j | 0 <= i < j < |next| && next[j] == ".." ensures next[i] == ".." {
        if j == |kept| {
          assert kept[|kept| - 1] == "..";
        }
      }
    }
  }

  lemma {:induction false} StepsNormal(kept: seq<string>, parts: seq<string>, isAbsolute: bool)
    requires Normal(kept, isAbsolute) && AreParts(parts)
    ensures Normal(Steps(kept, parts, isAbsolute), isAbsolute)
    decreases |parts|
  {
    if parts != [] {
      StepNormal(kept, parts[0], isAbsolute);
      StepsNormal(Step(kept, parts[0], isAbsolute), parts[1..], isAbsolute);
    }
  }

  lemma ResolvedNormal(path: string)
    ensures Normal(Resolved(path), IsAbsolute(path))
  {
    SplitIntoParts(path);
    StepsNormal([], SplitParts(path), IsAbsolute(path));
  }

  /** Canonical parts are kept as they are. */
  lemma {:induction false} StepsKeep(kept: seq<string>, parts: seq<string>, isAbsolute: bool)
    requires Normal(kept + parts, isAbsolute)
    ensures Steps(kept, parts, isAbsolute) == kept + parts
    decreases |parts|
  {
    if parts != [] {
      var all := kept + parts;
      assert all[|kept|] == parts[0];
      assert kept != [] ==> all[|kept| - 1] == kept[|kept| - 1];
      assert kept + [parts[0]] + parts[1..] == all;
      StepsKeep(kept + [parts[0]], parts[1..], isAbsolute);
    }
  }

  lemma JoinedStart(parts: seq<string>)
    requires AreParts(parts) && parts != []
    ensures Joined(parts) != "" && Joined(parts)[0] == parts[0][0] != '/'
  {
    assert IsPart(parts[0]);
    assert parts[0][0] in parts[0];
  }

  /** Rendering canonical parts and taking the text apart again gives the parts. */
  lemma RenderedResolves(kept: seq<string>, isAbsolute: bool)
    requires Normal(kept, isAbsolute)
    ensures Rendered(kept, isAbsolute) != "" && IsAbsolute(Rendered(kept, isAbsolute)) == isAbsolute
    ensures Resolved(Rendered(kept, isAbsolute)) == kept
  {
    var text := Rendered(kept, isAbsolute);
    if kept == [] && !isAbsolute {
      assert text == ".";
      SplitOne(".");
      assert Steps([], ["."], false) == Steps(Step([], ".", false), [], false);
    } else {
      SplitJoined(kept);
      SplitAbsolute(Joined(kept));
      if kept != [] {
        JoinedStart(kept);
      }
      assert !isAbsolute ==> text == Joined(kept);
      assert [] + kept == kept;
      StepsKeep([], kept, isAbsolute);
    }
  }

  /** Canonicalizing twice is canonicalizing once. */
  lemma CanonicalIdempotent(path: string)
    ensures Canonical(Canonical(path)) == Canonical(path)
  {
    if path == "" {
      RenderedResolves([], false);
    } else {
      ResolvedNormal(path);
      RenderedResolves(Resolved(path), IsAbsolute(path));
    }
  }

  // ----- What a path means -----

  /** One step from a place: a dot stays, two dots go up, and at the root they stay. */
  function Moved(place: seq<string>, part: string): seq<string> {
    if part == "." then place
    else if part == ".." then if place == [] then [] else place[..|place| - 1]
    else place + [part]
  }

  /** Where the parts of a path lead from a place. */
  function Walk(place: seq<string>, parts: seq<string>): seq<string>
    decreases |parts|
  {
    if parts == [] then place else Walk(Moved(place, parts[0]), parts[1..])
  }

  lemma {:induction false} WalkConcat(place: seq<string>, a: seq<string>, b: seq<string>)
    ensures Walk(place, a + b) == Walk(Walk(place, a), b)
    decreases |a|
  {
    if a == [] {
      assert a + b == b;
    } else {
      assert (a + b)[0] == a[0] && (a + b)[1..] == a[1..] + b;
      WalkConcat(Moved(place, a[0]), a[1..], b);
    }
  }

  /** Down by parts without dots. */
  lemma {:induction false} WalkDown(place: seq<string>, parts: seq<string>)
    requires forall i :: 0 <= i < |parts| ==> parts[i] != "." && parts[i] != ".."
    ensures Walk(place, parts) == place + parts
    decreases |parts|
  {
    if parts != [] {
      WalkDown(place + [parts[0]], parts[1..]);
      assert place + [parts[0]] + parts[1..] == place + parts;
    } else {
      assert place + parts == place;
    }
  }

  /** Down and up again is where it was. */
  lemma DownAndUp(place: seq<string>, part: string)
    requires part != "." && part != ".."
    ensures Walk(place, [part, ".."]) == place
  {
    assert [part, ".."][1..] == [".."] && [".."][1..] == [];
    assert (place + [part])[..|place|] == place;
    assert Walk(place, [part, ".."]) == Walk(place + [part], [".."]) == Walk(place, []);
  }

  /** Keeping a part, dropping it or cancelling it leads to the same place, from anywhere or, if absolute, from the root. */
  lemma StepWalks(place: seq<string>, kept: seq<string>, part: string, isAbsolute: bool)
    requires Normal(kept, isAbsolute) && (isAbsolute ==> place == [])
    ensures Walk(place, Step(kept, part, isAbsolute)) == Walk(place, kept + [part])
  {
    hide Walk;
    if part == "." {
      WalkConcat(place, kept, ["."]);
      WalkStays(Walk(place, kept));
    } else if part == ".." && kept == [] && isAbsolute {
      assert kept + [part] == [".."];
      WalkStays([]);
    } else if part == ".." && kept != [] && kept[|kept| - 1] != ".." {
      var before, last := kept[..|kept| - 1], kept[|kept| - 1];
      assert kept + [part] == before + [last, ".."];
      WalkConcat(place, before, [last, ".."]);
      DownAndUp(Walk(place, before), last);
    }
  }

  lemma WalkStays(place: seq<string>)
    ensures Walk(place, ["."]) == place && Walk(place, []) == place && Walk([], [".."]) == []
  {}

  lemma {:induction false} StepsWalk(place: seq<string>, kept: seq<string>, parts: seq<string>, isAbsolute: bool)
    requires Normal(kept, isAbsolute) && AreParts(parts) && (isAbsolute ==> place == [])
    ensures Walk(place, Steps(kept, parts, isAbsolute)) == Walk(place, kept + parts)
    decreases |parts|
  {
    hide Walk, Step, Normal;
    if parts == [] {
      assert kept + parts == kept;
    } else {
      var next := Step(kept, parts[0], isAbsolute);
      StepNormal(kept, parts[0], isAbsolute);
      StepsWalk(place, next, parts[1..], isAbsolute);
      StepWalks(place, kept, parts[0], isAbsolute);
      WalkConcat(place, next, parts[1..]);
      WalkConcat(place, kept + [parts[0]], parts[1..]);
      assert kept + [parts[0]] + parts[1..] == kept + parts;
    }
  }

  /** A path and its canonical form lead to the same place: a relative one from everywhere, an absolute one from the root. */
  lemma CanonicalWalks(path: string, place: seq<string>)
    requires IsAbsolute(path) ==> place == []
    ensures Walk(place, SplitParts(Canonical(path))) == Walk(place, SplitParts(path))
    ensures IsAbsolute(Canonical(path)) == IsAbsolute(path)
  {
    hide Walk, Steps;
    if path == "" {
      SplitOne("");
      SplitOne(".");
      WalkStays(place);
    } else {
      SplitIntoParts(path);
      StepsWalk(place, [], SplitParts(path), IsAbsolute(path));
      assert [] + SplitParts(path) == SplitParts(path);
      ResolvedNormal(path);
      RenderedResolves(Resolved(path), IsAbsolute(path));
      SplitText(Resolved(path), IsAbsolute(path));
      WalkStays(place);
    }
  }

  /** The parts of a canonical text. */
  lemma SplitText(kept: seq<string>, isAbsolute: bool)
    requires AreParts(kept)
    ensures SplitParts(Rendered(kept, isAbsolute)) == if kept == [] && !isAbsolute then ["."] else kept
  {
    hide SplitParts;
    if kept == [] && !isAbsolute {
      JoinedOne(".");
      SplitOne(".");
      assert Rendered(kept, isAbsolute) == ".";
    } else {
      SplitJoined(kept);
      SplitAbsolute(Joined(kept));
      assert !isAbsolute ==> Rendered(kept, isAbsolute) == Joined(kept);
    }
  }

  /** A chain of steps up. */
  function Ups(n: nat): (r: seq<string>)
    ensures |r| == n && forall i :: 0 <= i < n ==> r[i] == ".."
  {
    seq(n, _ => "..")
  }

  /** Normal parts are some steps up, and then parts without dots. */
  lemma {:induction false} NormalShape(parts: seq<string>) returns (n: nat)
    requires Normal(parts, false)
    ensures n <= |parts| && parts == Ups(n) + parts[n..]
    ensures forall i :: n <= i < |parts| ==> parts[i] != "." && parts[i] != ".."
  {
    n := 0;
    while n < |parts| && parts[n] == ".."
      invariant n <= |parts| && forall i :: 0 <= i < n ==> parts[i] == ".."
    {
      n := n + 1;
    }
    assert parts[..n] == Ups(n);
  }

  lemma {:induction false} WalkUp(place: seq<string>, n: nat)
    requires n <= |place|
    ensures Walk(place, Ups(n)) == place[..|place| - n]
    decreases n
  {
    if n > 0 {
      assert Ups(n)[1..] == Ups(n - 1);
      WalkUp(place[..|place| - 1], n - 1);
      assert place[..|place| - 1][..|place| - n] == place[..|place| - n];
    } else {
      assert place[..|place|] == place;
    }
  }

  /** Up and down from a place that is deep enough. */
  lemma WalkShape(place: seq<string>, n: nat, down: seq<string>)
    requires n <= |place| && forall i :: 0 <= i < |down| ==> down[i] != "." && down[i] != ".."
    ensures Walk(place, Ups(n) + down) == place[..|place| - n] + down
  {
    WalkConcat(place, Ups(n), down);
    WalkUp(place, n);
    WalkDown(place[..|place| - n], down);
  }

  /** A place from which parts can only be told apart by where they lead: no part of it has this name. */
  lemma OneNormalForm(a: seq<string>, b: seq<string>)
    requires Normal(a, false) && Normal(b, false) && forall place :: Walk(place, a) == Walk(place, b)
    ensures a == b
  {
    hide Walk, Normal;
    var m := NormalShape(a);
    var n := NormalShape(b);
    var other := OtherThan(if m < |a| then a[m] else "", if n < |b| then b[n] else "");
    var place := seq(m + n, _ => other);
    WalkShape(place, m, a[m..]);
    WalkShape(place, n, b[n..]);
    assert Walk(place, a) == Walk(place, b);
    if m < n {
      SameShape(place, m, a[m..], n, b[n..], other);
    } else {
      SameShape(place, n, b[n..], m, a[m..], other);
    }
  }

  /** Different from both. */
  function OtherThan(x: string, y: string): (z: string)
    ensures z != x && z != y
  {
    x + y + "z"
  }

  lemma SameShape(place: seq<string>, m: nat, x: seq<string>, n: nat, y: seq<string>, other: string)
    requires m <= n <= |place| && (forall i :: 0 <= i < |place| ==> place[i] == other) && (y != [] ==> y[0] != other)
    requires place[..|place| - m] + x == place[..|place| - n] + y
    ensures m == n && x == y
  {
    if m < n {
      OtherShape(place, m, x, n, y, other);
    }
    var k := |place| - n;
    assert (place[..k] + y)[k..] == y && (place[..k] + x)[k..] == x;
  }

  lemma OtherShape(place: seq<string>, m: nat, x: seq<string>, n: nat, y: seq<string>, other: string)
    requires m < n <= |place| && (forall i :: 0 <= i < |place| ==> place[i] == other) && (y != [] ==> y[0] != other)
    ensures place[..|place| - m] + x != place[..|place| - n] + y
  {
    var k := |place| - n;
    assert (place[..|place| - m] + x)[k] == other;
    assert y != [] ==> (place[..k] + y)[k] == y[0];
  }

  /** The canonical form is the only normal one that leads where the path leads. */
  lemma OnlyCanonical(path: string, parts: seq<string>)
    requires Normal(parts, IsAbsolute(path))
    requires forall place :: (IsAbsolute(path) ==> place == []) ==> Walk(place, parts) == Walk(place, SplitParts(path))
    ensures Canonical(path) == Rendered(parts, IsAbsolute(path))
  {
    hide Walk, SplitParts, Steps;
    var kept := Resolved(path);
    ResolvedNormal(path);
    SplitIntoParts(path);
    assert [] + SplitParts(path) == SplitParts(path);
    if IsAbsolute(path) {
      StepsWalk([], [], SplitParts(path), true);
      WalkFromRoot(kept);
      WalkFromRoot(parts);
      assert Walk([], parts) == Walk([], SplitParts(path));
    } else {
      EmptyPath();
      forall place ensures Walk(place, kept) == Walk(place, parts) {
        StepsWalk(place, [], SplitParts(path), false);
        assert Walk(place, parts) == Walk(place, SplitParts(path));
      }
      OneNormalForm(kept, parts);
    }
  }

  lemma EmptyPath()
    ensures Resolved("") == [] && Canonical("") == Rendered([], false)
  {
    JoinedOne(".");
  }

  lemma WalkFromRoot(parts: seq<string>)
    requires Normal(parts, true)
    ensures Walk([], parts) == parts
  {
    WalkDown([], parts);
    assert [] + parts == parts;
  }

  lemma CanonicalInSteps(a: string, b: string)
    ensures var isAbsolute := IsAbsolute(a + "/");
            Canonical(a + "/" + b) == Rendered(Steps(Steps([], SplitParts(a), isAbsolute), SplitParts(b), isAbsolute), isAbsolute)
  {
    hide SplitParts, Steps, Rendered;
    SplitConcat(a, b);
    StepsConcat([], SplitParts(a), SplitParts(b), IsAbsolute(a + "/"));
    assert (a + "/" + b)[0] == (a + "/")[0];
  }

  /** A part and two dots behind it cancel each other, in relative paths too; a dot and an empty part say nothing. */
  lemma PartAndDotsCancel(a: string, x: string, b: string)
    requires IsPart(x) && x != "." && x != ".."
    ensures Canonical(a + "/" + x + "/../" + b) == Canonical(a + "/" + b)
    ensures Canonical(a + "/./" + b) == Canonical(a + "/" + b)
    ensures Canonical(a + "//" + b) == Canonical(a + "/" + b)
  {
    hide SplitParts, Steps, Rendered, Canonical, Step;
    var up := ".." + "/" + b;
    assert a + "/" + x + "/../" + b == a + "/" + (x + "/" + up);
    assert a + "/./" + b == a + "/" + ("." + "/" + b) && a + "//" + b == a + "/" + ("" + "/" + b);
    CanonicalInSteps(a, x + "/" + up);
    CanonicalInSteps(a, "." + "/" + b);
    CanonicalInSteps(a, "" + "/" + b);
    CanonicalInSteps(a, b);
    SplitFirst(x, up);
    SplitFirst("..", b);
    SplitFirst(".", b);
    SplitFirst("", b);
    var isAbsolute := IsAbsolute(a + "/");
    PairDropped(Steps([], SplitParts(a), isAbsolute), x, SplitParts(b), isAbsolute);
    assert [] + SplitParts(b) == SplitParts(b);
  }

  lemma PairDropped(kept: seq<string>, x: string, rest: seq<string>, isAbsolute: bool)
    requires x != "." && x != ".."
    ensures Steps(kept, [x] + ([".."] + rest), isAbsolute) == Steps(kept, rest, isAbsolute)
    ensures Steps(kept, ["."] + rest, isAbsolute) == Steps(kept, rest, isAbsolute)
  {
    var next := Step(kept, x, isAbsolute);
    assert next == kept + [x] && next[..|next| - 1] == kept;
    assert ([x] + ([".."] + rest))[1..] == [".."] + rest && ([".."] + rest)[1..] == rest;
    assert (["."] + rest)[1..] == rest;
  }

  // ----- The early exit -----

  ghost predicate HasDoubleSlash(s: string) {
    exists i :: 0 <= i < |s| - 1 && s[i] == '/' && s[i + 1] == '/'
  }

  lemma JoinedCons(head: string, parts: seq<string>)
    requires parts != []
    ensures Joined([head] + parts) == head + "/" + Joined(parts)
  {
    assert ([head] + parts)[1..] == parts;
  }

  lemma JoinedOne(head: string)
    ensures Joined([head]) == head
  {}

  ghost predicate Plain(s: string) {
    s != "" && s[0] != '/' && s[|s| - 1] != '/' && !HasDoubleSlash(s) && '.' !in s
  }

  lemma PlainRest(s: string, i: nat)
    requires Plain(s) && i < |s| && s[i] == '/'
    ensures Plain(s[i + 1..]) && s == s[..i] + "/" + s[i + 1..]
  {
    var rest := s[i + 1..];
    assert rest != [];
    assert s[i] == '/' && s[i + 1] != '/';
    forall k | 0 <= k < |rest| - 1 ensures !(rest[k] == '/' && rest[k + 1] == '/') {
      assert rest[k] == s[i + 1 + k] && rest[k + 1] == s[i + 1 + k + 1];
    }
  }

  /** Text without dots, double slashes and slashes at its ends is its parts joined. */
  lemma {:induction false} PlainIsJoined(s: string)
    requires Plain(s)
    ensures Joined(SplitParts(s)) == s && SplitParts(s) != []
    ensures forall i :: 0 <= i < |SplitParts(s)| ==> SplitParts(s)[i] != "." && SplitParts(s)[i] != ".."
    decreases |s|
  {
    hide HasDoubleSlash, SplitParts, Joined;
    var i := FirstSlash(s);
    var head := s[..i];
    assert head[0] in s;
    if i < |s| {
      PlainRest(s, i);
      PlainIsJoined(s[i + 1..]);
      SplitFirst(head, s[i + 1..]);
      JoinedCons(head, SplitParts(s[i + 1..]));
    } else {
      assert head == s;
      SplitOne(s);
      JoinedOne(s);
    }
  }

  lemma PlainIsNormal(s: string, isAbsolute: bool)
    requires Plain(s)
    ensures Steps([], SplitParts(s), isAbsolute) == SplitParts(s)
  {
    PlainIsJoined(s);
    SplitIntoParts(s);
    assert [] + SplitParts(s) == SplitParts(s);
    StepsKeep([], SplitParts(s), isAbsolute);
  }

  /** Where the early exit is taken, the path is already canonical. */
  lemma EarlyExitAgrees(path: string)
    requires path != "" && '.' !in path && !HasDoubleSlash(path) && path[|path| - 1] != '/'
    ensures Canonical(path) == path
  {
    if path[0] == '/' {
      var s := path[1..];
      assert path == "/" + s;
      assert s[0] != '/' by {
        assert path[0] == '/' && path[1] == s[0];
      }
      assert !HasDoubleSlash(s) by {
        forall k | 0 <= k < |s| - 1 ensures !(s[k] == '/' && s[k + 1] == '/') {
          assert s[k] == path[k + 1] && s[k + 1] == path[k + 1 + 1];
        }
      }
      SplitAbsolute(s);
      PlainIsJoined(s);
      PlainIsNormal(s, true);
    } else {
      PlainIsJoined(path);
      PlainIsNormal(path, false);
    }
  }

  method ContainsDoubleSlash(s: string) returns (found: bool)
    ensures found == HasDoubleSlash(s)
  {
    var i := 0;
    while i + 1 < |s|
      invariant forall k :: 0 <= k < i && k < |s| - 1 ==> !(s[k] == '/' && s[k + 1] == '/')
    {
      if s[i] == '/' && s[i + 1] == '/' {
        return true;
      }
      i := i + 1;
    }
    return false;
  }

  method CanonicalizedPath(path: string) returns (r: string)
    ensures r == Canonical(path)
  {
    if path == "" {
      return ".";
    }
    var doubled := ContainsDoubleSlash(path);
    if '.' !in path && !doubled && path[|path| - 1] != '/' {
      EarlyExitAgrees(path);
      return path;
    }
    var isAbsolute := path[0] == '/';
    var parts := SplitParts(path);
    var canonicalParts := [];
    for i := 0 to |parts|
      invariant Steps(canonicalParts, parts[i..], isAbsolute) == Resolved(path)
    {
      var part := parts[i];
      assert parts[i..][0] == part && parts[i..][1..] == parts[i + 1..];
      if part == "." {
        continue;
      }
      if part == ".." {
        if |canonicalParts| == 0 {
          if isAbsolute {
            continue;
          }
        } else {
          if canonicalParts[|canonicalParts| - 1] != ".." {
            canonicalParts := canonicalParts[..|canonicalParts| - 1];
            continue;
          }
        }
      }
      canonicalParts := canonicalParts + [part];
    }
    if |canonicalParts| == 0 && !isAbsolute {
      canonicalParts := canonicalParts + ["."];
    }
    r := (if isAbsolute then "/" else "") + Joined(canonicalParts);
  }

  // ----- Absolute and relative paths -----

  /** An absolute path stands for the place to which it leads from the root. */
  lemma ResolvedIsWalked(path: string)
    requires IsAbsolute(path)
    ensures Resolved(path) == Walk([], SplitParts(path))
  {
    hide Walk, Steps, SplitParts;
    SplitIntoParts(path);
    ResolvedNormal(path);
    StepsWalk([], [], SplitParts(path), true);
    WalkFromRoot(Resolved(path));
    assert [] + SplitParts(path) == SplitParts(path);
  }

  lemma ResolvedAgain(path: string)
    requires path != ""
    ensures Resolved(Canonical(path)) == Resolved(path)
  {
    ResolvedNormal(path);
    RenderedResolves(Resolved(path), IsAbsolute(path));
  }

  method AbsolutePath(dirPath: string, target: string) returns (r: string)
    ensures r == if IsAbsolute(target) then Canonical(target) else Canonical(dirPath + "/" + target)
    ensures IsAbsolute(target) ==> Resolved(r) == Walk([], SplitParts(target))
    ensures IsAbsolute(dirPath) && !IsAbsolute(target) ==>
              Resolved(r) == Walk(Walk([], SplitParts(dirPath)), SplitParts(target))
  {
    if IsAbsolute(target) {
      r := CanonicalizedPath(target);
      ResolvedIsWalked(target);
      ResolvedAgain(target);
      return;
    }
    SplitConcat(dirPath, target);
    WalkConcat([], SplitParts(dirPath), SplitParts(target));
    if IsAbsolute(dirPath) {
      ResolvedIsWalked(dirPath + "/" + target);
      ResolvedAgain(dirPath + "/" + target);
    }
    var joined := CanonicalizedPath(dirPath + "/" + target);
    r := CanonicalizedPath(joined);
    CanonicalIdempotent(dirPath + "/" + target);
  }

  /** Followed from the place p, the relative path r leads to the place a. */
  ghost predicate Leads(p: seq<string>, r: string, a: seq<string>) {
    !IsAbsolute(r) && Walk(p, SplitParts(r)) == a
  }

  lemma NormalPrefix(p: seq<string>, n: nat)
    requires Normal(p, true) && n <= |p|
    ensures Normal(p[..n], true) && Normal(p[n..], true) && p[..n] + p[n..] == p
  {
    assert forall i :: 0 <= i < |p[n..]| ==> p[n..][i] == p[n + i];
  }

  /** Up to the common start, then down the other parts. */
  lemma UpAndDown(p: seq<string>, a: seq<string>, common: nat)
    requires Normal(a, true) && common <= |p| && common <= |a| && p[..common] == a[..common]
    ensures Walk(p, Ups(|p| - common) + a[common..]) == a
  {
    hide Walk;
    WalkShape(p, |p| - common, a[common..]);
    assert p[..|p| - (|p| - common)] == p[..common];
    assert a == a[..common] + a[common..];
  }

  /** The text of `n` steps up and then these parts. */
  ghost function UpsText(n: nat): string {
    if n == 0 then "" else UpsText(n - 1) + "../"
  }

  lemma {:induction false} SplitUpsText(n: nat, rest: string)
    ensures SplitParts(UpsText(n) + rest) == Ups(n) + SplitParts(rest)
    decreases n
  {
    hide SplitParts;
    if n == 0 {
      assert UpsText(0) + rest == rest;
      assert Ups(0) + SplitParts(rest) == SplitParts(rest);
    } else {
      assert UpsText(n) + rest == UpsText(n - 1) + (".." + "/" + rest);
      SplitUpsText(n - 1, ".." + "/" + rest);
      SplitFirst("..", rest);
      assert Ups(n) == Ups(n - 1) + [".."];
      assert Ups(n - 1) + ([".."] + SplitParts(rest)) == Ups(n) + SplitParts(rest);
    }
  }

  lemma {:induction false} UpsTextStart(n: nat)
    ensures UpsText(n) != "" ==> UpsText(n)[0] == '.'
    ensures n > 0 ==> UpsText(n) != ""
  {
    if n > 1 {
      UpsTextStart(n - 1);
    }
  }

  lemma {:induction false} JoinedSnoc(parts: seq<string>, part: string)
    requires parts != []
    ensures Joined(parts + [part]) == Joined(parts) + "/" + part
  {
    if |parts| == 1 {
      assert (parts + [part])[1..] == [part];
    } else {
      JoinedSnoc(parts[1..], part);
      assert (parts + [part])[1..] == parts[1..] + [part] && (parts + [part])[0] == parts[0];
      assert parts[0] + "/" + (Joined(parts[1..]) + "/" + part) == parts[0] + "/" + Joined(parts[1..]) + "/" + part;
    }
  }

  /** How many parts two paths have in common at their starts. */
  function CommonLength(p: seq<string>, a: seq<string>): (c: nat)
    ensures c <= |p| && c <= |a| && p[..c] == a[..c] && (c < |p| && c < |a| ==> p[c] != a[c])
  {
    if p == [] || a == [] || p[0] != a[0] then 0 else 1 + CommonLength(p[1..], a[1..])
  }

  lemma CommonIs(p: seq<string>, a: seq<string>, c: nat)
    requires c <= |p| && c <= |a| && p[..c] == a[..c] && (c < |p| && c < |a| ==> p[c] != a[c])
    ensures CommonLength(p, a) == c
  {
    var d := CommonLength(p, a);
    assert forall i :: 0 <= i < d ==> p[..d][i] == a[..d][i] && p[i] == p[..d][i];
    assert forall i :: 0 <= i < c ==> p[..c][i] == a[..c][i] && p[i] == p[..c][i];
  }

  /** As few steps up as lead from p to a path that a starts with, and then the other parts of a. */
  ghost function ShortestWay(p: seq<string>, a: seq<string>): string {
    if p == a then "." else UpsText(|p| - CommonLength(p, a)) + Joined(a[CommonLength(p, a)..])
  }

  function UpsIn(parts: seq<string>): nat {
    if parts == [] then 0 else (if parts[0] == ".." then 1 else 0) + UpsIn(parts[1..])
  }

  function DownsIn(parts: seq<string>): nat {
    if parts == [] then 0 else (if parts[0] != "." && parts[0] != ".." then 1 else 0) + DownsIn(parts[1..])
  }

  /** The text goes up, and down, no more often than any other way from p to a. */
  ghost predicate NoneShorter(p: seq<string>, text: string, a: seq<string>) {
    forall w :: Walk(p, w) == a ==> UpsIn(SplitParts(text)) <= UpsIn(w) && DownsIn(SplitParts(text)) <= DownsIn(w)
  }

  /** One step changes what two places have in common by no more than it has to. */
  lemma CommonMoved(p: seq<string>, part: string, a: seq<string>)
    ensures part == ".." && p != [] ==> CommonLength(p[..|p| - 1], a) <= CommonLength(p, a)
    ensures CommonLength(p + [part], a) <= CommonLength(p, a) + if CommonLength(p, a) == |p| then 1 else 0
  {
    var c := CommonLength(p, a);
    if p != [] {
      var d := CommonLength(p[..|p| - 1], a);
      assert p[..d] == p[..|p| - 1][..d] == a[..d];
      CommonAtLeast(p, a, d);
    }
    var e := CommonLength(p + [part], a);
    if e <= |p| {
      assert p[..e] == (p + [part])[..e] == a[..e];
      CommonAtLeast(p, a, e);
    } else {
      assert p[..|p|] == (p + [part])[..e][..|p|] == a[..|p|];
      CommonAtLeast(p, a, |p|);
    }
  }

  lemma CommonAtLeast(p: seq<string>, a: seq<string>, d: nat)
    requires d <= |p| && d <= |a| && p[..d] == a[..d]
    ensures d <= CommonLength(p, a)
  {
    forall i | 0 <= i < d ensures p[i] == a[i] {
      assert p[..d][i] == a[..d][i];
    }
  }

  /** Whatever way leads from p to a has to leave the parts of p that a does not start with, and to add those of a. */
  lemma {:induction false} NoShorterWay(p: seq<string>, w: seq<string>, a: seq<string>)
    requires Walk(p, w) == a
    ensures UpsIn(w) >= |p| - CommonLength(p, a) && DownsIn(w) >= |a| - CommonLength(p, a)
    decreases |w|
  {
    hide CommonLength;
    if w == [] {
      assert p[..|p|] == a[..|p|];
      CommonAtLeast(p, a, |p|);
    } else {
      CommonMoved(p, w[0], a);
      NoShorterWay(Moved(p, w[0]), w[1..], a);
    }
  }

  lemma {:induction false} CountsOf(n: nat, down: seq<string>)
    requires forall i :: 0 <= i < |down| ==> down[i] != "." && down[i] != ".."
    ensures UpsIn(Ups(n) + down) == n && DownsIn(Ups(n) + down) == |down|
    decreases n, |down|
  {
    if n > 0 {
      CountsOf(n - 1, down);
      assert (Ups(n) + down)[1..] == Ups(n - 1) + down;
    } else if down != [] {
      CountsOf(0, down[1..]);
      assert Ups(0) + down == down && Ups(0) + down[1..] == down[1..];
    }
  }

  lemma ShortestIsShortest(p: seq<string>, a: seq<string>)
    requires Normal(a, true)
    ensures NoneShorter(p, ShortestWay(p, a), a)
  {
    hide SplitParts, Joined, Walk, UpsText, UpsIn, DownsIn, CommonLength;
    var c := CommonLength(p, a);
    if p == a {
      SplitOne(".");
      DotCounts();
    } else {
      var rest := a[c..];
      assert forall i :: 0 <= i < |rest| ==> rest[i] == a[c + i];
      SplitUpsText(|p| - c, Joined(rest));
      SplitJoined(rest);
      CountsOf(|p| - c, rest);
    }
    forall w | Walk(p, w) == a
      ensures UpsIn(SplitParts(ShortestWay(p, a))) <= UpsIn(w) && DownsIn(SplitParts(ShortestWay(p, a))) <= DownsIn(w)
    {
      NoShorterWay(p, w, a);
    }
  }

  lemma {:induction false} UpsTextIs(n: nat, rest: seq<string>)
    requires n > 0 || rest != []
    ensures UpsText(n) + Joined(rest) == Joined(Ups(n) + rest) + if rest == [] then "/" else ""
    decreases n
  {
    hide Joined;
    if n == 0 {
      UpsNone();
      assert Ups(0) + rest == rest && "" + Joined(rest) == Joined(rest);
    } else if n == 1 && rest == [] {
      assert UpsText(1) == UpsText(0) + "../" == "../";
      JoinedNone();
      JoinedOne("..");
      assert Ups(1) + rest == [".."];
    } else {
      UpsAround(n);
      UpsTextIs(n - 1, rest);
      assert Ups(n) + rest == [".."] + (Ups(n - 1) + rest);
      JoinedCons("..", Ups(n - 1) + rest);
      assert "../" + UpsText(n - 1) + Joined(rest) == "../" + (UpsText(n - 1) + Joined(rest));
    }
  }

  lemma {:induction false} UpsAround(n: nat)
    requires n > 0
    ensures UpsText(n) == "../" + UpsText(n - 1)
  {
    if n > 1 {
      UpsAround(n - 1);
    }
  }

  /** The text is in canonical form, but for a slash behind steps up alone. */
  lemma ShortestIsCanonical(p: seq<string>, a: seq<string>)
    requires Normal(p, true) && Normal(a, true)
    ensures var text := ShortestWay(p, a); text == Canonical(text) + if a < p then "/" else ""
  {
    hide Joined, UpsText, CommonLength, Steps, SplitParts;
    if p == a {
      RenderedResolves([], false);
      JoinedOne(".");
      assert Rendered([], false) == "." && Canonical(".") == "." == "." + "";
    } else {
      var c := CommonLength(p, a);
      var n, rest := |p| - c, a[c..];
      assert n > 0 || rest != [] by {
        assert p[..c] == a[..c];
      }
      var kept := Ups(n) + rest;
      UpsThenDown(n, a, c);
      UpsTextIs(n, rest);
      RenderedResolves(kept, false);
      assert Rendered(kept, false) == Joined(kept);
      if rest == [] {
        assert a == p[..c];
        TrailingSlash(kept);
      } else {
        NoPrefix(p, a);
        assert Canonical(Joined(kept)) == Joined(kept) == Joined(kept) + "";
      }
    }
  }

  lemma NoPrefix(p: seq<string>, a: seq<string>)
    ensures a < p ==> CommonLength(p, a) == |a|
  {
    if a < p {
      CommonAtLeast(p, a, |a|);
    }
  }

  lemma UpsThenDown(n: nat, a: seq<string>, c: nat)
    requires Normal(a, true) && c <= |a|
    ensures Normal(Ups(n) + a[c..], false)
  {
    var kept := Ups(n) + a[c..];
    forall i | 0 <= i < |kept| ensures IsPart(kept[i]) && kept[i] != "." && (i >= n ==> kept[i] != "..") {
      assert i >= n ==> kept[i] == a[c + (i - n)];
    }
  }

  /** A slash at the end says nothing. */
  lemma TrailingSlash(kept: seq<string>)
    requires Normal(kept, false) && kept != []
    ensures Canonical(Joined(kept) + "/") == Joined(kept)
  {
    hide SplitParts, Joined, Steps;
    var text := Joined(kept);
    JoinedStart(kept);
    SplitJoined(kept);
    SplitOne("");
    SplitConcat(text, "");
    assert text + "/" + "" == text + "/" && kept + [] == kept && [] + kept == kept;
    StepsKeep([], kept, false);
  }

  lemma DotCounts()
    ensures UpsIn(["."]) == 0 && DownsIn(["."]) == 0
  {
    assert ["."][1..] == [];
  }

  /** The relative way from an absolute prefix to an absolute path; nothing when one of them is not absolute. */
  method RelativePath(aPath: string, aPrefix: string) returns (r: Option<string>)
    ensures r.Some? <==> IsAbsolute(aPath) && IsAbsolute(aPrefix)
    ensures r.Some? ==> r.value == ShortestWay(Resolved(aPrefix), Resolved(aPath))
    ensures r.Some? ==> Leads(Resolved(aPrefix), r.value, Resolved(aPath))
    ensures r.Some? ==> NoneShorter(Resolved(aPrefix), r.value, Resolved(aPath))
    ensures r.Some? ==> r.value == Canonical(r.value) + if Resolved(aPath) < Resolved(aPrefix) then "/" else ""
  {
    if !IsAbsolute(aPath) || !IsAbsolute(aPrefix) {
      return None;
    }
    ResolvedNormal(aPath);
    ResolvedNormal(aPrefix);
    ShortestIsShortest(Resolved(aPrefix), Resolved(aPath));
    ShortestIsCanonical(Resolved(aPrefix), Resolved(aPath));
    if aPath == aPrefix {
      StayHere(Resolved(aPath));
      return Some(".");
    }
    var path := CanonicalizedPath(aPath);
    var prefix := CanonicalizedPath(aPrefix);
    ghost var a, p := Resolved(aPath), Resolved(aPrefix);
    RenderedResolves(a, true);
    RenderedResolves(p, true);
    if path == prefix {
      StayHere(a);
      return Some(".");
    }
    if prefix == "/" {
      FromRoot(a);
      assert p == [] by {
        RootIsEmpty();
      }
      return Some(path[1..]);
    }
    if StartsWith(path, prefix) && path[|prefix|] == '/' {
      DirectChild(a, p);
      return Some(path[|prefix| + 1..]);
    }
    var pathParts := SplitParts(path);
    var prefixParts := SplitParts(prefix);
    SplitAbsolute(Joined(a));
    SplitJoined(a);
    SplitAbsolute(Joined(p));
    SplitJoined(p);
    var text := TextBetween(pathParts, prefixParts);
    return Some(text);
  }

  lemma StayHere(a: seq<string>)
    ensures Leads(a, ".", a)
  {
    SplitOne(".");
    WalkStays(a);
  }

  lemma RootIsEmpty()
    ensures Resolved("/") == []
  {
    SplitAbsolute("");
  }

  lemma FromRoot(a: seq<string>)
    requires Normal(a, true) && a != []
    ensures Leads([], Rendered(a, true)[1..], a) && Rendered(a, true)[1..] == ShortestWay([], a)
  {
    hide Walk, SplitParts, Joined, UpsText, CommonLength;
    assert Rendered(a, true)[1..] == Joined(a);
    UpsNone();
    assert a[0..] == a && "" + Joined(a) == Joined(a);
    JoinedStart(a);
    SplitJoined(a);
    WalkFromRoot(a);
  }

  lemma {:induction false} JoinedConcat(p: seq<string>, q: seq<string>)
    requires p != [] && q != []
    ensures Joined(p + q) == Joined(p) + "/" + Joined(q)
  {
    if |p| == 1 {
      assert (p + q)[1..] == q;
    } else {
      JoinedConcat(p[1..], q);
      assert (p + q)[0] == p[0] && (p + q)[1..] == p[1..] + q;
      assert p[0] + "/" + (Joined(p[1..]) + "/" + Joined(q)) == p[0] + "/" + Joined(p[1..]) + "/" + Joined(q);
    }
  }

  /** The prefix and a slash stand at the start of the path: the rest leads down. */
  lemma DirectChild(a: seq<string>, p: seq<string>)
    requires Normal(a, true) && Normal(p, true) && p != [] && a != p
    requires var path, prefix := Rendered(a, true), Rendered(p, true);
             |prefix| < |path| && path[..|prefix|] == prefix && path[|prefix|] == '/'
    ensures Leads(p, Rendered(a, true)[|Rendered(p, true)| + 1..], a)
    ensures Rendered(a, true)[|Rendered(p, true)| + 1..] == ShortestWay(p, a)
  {
    hide SplitParts, Joined, Walk, UpsText;
    var path, prefix := Rendered(a, true), Rendered(p, true);
    var r := path[|prefix| + 1..];
    assert path == prefix + "/" + r;
    SplitConcat(prefix, r);
    SplitRendered(a);
    SplitRendered(p);
    var q := SplitParts(r);
    assert a == p + q;
    assert forall i :: 0 <= i < |q| ==> q[i] == a[|p| + i];
    WalkDown(p, q);
    JoinedConcat(p, q);
    assert path == prefix + "/" + Joined(q);
    SameRest(prefix, r, Joined(q));
    SplitIntoParts(r);
    JoinedStart(q);
    CommonIs(p, a, |p|);
    UpsNone();
    assert a[|p|..] == q && "" + Joined(q) == r;
  }

  lemma SameRest(prefix: string, r: string, r': string)
    requires prefix + "/" + r == prefix + "/" + r'
    ensures r == r'
  {
    assert (prefix + "/" + r)[|prefix| + 1..] == r;
    assert (prefix + "/" + r')[|prefix| + 1..] == r';
  }

  lemma SplitRendered(a: seq<string>)
    requires AreParts(a)
    ensures SplitParts(Rendered(a, true)) == a
  {
    SplitJoined(a);
    SplitAbsolute(Joined(a));
  }

  /** Steps up from the prefix to the common start, and then the other parts of the path. */
  method TextBetween(pathParts: seq<string>, prefixParts: seq<string>) returns (text: string)
    requires Normal(pathParts, true) && Normal(prefixParts, true) && pathParts != prefixParts
    ensures Leads(prefixParts, text, pathParts) && text == ShortestWay(prefixParts, pathParts)
  {
    hide Leads, Joined, CommonLength;
    var common := 0;
    while common < |pathParts| && common < |prefixParts|
      invariant common <= |pathParts| && common <= |prefixParts| && pathParts[..common] == prefixParts[..common]
    {
      if pathParts[common] != prefixParts[common] {
        break;
      }
      common := common + 1;
    }
    CommonIs(prefixParts, pathParts, common);
    text := "";
    for partIndex := common to |prefixParts|
      invariant text == UpsText(partIndex - common)
    {
      text := text + "../";
    }
    text := WithParts(text, pathParts, common);
    TextLeads(pathParts, prefixParts, common);
  }

  lemma TextLeads(a: seq<string>, p: seq<string>, common: nat)
    requires Normal(a, true) && Normal(p, true) && a != p
    requires common <= |p| && common <= |a| && p[..common] == a[..common]
    ensures Leads(p, UpsText(|p| - common) + Joined(a[common..]), a)
  {
    hide SplitParts, Joined, Walk, UpsText;
    var rest, ups := a[common..], |p| - common;
    NormalPrefix(a, common);
    SplitUpsText(ups, Joined(rest));
    SplitJoined(rest);
    UpAndDown(p, a, common);
    UpsTextStart(ups);
    if ups == 0 {
      assert p == a[..common];
      assert rest != [];
      JoinedStart(rest);
      UpsNone();
    }
  }

  lemma UpsNone()
    ensures UpsText(0) == ""
  {}

  /** Appends the parts from an index on, with slashes between them. */
  method WithParts(start: string, parts: seq<string>, first: nat) returns (text: string)
    requires first <= |parts|
    ensures text == start + Joined(parts[first..])
  {
    hide Joined;
    text := start;
    JoinedNone();
    assert parts[first..first] == [];
    for partIndex := first to |parts|
      invariant text == start + Joined(parts[first..partIndex]) + (if first < partIndex < |parts| then "/" else "")
    {
      ghost var before := parts[first..partIndex];
      JoinedMore(before, parts[partIndex]);
      assert parts[first..partIndex + 1] == before + [parts[partIndex]];
      text := text + parts[partIndex];
      assert text == start + Joined(parts[first..partIndex + 1]);
      if partIndex != |parts| - 1 {
        text := text + "/";
      }
    }
    assert parts[first..|parts|] == parts[first..];
  }

  lemma JoinedNone()
    ensures Joined([]) == ""
  {}

  lemma JoinedMore(parts: seq<string>, part: string)
    ensures Joined(parts + [part]) == Joined(parts) + (if parts == [] then "" else "/") + part
  {
    if parts != [] {
      JoinedSnoc(parts, part);
    } else {
      assert parts + [part] == [part];
    }
  }

  /** The relative path from p to a, resolved at p, is a in canonical form. */
  lemma LeadsBack(a: string, p: string, r: string)
    requires IsAbsolute(a) && IsAbsolute(p) && Leads(Resolved(p), r, Resolved(a))
    ensures Canonical(p + "/" + r) == Canonical(a)
  {
    hide Walk, SplitParts, Steps;
    var whole := p + "/" + r;
    assert whole[0] == p[0];
    SplitConcat(p, r);
    WalkConcat([], SplitParts(p), SplitParts(r));
    ResolvedIsWalked(p);
    ResolvedIsWalked(whole);
  }

  /** Going from p to a by the relative path gives a back in canonical form. */
  method RelativeThenAbsolute(a: string, p: string) returns (r: string)
    requires IsAbsolute(a) && IsAbsolute(p)
    ensures r == Canonical(a)
  {
    var relative := RelativePath(a, p);
    LeadsBack(a, p, relative.value);
    r := AbsolutePath(p, relative.value);
  }
}
