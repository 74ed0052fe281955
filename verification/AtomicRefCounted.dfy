/**
 The atomic reference count under every interleaving of its threads. An action is one atomic access of the counter
 together with what its thread does until its next access, but ref checks the old value in an action of its own,
 because other threads may see the counter wrapped around before the check ends the process.
 */
module AtomicRefCounted {

  /** The largest value of the counter's type. */
  const MAXIMUM: nat := 0xFFFF_FFFF

  /**
   Where a thread stands: between calls, in ref with the value it has incremented, in try_ref with the value it
   expects, or about to destroy the object.
   */
  datatype Place = Outside | Adding(before: nat) | Trying(expected: nat) | Destroying

  /** A thread, and the number of references it owns. */
  datatype Thread = Thread(owned: nat, place: Place)

  datatype State = State(count: nat, threads: seq<Thread>, destructions: nat, aborted: bool)

  datatype Action =
    | RefAdds(t: nat)
    | RefChecks(t: nat)
    | TryRefLoads(t: nat)
    | TryRefExchanges(t: nat)
    | TryRefGivesUp(t: nat)
    | Unref(t: nat)
    | Destroys(t: nat)
    | Hands(t: nat, u: nat)

  /** One thread, the creator, owns the only reference. */
  predicate Initial(s: State) {
    s.count == 1 && s.destructions == 0 && !s.aborted && |s.threads| > 0 && s.threads[0] == Thread(1, Outside) &&
    forall t :: 0 < t < |s.threads| ==> s.threads[t] == Thread(0, Outside)
  }

  /** References are added, dropped and handed on only by threads that own one; anybody may try to get one. */
  predicate Enabled(s: State, a: Action) {
    !s.aborted && a.t < |s.threads| &&
    var thread := s.threads[a.t];
    match a
    case RefAdds(_) => thread.place == Outside && thread.owned > 0
    case RefChecks(_) => thread.place.Adding?
    case TryRefLoads(_) => thread.place == Outside
    case TryRefExchanges(_) => thread.place.Trying? && thread.place.expected > 0
    case TryRefGivesUp(_) => thread.place == Trying(0)
    case Unref(_) => thread.place == Outside && thread.owned > 0
    case Destroys(_) => thread.place == Destroying
    case Hands(t, u) => thread.place == Outside && thread.owned > 0 && u < |s.threads| && u != t
  }

  function With(s: State, t: nat, thread: Thread): State
    requires t < |s.threads|
  {
    s.(threads := s.threads[t := thread])
  }

  /** The checks in the code end the process when they fail. */
  function Checked(condition: bool, s: State): State {
    if condition then s else s.(aborted := true)
  }

  function Do(s: State, a: Action): State
    requires Enabled(s, a)
  {
    var thread := s.threads[a.t];
    match a
    case RefAdds(t) =>
      var next := if s.count == MAXIMUM then 0 else s.count + 1;
      With(s.(count := next), t, Thread(thread.owned + 1, Adding(s.count)))
    case RefChecks(t) =>
      Checked(0 < thread.place.before < MAXIMUM, With(s, t, thread.(place := Outside)))
    case TryRefLoads(t) =>
      With(s, t, thread.(place := Trying(s.count)))
    case TryRefExchanges(t) =>
      var expected := thread.place.expected;
      Checked(expected < MAXIMUM,
              if s.count == expected then With(s.(count := expected + 1), t, Thread(thread.owned + 1, Outside))
              else With(s, t, thread.(place := Trying(s.count))))
    case TryRefGivesUp(t) =>
      With(s, t, thread.(place := Outside))
    case Unref(t) =>
      var next := if s.count == 0 then MAXIMUM else s.count - 1;
      Checked(s.count > 0,
              With(s.(count := next), t, Thread(thread.owned - 1, if next == 0 then Destroying else Outside)))
    case Destroys(t) =>
      Checked(s.count == 0, With(s.(destructions := s.destructions + 1), t, thread.(place := Outside)))
    case Hands(t, u) =>
      var s' := With(s, t, thread.(owned := thread.owned - 1));
      With(s', u, s'.threads[u].(owned := s'.threads[u].owned + 1))
  }

  // ----- What every step keeps -----

  function Owned(threads: seq<Thread>): nat {
    if threads == [] then 0 else threads[0].owned + Owned(threads[1..])
  }

  function CountDestroying(threads: seq<Thread>): nat {
    if threads == [] then 0 else (if threads[0].place == Destroying then 1 else 0) + CountDestroying(threads[1..])
  }

  /** Some thread has incremented the full counter: when that thread goes on, the process ends. */
  predicate Doomed(s: State) {
    exists t :: 0 <= t < |s.threads| && s.threads[t].place.Adding? && s.threads[t].place.before >= MAXIMUM
  }

  /**
   The counter is the number of references owned; the object is destroyed, or somebody is about to destroy it, once
   and only when there are none; and who has seen zero was not mistaken.
   */
  ghost predicate Safe(s: State) {
    s.count <= MAXIMUM && s.count == Owned(s.threads) &&
    s.destructions + CountDestroying(s.threads) == (if s.count == 0 then 1 else 0) &&
    (forall t :: 0 <= t < |s.threads| && s.threads[t].place == Trying(0) ==> s.count == 0) &&
    forall t :: 0 <= t < |s.threads| && s.threads[t].place.Adding? ==> 0 < s.threads[t].place.before < MAXIMUM
  }

  lemma {:induction false} OwnedUpdate(threads: seq<Thread>, t: nat, thread: Thread)
    requires t < |threads|
    ensures Owned(threads[t := thread]) == Owned(threads) - threads[t].owned + thread.owned
    ensures Owned(threads) >= threads[t].owned
  {
    if t > 0 {
      OwnedUpdate(threads[1..], t - 1, thread);
      assert threads[t := thread][1..] == threads[1..][t - 1 := thread];
    } else {
      assert threads[t := thread][1..] == threads[1..];
    }
  }

  function IsDestroying(thread: Thread): nat {
    if thread.place == Destroying then 1 else 0
  }

  lemma {:induction false} DestroyingUpdate(threads: seq<Thread>, t: nat, thread: Thread)
    requires t < |threads|
    ensures CountDestroying(threads[t := thread]) == CountDestroying(threads) - IsDestroying(threads[t]) + IsDestroying(thread)
    ensures CountDestroying(threads) >= IsDestroying(threads[t])
  {
    if t > 0 {
      DestroyingUpdate(threads[1..], t - 1, thread);
      assert threads[t := thread][1..] == threads[1..][t - 1 := thread];
    } else {
      assert threads[t := thread][1..] == threads[1..];
    }
  }

  lemma {:induction false} NobodyLeft(threads: seq<Thread>)
    requires forall t :: 0 <= t < |threads| ==> threads[t].owned == 0 && threads[t].place != Destroying
    ensures Owned(threads) == 0 && CountDestroying(threads) == 0
  {
    if threads != [] {
      NobodyLeft(threads[1..]);
    }
  }

  lemma InitiallySafe(s: State)
    requires Initial(s)
    ensures Safe(s)
  {
    NobodyLeft(s.threads[1..]);
  }

  /** One thread goes on, and counter and destructions follow. */
  lemma ThreadGoesOn(s: State, t: nat, thread: Thread, count: nat, destructions: nat)
    requires Safe(s) && t < |s.threads| && count <= MAXIMUM && count == s.count - s.threads[t].owned + thread.owned
    requires s.count == 0 || thread.place == Trying(0) ==> count == 0
    requires thread.place.Adding? ==> 0 < thread.place.before < MAXIMUM
    requires destructions + IsDestroying(thread) - (if count == 0 then 1 else 0) ==
             s.destructions + IsDestroying(s.threads[t]) - (if s.count == 0 then 1 else 0)
    ensures Safe(State(count, s.threads[t := thread], destructions, s.aborted))
  {
    OwnedUpdate(s.threads, t, thread);
    DestroyingUpdate(s.threads, t, thread);
  }

  /** Every step keeps the invariant, unless it finds the counter full: then the process ends, or is bound to end. */
  lemma StepKeepsSafe(s: State, a: Action)
    requires Safe(s) && Enabled(s, a)
    ensures Do(s, a).aborted ==> a.TryRefExchanges? && s.threads[a.t].place.expected >= MAXIMUM
    ensures Doomed(Do(s, a)) ==> a.RefAdds? && s.count == MAXIMUM
    ensures !Do(s, a).aborted && !Doomed(Do(s, a)) ==> Safe(Do(s, a))
  {
    hide Owned, CountDestroying;
    OwnedUpdate(s.threads, a.t, s.threads[a.t]);
    DestroyingUpdate(s.threads, a.t, s.threads[a.t]);
    var s' := Do(s, a);
    match a
    case RefAdds(t) =>
      assert s'.threads[t].place == Adding(s.count);
      if s.count < MAXIMUM {
        ThreadGoesOn(s, t, s'.threads[t], s'.count, s'.destructions);
      }
    case Hands(t, u) =>
      HandKeepsCounts(s.threads, t, u);
    case _ =>
      if !s'.aborted {
        ThreadGoesOn(s, a.t, s'.threads[a.t], s'.count, s'.destructions);
      }
  }

  /** Handing a reference on changes only who owns it. */
  lemma HandKeepsCounts(threads: seq<Thread>, t: nat, u: nat)
    requires t < |threads| && u < |threads| && t != u && threads[t].owned > 0
    ensures var handed := threads[t := threads[t].(owned := threads[t].owned - 1)]
                                 [u := threads[u].(owned := threads[u].owned + 1)];
            Owned(handed) == Owned(threads) && CountDestroying(handed) == CountDestroying(threads)
  {
    var less := threads[t := threads[t].(owned := threads[t].owned - 1)];
    OwnedUpdate(threads, t, threads[t].(owned := threads[t].owned - 1));
    DestroyingUpdate(threads, t, threads[t].(owned := threads[t].owned - 1));
    OwnedUpdate(less, u, threads[u].(owned := threads[u].owned + 1));
    DestroyingUpdate(less, u, threads[u].(owned := threads[u].owned + 1));
  }

  /** No step of another thread saves the process. */
  lemma DoomedStays(s: State, a: Action)
    requires Doomed(s) && Enabled(s, a)
    ensures Do(s, a).aborted || Doomed(Do(s, a))
  {
    var t :| 0 <= t < |s.threads| && s.threads[t].place.Adding? && s.threads[t].place.before >= MAXIMUM;
    assert !Do(s, a).aborted ==> Do(s, a).threads[t].place == s.threads[t].place;
  }

  // ----- Whole runs -----

  /** A run of any length, with the actions of the threads in any order. */
  ghost predicate IsRun(states: seq<State>, actions: seq<Action>) {
    |states| == |actions| + 1 && Initial(states[0]) &&
    forall i :: 0 <= i < |actions| ==> Enabled(states[i], actions[i]) && states[i + 1] == Do(states[i], actions[i])
  }

  lemma {:induction false} RunIsSafe(states: seq<State>, actions: seq<Action>, i: nat)
    requires IsRun(states, actions) && i < |states|
    ensures !states[i].aborted && !Doomed(states[i]) ==> Safe(states[i])
    decreases i
  {
    if i == 0 {
      InitiallySafe(states[0]);
    } else {
      RunIsSafe(states, actions, i - 1);
      assert Enabled(states[i - 1], actions[i - 1]) && states[i - 1 + 1] == Do(states[i - 1], actions[i - 1]);
      if Doomed(states[i - 1]) {
        DoomedStays(states[i - 1], actions[i - 1]);
      } else {
        StepKeepsSafe(states[i - 1], actions[i - 1]);
      }
    }
  }

  lemma OwnerCounts(threads: seq<Thread>, t: nat)
    requires t < |threads| && threads[t].owned > 0
    ensures Owned(threads) > 0
  {
    OwnedUpdate(threads, t, threads[t]);
  }

  /** While any thread owns a reference, the object exists and nobody is about to destroy it. */
  lemma OwnedIsAlive(states: seq<State>, actions: seq<Action>, i: nat, t: nat)
    requires IsRun(states, actions) && i < |states| && !states[i].aborted && !Doomed(states[i])
    requires t < |states[i].threads| && states[i].threads[t].owned > 0
    ensures states[i].destructions == 0 && CountDestroying(states[i].threads) == 0 && states[i].count > 0
  {
    RunIsSafe(states, actions, i);
    OwnerCounts(states[i].threads, t);
  }

  /** Once the counter is zero it stays zero: no reference can be had again, and the object is destroyed once at most. */
  lemma {:induction false} DeadStaysDead(states: seq<State>, actions: seq<Action>, i: nat, j: nat)
    requires IsRun(states, actions) && i <= j < |states| && !states[j].aborted && !Doomed(states[j]) && states[i].count == 0
    ensures states[j].count == 0 && Owned(states[j].threads) == 0 && states[j].destructions <= 1
    decreases j - i
  {
    RunIsSafe(states, actions, j);
    if i < j {
      var before := states[j - 1];
      assert Enabled(before, actions[j - 1]) && states[j - 1 + 1] == Do(before, actions[j - 1]);
      if Doomed(before) {
        DoomedStays(before, actions[j - 1]);
      }
      DeadStaysDead(states, actions, i, j - 1);
      var t := actions[j - 1].t;
      OwnedUpdate(before.threads, t, before.threads[t]);
    }
  }

  /** A try_ref that succeeds has got its reference to an object that exists; one that gives up has found it dead. */
  lemma TryRefIsRight(states: seq<State>, actions: seq<Action>, i: nat)
    requires IsRun(states, actions) && i < |actions| && !states[i + 1].aborted && !Doomed(states[i])
    ensures actions[i].TryRefGivesUp? ==> states[i].count == 0
    ensures actions[i].TryRefExchanges? && states[i + 1].threads[actions[i].t].place == Outside ==>
              states[i].count > 0 && states[i].destructions == 0 && CountDestroying(states[i].threads) == 0 &&
              states[i + 1].count == states[i].count + 1
  {
    assert Enabled(states[i], actions[i]) && states[i + 1] == Do(states[i], actions[i]);
    RunIsSafe(states, actions, i);
  }

  /** When nobody owns a reference or is about to destroy the object, it has been destroyed exactly once. */
  lemma DestroyedExactlyOnce(states: seq<State>, actions: seq<Action>, i: nat)
    requires IsRun(states, actions) && i < |states| && !states[i].aborted && !Doomed(states[i])
    requires forall t :: 0 <= t < |states[i].threads| ==>
               states[i].threads[t].owned == 0 && states[i].threads[t].place != Destroying
    ensures states[i].destructions == 1
  {
    RunIsSafe(states, actions, i);
    NobodyLeft(states[i].threads);
  }

  /** Only a run in which ref finds the counter full ever gets there. */
  lemma {:induction false} DoomedByFullCounter(states: seq<State>, actions: seq<Action>, i: nat) returns (k: nat)
    requires IsRun(states, actions) && i < |states| && !states[i].aborted && Doomed(states[i])
    ensures k < i && actions[k].RefAdds? && states[k].count == MAXIMUM && Owned(states[k].threads) == MAXIMUM
  {
    if i > 0 {
      assert Enabled(states[i - 1], actions[i - 1]) && states[i - 1 + 1] == Do(states[i - 1], actions[i - 1]);
      if Doomed(states[i - 1]) {
        k := DoomedByFullCounter(states, actions, i - 1);
      } else {
        RunIsSafe(states, actions, i - 1);
        StepKeepsSafe(states[i - 1], actions[i - 1]);
        k := i - 1;
      }
    }
  }

  // ----- What the calls of a run amount to -----

  /** By this action thread t has got a reference: by ref, by a try_ref that is through, or from another thread. */
  predicate GotBy(action: Action, after: State, t: nat) {
    action == RefAdds(t) || (action.Hands? && action.u == t) ||
    (action == TryRefExchanges(t) && t < |after.threads| && after.threads[t].place == Outside)
  }

  predicate Gets(states: seq<State>, actions: seq<Action>, k: nat, t: nat)
    requires k < |actions| && |states| == |actions| + 1
  {
    GotBy(actions[k], states[k + 1], t)
  }

  predicate Loses(action: Action, t: nat) {
    action == Unref(t) || (action.Hands? && action.t == t)
  }

  function One(condition: bool): int {
    if condition then 1 else 0
  }

  /** The references of thread t after i steps, told by the calls: the creator has one to start with. */
  function References(states: seq<State>, actions: seq<Action>, t: nat, i: nat): int
    requires i <= |actions| && |states| == |actions| + 1
  {
    if i == 0 then One(t == 0)
    else References(states, actions, t, i - 1) + One(Gets(states, actions, i - 1, t)) - One(Loses(actions[i - 1], t))
  }

  /** One, and the references taken by ref and by successful try_refs, less the unrefs. */
  function Balance(states: seq<State>, actions: seq<Action>, i: nat): int
    requires i <= |actions| && |states| == |actions| + 1
  {
    if i == 0 then 1
    else
      var action := actions[i - 1];
      Balance(states, actions, i - 1) + One(!action.Hands? && Gets(states, actions, i - 1, action.t)) - One(action.Unref?)
  }

  lemma RunStep(states: seq<State>, actions: seq<Action>, k: nat)
    requires IsRun(states, actions) && k < |actions|
    ensures Enabled(states[k], actions[k]) && states[k + 1] == Do(states[k], actions[k])
  {}

  lemma {:induction false} SameThreads(states: seq<State>, actions: seq<Action>, i: nat)
    requires IsRun(states, actions) && i <= |actions|
    ensures |states[i].threads| == |states[0].threads|
  {
    if i > 0 {
      RunStep(states, actions, i - 1);
      SameThreads(states, actions, i - 1);
    }
  }

  lemma OwnedStep(s: State, action: Action, t: nat)
    requires Enabled(s, action) && t < |s.threads|
    ensures t < |Do(s, action).threads|
    ensures Do(s, action).threads[t].owned == s.threads[t].owned + One(GotBy(action, Do(s, action), t)) - One(Loses(action, t))
  {}

  /** Every thread owns what its calls have got and not lost. */
  lemma {:induction false} OwnedIsReferences(states: seq<State>, actions: seq<Action>, i: nat, t: nat)
    requires IsRun(states, actions) && i <= |actions| && t < |states[i].threads|
    ensures states[i].threads[t].owned == References(states, actions, t, i)
  {
    hide Do, Enabled, GotBy, Loses;
    if i > 0 {
      SameThreads(states, actions, i - 1);
      SameThreads(states, actions, i);
      RunStep(states, actions, i - 1);
      OwnedIsReferences(states, actions, i - 1, t);
      OwnedStep(states[i - 1], actions[i - 1], t);
    }
  }

  /** What is fine now was fine before. */
  lemma {:induction false} FineBefore(states: seq<State>, actions: seq<Action>, i: nat, j: nat)
    requires IsRun(states, actions) && i <= j <= |actions| && !states[j].aborted && !Doomed(states[j])
    ensures !states[i].aborted && !Doomed(states[i])
    decreases j - i
  {
    if i < j {
      RunStep(states, actions, j - 1);
      if Doomed(states[j - 1]) {
        DoomedStays(states[j - 1], actions[j - 1]);
      }
      FineBefore(states, actions, i, j - 1);
    }
  }

  lemma CountStep(s: State, action: Action)
    requires Safe(s) && Enabled(s, action) && !Do(s, action).aborted && !Doomed(Do(s, action))
    ensures Do(s, action).count ==
            s.count + One(!action.Hands? && GotBy(action, Do(s, action), action.t)) - One(action.Unref?)
  {
    hide Owned, CountDestroying;
    if action.RefAdds? {
      assert Do(s, action).threads[action.t].place == Adding(s.count);
    } else if action.Unref? {
      OwnerCounts(s.threads, action.t);
    }
  }

  /** The counter is the balance of the calls. */
  lemma {:induction false} CounterIsBalance(states: seq<State>, actions: seq<Action>, i: nat)
    requires IsRun(states, actions) && i <= |actions| && !states[i].aborted && !Doomed(states[i])
    ensures states[i].count == Balance(states, actions, i)
  {
    hide Do, Enabled, GotBy, Safe, Doomed;
    if i > 0 {
      FineBefore(states, actions, i - 1, i);
      CounterIsBalance(states, actions, i - 1);
      RunStep(states, actions, i - 1);
      RunIsSafe(states, actions, i - 1);
      CountStep(states[i - 1], actions[i - 1]);
    }
  }

  predicate NoOtherDestroys(threads: seq<Thread>, t: nat) {
    forall u :: 0 <= u < |threads| && u != t ==> threads[u].place != Destroying
  }

  lemma OneDestroys(threads: seq<Thread>, t: nat, u: nat)
    requires t < |threads| && u < |threads| && t != u && threads[t].place == Destroying && CountDestroying(threads) == 1
    ensures threads[u].place != Destroying
  {
    var without := threads[t := Thread(0, Outside)];
    DestroyingUpdate(threads, t, Thread(0, Outside));
    DestroyingUpdate(without, u, without[u]);
    assert without[u] == threads[u];
  }

  /** The unref that leaves no reference, and no other one, makes its thread the one that destroys the object. */
  lemma LastUnrefDestroys(states: seq<State>, actions: seq<Action>, i: nat, t: nat)
    requires IsRun(states, actions) && i < |actions| && actions[i] == Unref(t)
    requires !states[i + 1].aborted && !Doomed(states[i + 1])
    ensures t < |states[i + 1].threads|
    ensures Balance(states, actions, i + 1) == 0 <==> states[i + 1].threads[t].place == Destroying
    ensures Balance(states, actions, i + 1) == 0 ==>
              states[i + 1].destructions == 0 && Enabled(states[i + 1], Destroys(t)) &&
              NoOtherDestroys(states[i + 1].threads, t)
  {
    RunStep(states, actions, i);
    FineBefore(states, actions, i, i + 1);
    RunIsSafe(states, actions, i);
    RunIsSafe(states, actions, i + 1);
    CounterIsBalance(states, actions, i + 1);
    OwnerCounts(states[i].threads, t);
    var s := states[i + 1];
    if s.count == 0 {
      DestroyingUpdate(s.threads, t, s.threads[t]);
      forall u | 0 <= u < |s.threads| && u != t ensures s.threads[u].place != Destroying {
        OneDestroys(s.threads, t, u);
      }
    }
  }

  /** When the thread about to destroy the object goes on, the object has been destroyed once, and no check fails. */
  lemma DestroyerDestroys(states: seq<State>, actions: seq<Action>, i: nat, t: nat)
    requires IsRun(states, actions) && i < |actions| && actions[i] == Destroys(t) && !Doomed(states[i])
    ensures states[i].destructions == 0 && states[i + 1].destructions == 1 && !states[i + 1].aborted
  {
    RunStep(states, actions, i);
    RunIsSafe(states, actions, i);
    DestroyingUpdate(states[i].threads, t, states[i].threads[t]);
  }

  /** With no call under way the object has been destroyed, once, if and only if the calls balance. */
  lemma {:induction false} BalancedIsDestroyed(states: seq<State>, actions: seq<Action>, i: nat)
    requires IsRun(states, actions) && i <= |actions| && !states[i].aborted && !Doomed(states[i])
    requires forall t :: 0 <= t < |states[i].threads| ==> states[i].threads[t].place == Outside
    ensures states[i].destructions == if Balance(states, actions, i) == 0 then 1 else 0
  {
    RunIsSafe(states, actions, i);
    CounterIsBalance(states, actions, i);
    NobodyDestroys(states[i].threads);
  }

  lemma {:induction false} NobodyDestroys(threads: seq<Thread>)
    requires forall t :: 0 <= t < |threads| ==> threads[t].place == Outside
    ensures CountDestroying(threads) == 0
  {
    if threads != [] {
      NobodyDestroys(threads[1..]);
    }
  }

  /** Whoever is inside a call can go on, and whoever owns a reference can drop it. */
  lemma NobodyIsStuck(s: State, t: nat) returns (action: Action)
    requires t < |s.threads| && !s.aborted && (s.threads[t].place != Outside || s.threads[t].owned > 0)
    ensures Enabled(s, action) && action.t == t
  {
    match s.threads[t].place
    case Outside => action := Unref(t);
    case Adding(_) => action := RefChecks(t);
    case Trying(expected) => action := if expected == 0 then TryRefGivesUp(t) else TryRefExchanges(t);
    case Destroying => action := Destroys(t);
  }

  lemma ExpectedStep(s: State, action: Action, t: nat)
    requires Enabled(s, action) && t < |s.threads| && |Do(s, action).threads| == |s.threads|
    requires Do(s, action).threads[t].place.Trying?
    ensures action.t == t ==>
              (action == TryRefLoads(t) || action == TryRefExchanges(t)) &&
              Do(s, action).threads[t].place.expected == s.count == Do(s, action).count
    ensures action.t != t ==> s.threads[t].place == Do(s, action).threads[t].place
  {}

  /** Between calls anybody may start a try_ref, and an owner may take, drop or hand on a reference. */
  lemma CallsMayStart(s: State, t: nat, u: nat)
    requires t < |s.threads| && u < |s.threads| && t != u && !s.aborted && s.threads[t].place == Outside
    ensures Enabled(s, TryRefLoads(t))
    ensures s.threads[t].owned > 0 ==> Enabled(s, RefAdds(t)) && Enabled(s, Unref(t)) && Enabled(s, Hands(t, u))
  {}

  /** Which action is the last one of a call; no action touches the call of another thread. */
  lemma CallsEnd(states: seq<State>, actions: seq<Action>, i: nat, u: nat)
    requires IsRun(states, actions) && i < |actions| && u < |states[i].threads|
    ensures actions[i].t < |states[i + 1].threads| && u < |states[i + 1].threads|
    ensures var action, place := actions[i], states[i + 1].threads[actions[i].t].place;
            (action.RefChecks? || action.TryRefGivesUp? || action.Destroys? || action.Hands? ==> place == Outside) &&
            (action.RefAdds? ==> place == Adding(states[i].count)) &&
            (action.TryRefLoads? || action.TryRefExchanges? ==> place == Outside || place.Trying?) &&
            (action.Unref? ==> place == Outside || place == Destroying)
    ensures u != actions[i].t ==> states[i + 1].threads[u].place == states[i].threads[u].place
  {
    RunStep(states, actions, i);
  }

  /** What a thread in try_ref expects is what the counter was when the thread last looked. */
  lemma {:induction false} ExpectedWasSeen(states: seq<State>, actions: seq<Action>, i: nat, t: nat) returns (k: nat)
    requires IsRun(states, actions) && i <= |actions| && t < |states[i].threads| && states[i].threads[t].place.Trying?
    ensures k < i && (actions[k] == TryRefLoads(t) || actions[k] == TryRefExchanges(t))
    ensures states[k].count == states[i].threads[t].place.expected && states[k + 1].count == states[k].count
    ensures forall j :: k < j < i ==> actions[j].t != t
  {
    hide Do, Enabled;
    NobodyTries(states[0]);
    RunStep(states, actions, i - 1);
    SameThreads(states, actions, i - 1);
    SameThreads(states, actions, i);
    ExpectedStep(states[i - 1], actions[i - 1], t);
    if actions[i - 1].t == t {
      k := i - 1;
    } else {
      k := ExpectedWasSeen(states, actions, i - 1, t);
    }
  }

  lemma NobodyTries(s: State)
    requires Initial(s)
    ensures forall t :: 0 <= t < |s.threads| ==> s.threads[t].place == Outside
  {}

  /**
   The exchange of a try_ref gets its reference exactly when the counter is what the thread expects. It fails only when
   another thread has taken or dropped a reference since this one last looked, so that somebody always gets on.
   */
  lemma ExchangeSucceeds(states: seq<State>, actions: seq<Action>, i: nat, t: nat) returns (j: nat)
    requires IsRun(states, actions) && i < |actions| && actions[i] == TryRefExchanges(t)
    requires !states[i + 1].aborted && !Doomed(states[i + 1])
    ensures t < |states[i].threads| && states[i].threads[t].place.Trying?
    ensures Gets(states, actions, i, t) <==> states[i].count == states[i].threads[t].place.expected
    ensures !Gets(states, actions, i, t) ==>
              j < i && states[j].count != states[j + 1].count && forall m :: j <= m < i ==> actions[m].t != t
  {
    RunStep(states, actions, i);
    j := 0;
    if states[i].count != states[i].threads[t].place.expected {
      var k := ExpectedWasSeen(states, actions, i, t);
      j := CounterChanges(states, k + 1, i);
    }
  }

  /** Between two different values of the counter there is a step that changes it. */
  lemma CounterChanges(states: seq<State>, k: nat, i: nat) returns (j: nat)
    requires k <= i < |states| && states[k].count != states[i].count
    ensures k <= j < i && states[j].count != states[j + 1].count
    decreases i - k
  {
    if states[i - 1].count != states[i].count {
      assert states[i - 1].count != states[i - 1 + 1].count;
      j := i - 1;
    } else {
      j := CounterChanges(states, k, i - 1);
    }
  }
}
