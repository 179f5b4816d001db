/**
 * A lock that is taken on a condition value: every interleaving of threads inside the plain, timed
 * and trying forms of Lock and inside Unlock, with spurious wake-ups and expiring waits.
 */
module ConditionLocks {

  datatype Form = Plain | Timed | Trying

  /**
   * Where a thread stands. Entering, Woken and Expired threads want the mutex; Checking, Refusing,
   * Held, Signalling and Unlocking threads own it.
   */
  datatype Place =
    | Outside
    | Entering(target: int, form: Form)   // at the first Lock of the mutex
    | Checking(target: int, form: Form)   // about to evaluate the loop's condition
    | Asleep(target: int, form: Form)     // inside Wait, mutex released
    | Woken(target: int, form: Form)      // leaving Wait, mutex not yet back
    | Expired(target: int)                // leaving a timed Wait that ran out
    | Refusing(target: int, form: Form)   // about to unlock and return false
    | Held(target: int)                   // the call has returned true
    | Signalling                          // has set the condition, about to broadcast
    | Unlocking                           // has broadcast, about to unlock

  predicate Owns(p: Place) {
    p.Checking? || p.Refusing? || p.Held? || p.Signalling? || p.Unlocking?
  }

  datatype Owner = Free | Thread(id: nat)

  /** How a call came to return. */
  datatype Cause = Satisfied | MutexMissed | WaitExpired | TestFailed

  /** A return of a lock call: its result, whether the caller owned the mutex, and the test's value. */
  datatype Return = Return(thread: nat, form: Form, result: bool, cause: Cause, owned: bool, satisfied: bool)

  datatype System = System(condition: int, owner: Owner, places: seq<Place>, log: seq<Return>)

  datatype Action =
    | Call(i: nat, target: int, form: Form)
    | Grab(i: nat)        // the mutex is obtained
    | MissMutex(i: nat)   // the mutex was busy, or the deadline passed before it was obtained
    | Check(i: nat)       // evaluate the condition: return, sleep or refuse
    | Wake(i: nat)        // a spurious wake-up
    | Expire(i: nat)      // a timed wait runs out
    | Refuse(i: nat)
    | SetCondition(i: nat, next: int)
    | Broadcast(i: nat)
    | Unlock(i: nat)

  predicate Enabled(s: System, a: Action) {
    a.i < |s.places| &&
    var p := s.places[a.i];
    match a
    case Call(_, _, _) => p.Outside?
    case Grab(_) => s.owner.Free? && (p.Entering? || p.Woken? || p.Expired?)
    case MissMutex(_) => p.Entering? && (p.form == Timed || (p.form == Trying && !s.owner.Free?))
    case Check(_) => p.Checking?
    case Wake(_) => p.Asleep?
    case Expire(_) => p.Asleep? && p.form == Timed
    case Refuse(_) => p.Refusing?
    case SetCondition(_, _) => p.Held?
    case Broadcast(_) => p.Signalling?
    case Unlock(_) => p.Unlocking?
  }

  function Rouse(p: Place): Place {
    if p.Asleep? then Woken(p.target, p.form) else p
  }

  function Next(s: System, a: Action): System
    requires Enabled(s, a)
  {
    var i := a.i;
    var p := s.places[i];
    match a
    case Call(_, target, form) => s.(places := s.places[i := Entering(target, form)])
    case Grab(_) =>
      s.(owner := Thread(i),
         places := s.places[i := if p.Expired? then Refusing(p.target, Timed) else Checking(p.target, p.form)])
    case MissMutex(_) =>
      s.(places := s.places[i := Outside],
         log := s.log + [Return(i, p.form, false, MutexMissed, s.owner == Thread(i), s.condition == p.target)])
    case Check(_) =>
      if s.condition == p.target then
        s.(places := s.places[i := Held(p.target)],
           log := s.log + [Return(i, p.form, true, Satisfied, s.owner == Thread(i), s.condition == p.target)])
      else if p.form == Trying then s.(places := s.places[i := Refusing(p.target, Trying)])
      else s.(owner := Free, places := s.places[i := Asleep(p.target, p.form)])
    case Wake(_) => s.(places := s.places[i := Woken(p.target, p.form)])
    case Expire(_) => s.(places := s.places[i := Expired(p.target)])
    case Refuse(_) =>
      var t := s.(owner := Free, places := s.places[i := Outside]);
      var cause := if p.form == Trying then TestFailed else WaitExpired;
      t.(log := s.log + [Return(i, p.form, false, cause, t.owner == Thread(i), s.condition == p.target)])
    case SetCondition(_, next) => s.(condition := next, places := s.places[i := Signalling])
    case Broadcast(_) =>
      s.(places := seq(|s.places|, j requires 0 <= j < |s.places| =>
        if j == i then Unlocking else Rouse(s.places[j])))
    case Unlock(_) => s.(owner := Free, places := s.places[i := Outside])
  }

  function Initial(condition: int, n: nat): System {
    System(condition, Free, seq(n, i => Outside), [])
  }

  ghost predicate Possible(s: System, run: seq<Action>)
    decreases |run|
  {
    run == [] || (Enabled(s, run[0]) && Possible(Next(s, run[0]), run[1..]))
  }

  ghost function After(s: System, run: seq<Action>): System
    requires Possible(s, run)
    decreases |run|
  {
    if run == [] then s else After(Next(s, run[0]), run[1..])
  }

  // ----- The invariant -----

  /** The owner recorded by the mutex is the one thread inside an owning place. */
  ghost predicate MutualExclusion(s: System) {
    && (forall i: nat :: i < |s.places| ==> (Owns(s.places[i]) <==> s.owner == Thread(i)))
    && (s.owner.Thread? ==> s.owner.id < |s.places|)
  }

  ghost predicate HeldMeansTrue(s: System) {
    forall i: nat :: i < |s.places| && s.places[i].Held? ==> s.condition == s.places[i].target
  }

  /** A sleeper whose value has come is about to be woken by the owner. */
  ghost predicate WakeupsPending(s: System) {
    forall i: nat :: i < |s.places| && s.places[i].Asleep? && s.places[i].target == s.condition ==>
      s.owner.Thread? && s.owner.id < |s.places| && s.places[s.owner.id].Signalling?
  }

  ghost predicate ReturnsExact(s: System) {
    forall k: nat :: k < |s.log| ==>
      var r := s.log[k]; r.result <==> r.owned && r.satisfied
  }

  /** Plain calls never refuse, and trying calls neither wait nor refuse what they wanted. */
  ghost predicate FormsKept(s: System) {
    forall i: nat :: i < |s.places| ==>
      var p := s.places[i];
      && (p.Refusing? ==> p.form != Plain && (p.form == Trying ==> s.condition != p.target))
      && (p.Asleep? || p.Woken? ==> p.form != Trying)
  }

  /** Why calls return false: the mutex was missed, the wait expired, or a single test failed. */
  ghost predicate CausesExact(s: System) {
    forall k: nat :: k < |s.log| ==>
      var r := s.log[k];
      && (r.result <==> r.cause == Satisfied)
      && (r.form == Plain ==> r.result)
      && (r.form == Timed && !r.result ==> r.cause == MutexMissed || r.cause == WaitExpired)
      && (r.form == Trying && !r.result ==> r.cause == MutexMissed || (r.cause == TestFailed && !r.satisfied))
  }

  ghost predicate Inv(s: System) {
    && MutualExclusion(s) && HeldMeansTrue(s) && WakeupsPending(s) && ReturnsExact(s)
    && FormsKept(s) && CausesExact(s)
  }

  lemma NextKeepsInv(s: System, a: Action)
    requires Inv(s) && Enabled(s, a)
    ensures Inv(Next(s, a))
  {
    var s' := Next(s, a);
    assert s.owner.Thread? ==> Owns(s.places[s.owner.id]);
    if a.MissMutex? {
      assert !Owns(s.places[a.i]);
    }
  }

  lemma {:induction false} RunsKeepInv(s: System, run: seq<Action>)
    requires Inv(s) && Possible(s, run)
    ensures Inv(After(s, run))
    decreases |run|
  {
    if run != [] {
      NextKeepsInv(s, run[0]);
      RunsKeepInv(Next(s, run[0]), run[1..]);
    }
  }

  // ----- What every run guarantees -----

  /** A plain call returns only with the lock; the others return false only for the reasons they are made for. */
  lemma FalseForReason(c: int, n: nat, run: seq<Action>, k: nat)
    requires Possible(Initial(c, n), run) && k < |After(Initial(c, n), run).log|
    ensures var r := After(Initial(c, n), run).log[k];
      && (r.form == Plain ==> r.result && r.owned && r.satisfied)
      && (r.form == Timed && !r.result ==> r.cause == MutexMissed || r.cause == WaitExpired)
      && (r.form == Trying && !r.result ==> r.cause == MutexMissed || (r.cause == TestFailed && !r.satisfied))
  {
    RunsKeepInv(Initial(c, n), run);
  }

  /** A trying call is never found waiting. */
  lemma TryingNeverWaits(c: int, n: nat, run: seq<Action>, i: nat)
    requires Possible(Initial(c, n), run) && i < |After(Initial(c, n), run).places|
    ensures var p := After(Initial(c, n), run).places[i]; p.Asleep? || p.Woken? ==> p.form != Trying
  {
    RunsKeepInv(Initial(c, n), run);
  }

  predicate InCall(p: Place, target: int, form: Form) {
    && (p.Entering? || p.Checking? || p.Asleep? || p.Woken? || p.Expired? || p.Refusing?) && p.target == target
    && if p.Expired? then form == Timed else p.form == form
  }

  /**
   * Whatever anybody does next, a thread stays inside its call until the call returns: with the lock, the
   * value being its target, or, unless the call is a plain one, without it; and each return is logged.
   */
  lemma CallEnds(s: System, a: Action, i: nat, target: int, form: Form)
    requires Inv(s) && Enabled(s, a) && i < |s.places| && InCall(s.places[i], target, form)
    ensures |Next(s, a).places| == |s.places|
    ensures var s' := Next(s, a); var p := s'.places[i];
      || (InCall(p, target, form) && (a.i == i ==> s'.log == s.log))
      || (p == Held(target) && s'.condition == target && s'.owner == Thread(i)
        && s'.log == s.log + [Return(i, form, true, Satisfied, true, true)])
      || (p == Outside && form != Plain && s'.owner != Thread(i)
        && |s'.log| == |s.log| + 1 && s'.log[..|s.log|] == s.log
        && var r := s'.log[|s.log|];
          r == Return(i, form, false, r.cause, false, s'.condition == target) && r.cause != Satisfied)
  {
    NextKeepsInv(s, a);
  }

  /** The places of a call, and the steps that a thread can take from each. */
  lemma StepsOfCall(s: System, i: nat, target: int, form: Form)
    requires Inv(s) && i < |s.places|
    ensures InCall(Entering(target, form), target, form) && InCall(Checking(target, form), target, form)
    ensures InCall(Asleep(target, form), target, form) && InCall(Woken(target, form), target, form)
    ensures InCall(Refusing(target, form), target, form) && InCall(Expired(target), target, Timed)
    ensures s.places[i] == Outside ==>
      && Enabled(s, Call(i, target, form))
      && Next(s, Call(i, target, form)) == s.(places := s.places[i := Entering(target, form)])
    ensures s.places[i] == Entering(target, form) ==>
      && (Enabled(s, Grab(i)) <==> s.owner == Free)
      && (Enabled(s, MissMutex(i)) <==> form == Timed || (form == Trying && s.owner != Free))
    ensures s.places[i] == Asleep(target, form) ==> Enabled(s, Wake(i)) && (Enabled(s, Expire(i)) <==> form == Timed)
    ensures s.places[i] == Woken(target, form) || s.places[i] == Expired(target) ==>
      (Enabled(s, Grab(i)) <==> s.owner == Free)
    ensures s.places[i] == Refusing(target, form) ==> Enabled(s, Refuse(i))
  {}

  /** A plain call that finds another value waits for its own, and one that finds its own has the lock. */
  lemma PlainCallWaits(c: int, target: int)
    ensures var run := [Call(0, target, Plain), Grab(0), Check(0)];
      && Possible(Initial(c, 1), run)
      && After(Initial(c, 1), run) == if c == target
        then System(c, Thread(0), [Held(target)], [Return(0, Plain, true, Satisfied, true, true)])
        else System(c, Free, [Asleep(target, Plain)], [])
  {
    var s := Initial(c, 1);
    assert s.places == [Outside];
    var t := Next(s, Call(0, target, Plain));
    var u := Next(t, Grab(0));
    Onward(u, Check(0), []);
    Onward(t, Grab(0), [Check(0)]);
    Onward(s, Call(0, target, Plain), [Grab(0), Check(0)]);
    assert [Check(0)] == [Check(0)] + [] && [Grab(0), Check(0)] == [Grab(0)] + [Check(0)];
    assert [Call(0, target, Plain), Grab(0), Check(0)] == [Call(0, target, Plain)] + [Grab(0), Check(0)];
  }

  lemma Onward(s: System, a: Action, run: seq<Action>)
    requires Enabled(s, a) && Possible(Next(s, a), run)
    ensures Possible(s, [a] + run) && After(s, [a] + run) == After(Next(s, a), run)
  {
    assert ([a] + run)[1..] == run;
  }

  /** At most one thread is between a successful lock and its unlock, and its value is the current one. */
  lemma AtMostOneHolder(c: int, n: nat, run: seq<Action>, i: nat, j: nat)
    requires Possible(Initial(c, n), run)
    requires var s := After(Initial(c, n), run);
      i < |s.places| && j < |s.places| && s.places[i].Held? && Owns(s.places[j])
    ensures i == j && After(Initial(c, n), run).places[i].target == After(Initial(c, n), run).condition
  {
    RunsKeepInv(Initial(c, n), run);
    assert Owns(After(Initial(c, n), run).places[i]);
  }

  /** Whenever the mutex is free, no thread sleeps on the value that the condition has. */
  lemma NoWakeupLost(c: int, n: nat, run: seq<Action>, i: nat)
    requires Possible(Initial(c, n), run)
    requires var s := After(Initial(c, n), run);
      s.owner.Free? && i < |s.places| && s.places[i].Asleep?
    ensures After(Initial(c, n), run).places[i].target != After(Initial(c, n), run).condition
  {
    RunsKeepInv(Initial(c, n), run);
  }

  /** A call returns true exactly if it then owns the mutex with its condition satisfied. */
  lemma ResultsAreExact(c: int, n: nat, run: seq<Action>, k: nat)
    requires Possible(Initial(c, n), run) && k < |After(Initial(c, n), run).log|
    ensures var r := After(Initial(c, n), run).log[k]; r.result <==> r.owned && r.satisfied
  {
    RunsKeepInv(Initial(c, n), run);
  }

  /**
   * With the mutex free, a thread that wants the current value, wherever it is in its call, gets the
   * lock by its own next two steps; the one exception is a timed wait that has already run out.
   */
  lemma ReadyThreadCanProceed(s: System, i: nat)
    requires Inv(s) && s.owner.Free? && i < |s.places|
    requires var p := s.places[i];
      (p.Entering? || p.Woken? || p.Asleep?) && p.target == s.condition
    ensures Enabled(s, Grab(i)) && Enabled(Next(s, Grab(i)), Check(i))
    ensures var t := Next(Next(s, Grab(i)), Check(i));
      |t.places| == |s.places| && t.places[i].Held? && t.owner == Thread(i) && t.condition == s.condition
  {}

  /** Unlocking with a value sets it, wakes every sleeper, and frees the mutex. */
  lemma UnlockWakesAll(s: System, i: nat, value: int)
    requires Inv(s) && i < |s.places| && s.places[i].Held?
    ensures Enabled(s, SetCondition(i, value)) && Enabled(Next(s, SetCondition(i, value)), Broadcast(i))
    ensures var t := Next(Next(s, SetCondition(i, value)), Broadcast(i));
      && Enabled(t, Unlock(i)) && t.condition == value
      && var u := Next(t, Unlock(i));
        && u.condition == value && u.owner == Free && u.log == s.log && |u.places| == |s.places|
        && u.places[i] == Outside
        && forall j: nat :: j < |s.places| && j != i ==>
          u.places[j] == match s.places[j] { case Asleep(t, f) => Woken(t, f) case p => p }
  {}
}
