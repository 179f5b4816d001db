/** The worker pool: one queue, one three-valued condition, any number of workers and pushers. */
module TaskQueues {

  datatype Condition = Waiting | Ready | Cancel

  /** What one pass of a worker through the locked section comes to. */
  datatype Outcome<T> = Sleep | Take(task: T) | Spin | Leave

  function ConditionStatus<T>(queue: seq<T>): Condition {
    if |queue| > 0 then Ready else Cancel
  }

  /** The queue and the condition, both guarded by the condition's own mutex. */
  datatype Shared<T> = Shared(queue: seq<T>, condition: Condition) {

    function Push(task: T): Shared<T> {
      Shared(queue + [task], Ready)
    }

    function Stop(): Shared<T> {
      this.(condition := Cancel)
    }

    function Outcome(): Outcome<T> {
      if condition == Waiting then Sleep
      else if |queue| > 0 then Take(queue[0])
      else if condition == Cancel then Leave
      else Spin
    }

    function AfterPass(): Shared<T> {
      if condition != Waiting && |queue| > 0 then Shared(queue[1..], ConditionStatus(queue[1..]))
      else this
    }
  }

  /** The object itself; each method is one critical section. */
  class TaskQueue<T> {
    var queue: seq<T>
    var condition: Condition

    ghost function View(): Shared<T>
      reads this
    {
      Shared(queue, condition)
    }

    constructor ()
      ensures View() == Shared([], Waiting)
    {
      queue := [];
      condition := Waiting;
    }

    method PushTask(task: T)
      modifies this
      ensures View() == old(View()).Push(task)
      ensures queue == old(queue) + [task] && condition == Ready
    {
      queue := queue + [task];
      condition := Ready;
    }

    /** The locked part of Stop; the result tells whether the caller goes on to wait for the threads. */
    method Stop() returns (first: bool)
      modifies this
      ensures View() == old(View()).Stop()
      ensures queue == old(queue) && condition == Cancel
      ensures first <==> old(condition) != Cancel
    {
      if condition == Cancel {
        return false;
      }
      condition := Cancel;
      first := true;
    }

    /**
     * One pass of a worker, from taking the lock to giving it up again. After a pop the condition tells
     * whether more is queued, so that stopping then waits for the threads exactly if it is.
     */
    method Pass() returns (outcome: Outcome<T>)
      modifies this
      ensures old(condition) == Waiting ==> outcome == Sleep
      ensures old(condition) != Waiting && old(queue) == [] ==>
        outcome == if old(condition) == Cancel then Leave else Spin
      ensures old(condition) != Waiting && old(queue) != [] ==>
        outcome == Take(old(queue)[0]) && queue == old(queue)[1..]
      ensures outcome.Take? ==> condition == if queue == [] then Cancel else Ready
      ensures !outcome.Take? ==> queue == old(queue) && condition == old(condition)
      ensures outcome == old(View()).Outcome()
      ensures View() == old(View()).AfterPass()
    {
      if condition == Waiting {
        return Sleep;
      }
      if |queue| > 0 {
        outcome := Take(queue[0]);
        queue := queue[1..];
        condition := ConditionStatus(queue);
      } else if condition == Cancel {
        outcome := Leave;
      } else {
        outcome := Spin;
      }
    }
  }

  /** The number of threads that Start launches. */
  function ThreadCount(requested: int, hardware: int): (n: int)
    ensures requested >= 0 && hardware >= 0 ==> n > 0
    ensures requested != 0 ==> n == requested
    ensures requested == 0 ==> n == if hardware == 0 then 2 else hardware
  {
    if requested != 0 then requested else if hardware != 0 then hardware else 2
  }

  // ----- The system: every interleaving of the sections above -----

  /** A task's ticket is its place in the order of pushes. */
  datatype Worker<T> = Absent | AtTop | Asleep | Holding(task: T, ticket: nat) | Exited

  /** Start reads the queue, then sets the condition, both without the lock, then launches threads. */
  datatype Phase = Idle | Decided(status: Condition) | Launching(launched: nat)

  /**
   * The last four components are history: every task pushed, which worker popped each of the popped
   * ones, the tickets of the tasks whose run has ended, and the number of locked passes made.
   */
  datatype System<T> = System(
    shared: Shared<T>, workers: seq<Worker<T>>, phase: Phase,
    pushed: seq<T>, takers: seq<nat>, runs: seq<nat>, passes: nat)

  datatype Action<T> =
    | Push(task: T)
    | Stop
    | Decide
    | SetCondition
    | Launch
    | Pass(worker: nat)
    | Wake(worker: nat)
    | Run(worker: nat)

  function Initial<T>(n: nat): System<T> {
    System(Shared([], Waiting), seq(n, i => Worker<T>.Absent), Idle, [], [], [], 0)
  }

  predicate Enabled<T>(s: System<T>, a: Action<T>) {
    match a
    case Push(_) => true
    case Stop => true
    case Decide => s.phase.Idle?
    case SetCondition => s.phase.Decided?
    case Launch => s.phase.Launching? && s.phase.launched < |s.workers|
    case Pass(w) => w < |s.workers| && s.workers[w].AtTop?
    case Wake(w) => w < |s.workers| && s.workers[w].Asleep?
    case Run(w) => w < |s.workers| && s.workers[w].Holding?
  }

  function PassResult<T>(s: System<T>, w: nat): System<T>
    requires Enabled(s, Pass(w))
  {
    var t := s.(shared := s.shared.AfterPass(), passes := s.passes + 1);
    match s.shared.Outcome()
    case Sleep => t.(workers := s.workers[w := Asleep])
    case Take(task) => t.(workers := s.workers[w := Holding(task, |s.takers|)], takers := s.takers + [w])
    case Spin => t
    case Leave => t.(workers := s.workers[w := Exited])
  }

  function Next<T>(s: System<T>, a: Action<T>): System<T>
    requires Enabled(s, a)
  {
    match a
    case Push(task) => s.(shared := s.shared.Push(task), pushed := s.pushed + [task])
    case Stop => s.(shared := s.shared.Stop())
    case Decide => s.(phase := Decided(ConditionStatus(s.shared.queue)))
    case SetCondition => s.(shared := s.shared.(condition := s.phase.status), phase := Launching(0))
    case Launch => s.(workers := s.workers[s.phase.launched := AtTop], phase := Launching(s.phase.launched + 1))
    case Pass(w) => PassResult(s, w)
    case Wake(w) => s.(workers := s.workers[w := AtTop])
    case Run(w) => s.(workers := s.workers[w := AtTop], runs := s.runs + [s.workers[w].ticket])
  }

  ghost predicate Possible<T>(s: System<T>, run: seq<Action<T>>)
    decreases |run|
  {
    run == [] || (Enabled(s, run[0]) && Possible(Next(s, run[0]), run[1..]))
  }

  ghost function After<T>(s: System<T>, run: seq<Action<T>>): System<T>
    requires Possible(s, run)
    decreases |run|
  {
    if run == [] then s else After(Next(s, run[0]), run[1..])
  }

  predicate AllExited<T>(s: System<T>) {
    |s.workers| > 0 && forall w :: 0 <= w < |s.workers| ==> s.workers[w].Exited?
  }

  function CountExited<T>(workers: seq<Worker<T>>): nat {
    if workers == [] then 0 else (if workers[0].Exited? then 1 else 0) + CountExited(workers[1..])
  }

  function CountHolding<T>(workers: seq<Worker<T>>): nat {
    if workers == [] then 0 else (if workers[0].Holding? then 1 else 0) + CountHolding(workers[1..])
  }

  ghost predicate Distinct(xs: seq<nat>) {
    forall i, j :: 0 <= i < j < |xs| ==> xs[i] != xs[j]
  }

  // ----- The invariant -----

  /** The queue is exactly what has been pushed and not yet popped, in push order. */
  ghost predicate QueueInOrder<T>(s: System<T>) {
    |s.takers| <= |s.pushed| && s.shared.queue == s.pushed[|s.takers|..]
  }

  /** Once a thread can exist the condition is decided, and Ready is never stale. */
  ghost predicate ConditionHonest<T>(s: System<T>) {
    match s.phase
    case Idle => true
    case Decided(c) => c != Waiting && (c == Ready ==> s.shared.queue != [])
    case Launching(_) =>
      s.shared.condition != Waiting && (s.shared.condition == Ready ==> s.shared.queue != [])
  }

  ghost predicate ThreadsLaunched<T>(s: System<T>) {
    var k := if s.phase.Launching? then s.phase.launched else 0;
    && k <= |s.workers|
    && (k == 0 ==> s.takers == [])
    && forall w :: 0 <= w < |s.workers| ==> (s.workers[w].Absent? <==> k <= w) && !s.workers[w].Asleep?
  }

  /** Each popped task is either run or in the hands of the one worker that popped it, never both. */
  ghost predicate TicketsAccounted<T>(s: System<T>) {
    && |s.takers| <= |s.pushed|
    && Distinct(s.runs)
    && (forall t: nat :: t in s.runs ==> t < |s.takers|)
    && (forall w :: 0 <= w < |s.workers| && s.workers[w].Holding? ==>
      var t := s.workers[w].ticket;
      t < |s.takers| && s.takers[t] == w && t !in s.runs && s.workers[w].task == s.pushed[t])
    && (forall t: nat :: t < |s.takers| && t !in s.runs ==>
      s.takers[t] < |s.workers| && s.workers[s.takers[t]].Holding? && s.workers[s.takers[t]].ticket == t)
  }

  ghost predicate PassesCounted<T>(s: System<T>) {
    s.passes == |s.takers| + CountExited(s.workers)
  }

  ghost predicate Inv<T>(s: System<T>) {
    QueueInOrder(s) && ConditionHonest(s) && ThreadsLaunched(s) && TicketsAccounted(s) && PassesCounted(s)
  }

  lemma {:induction false} CountUpdate<T>(workers: seq<Worker<T>>, w: nat, x: Worker<T>)
    requires w < |workers|
    ensures CountExited(workers[w := x]) == CountExited(workers)
      - (if workers[w].Exited? then 1 else 0) + (if x.Exited? then 1 else 0)
    ensures CountHolding(workers[w := x]) == CountHolding(workers)
      - (if workers[w].Holding? then 1 else 0) + (if x.Holding? then 1 else 0)
    decreases |workers|
  {
    if w == 0 {
      assert workers[w := x][1..] == workers[1..];
    } else {
      assert workers[w := x][1..] == workers[1..][w - 1 := x];
      CountUpdate(workers[1..], w - 1, x);
    }
  }

  lemma {:induction false} CountBounds<T>(workers: seq<Worker<T>>)
    ensures CountExited(workers) + CountHolding(workers) <= |workers|
    ensures CountExited(workers) == |workers| <==>
      forall w :: 0 <= w < |workers| ==> workers[w].Exited?
    decreases |workers|
  {
    if workers != [] {
      CountBounds(workers[1..]);
      assert (forall w :: 0 <= w < |workers| ==> workers[w].Exited?) <==>
        workers[0].Exited? && (forall w :: 0 <= w < |workers[1..]| ==> workers[1..][w].Exited?) by {
        if workers[0].Exited? && (forall w :: 0 <= w < |workers[1..]| ==> workers[1..][w].Exited?) {
          forall w | 0 <= w < |workers| ensures workers[w].Exited? {
            if w > 0 {
              assert workers[1..][w - 1].Exited?;
            }
          }
        }
      }
    }
  }

  lemma {:induction false} CountNone<T>(n: nat)
    ensures CountExited(seq(n, i => Worker<T>.Absent)) == 0 && CountHolding(seq(n, i => Worker<T>.Absent)) == 0
  {
    if n > 0 {
      var s: seq<Worker<T>> := seq(n, i => Worker<T>.Absent);
      assert s[1..] == seq(n - 1, i => Absent);
      CountNone<T>(n - 1);
    }
  }

  lemma InitialInv<T>(n: nat)
    ensures Inv(Initial<T>(n))
  {
    CountNone<T>(n);
  }

  lemma PassKeepsInv<T>(s: System<T>, w: nat)
    requires Inv(s) && Enabled(s, Pass(w))
    ensures Inv(PassResult(s, w))
    ensures s.shared.Outcome().Take? || s.shared.Outcome().Leave?
  {
    var s' := PassResult(s, w);
    assert s.phase.Launching?;
    CountUpdate(s.workers, w, s'.workers[w]);
    if s.shared.queue != [] {
      assert s'.workers == s.workers[w := Holding(s.shared.queue[0], |s.takers|)];
      assert s.shared.queue[0] == s.pushed[|s.takers|];
    }
  }

  lemma RunKeepsInv<T>(s: System<T>, w: nat)
    requires Inv(s) && Enabled(s, Run(w))
    ensures Inv(Next(s, Run(w)))
  {
    var s' := Next(s, Run(w));
    CountUpdate(s.workers, w, AtTop);
  }

  lemma NextKeepsInv<T>(s: System<T>, a: Action<T>)
    requires Inv(s) && Enabled(s, a)
    ensures Inv(Next(s, a))
  {
    match a
    case Pass(w) => PassKeepsInv(s, w);
    case Run(w) => RunKeepsInv(s, w);
    case Launch => CountUpdate(s.workers, s.phase.launched, AtTop);
    case _ =>
  }

  lemma {:induction false} RunsKeepInv<T>(s: System<T>, run: seq<Action<T>>)
    requires Inv(s) && Possible(s, run)
    ensures Inv(After(s, run))
    decreases |run|
  {
    if run != [] {
      NextKeepsInv(s, run[0]);
      RunsKeepInv(Next(s, run[0]), run[1..]);
    }
  }

  // ----- Safety over whole runs -----

  /** In every run tasks come out in push order, and a worker leaves exactly when the queue is empty. */
  lemma PassOutcomes<T>(n: nat, run: seq<Action<T>>, w: nat)
    requires Possible(Initial(n), run) && Enabled(After(Initial(n), run), Pass(w))
    ensures var s := After(Initial(n), run);
      && (s.shared.queue == [] ==> s.shared.Outcome() == Leave)
      && (s.shared.queue != [] ==> |s.takers| < |s.pushed| && s.shared.Outcome() == Take(s.pushed[|s.takers|]))
  {
    InitialInv<T>(n);
    RunsKeepInv(Initial(n), run);
    PassKeepsInv(After(Initial(n), run), w);
  }

  /** From the decision of Start on, the condition is Ready exactly while tasks are queued, and else Cancel. */
  ghost predicate ReadyExact<T>(s: System<T>) {
    match s.phase
    case Idle => true
    case Decided(c) => c == if s.shared.queue == [] then Cancel else Ready
    case Launching(_) => s.shared.condition == if s.shared.queue == [] then Cancel else Ready
  }

  /** Nobody stops the queue, and nobody pushes between the two unlocked steps of Start. */
  ghost predicate Calm<T>(s: System<T>, run: seq<Action<T>>)
    requires Possible(s, run)
    decreases |run|
  {
    run == [] || (!run[0].Stop? && !(run[0].Push? && s.phase.Decided?) && Calm(Next(s, run[0]), run[1..]))
  }

  lemma CalmStep<T>(s: System<T>, a: Action<T>)
    requires Inv(s) && ReadyExact(s) && Enabled(s, a) && !a.Stop? && !(a.Push? && s.phase.Decided?)
    ensures ReadyExact(Next(s, a))
  {
    hide TicketsAccounted, PassesCounted, QueueInOrder;
  }

  lemma {:induction false} CalmKeepsReady<T>(s: System<T>, run: seq<Action<T>>)
    requires Inv(s) && ReadyExact(s) && Possible(s, run) && Calm(s, run)
    ensures ReadyExact(After(s, run))
    decreases |run|
  {
    hide Inv, ReadyExact, Next;
    if run != [] {
      NextKeepsInv(s, run[0]);
      CalmStep(s, run[0]);
      CalmKeepsReady(Next(s, run[0]), run[1..]);
    }
  }

  /** Calm is what it should be, step by step. */
  lemma {:induction false} CalmIff<T>(s: System<T>, run: seq<Action<T>>)
    requires Possible(s, run)
    ensures forall i | 0 <= i <= |run| :: Possible(s, run[..i])
    ensures Calm(s, run) <==> forall i | 0 <= i < |run| ::
      !run[i].Stop? && (run[i].Push? ==> !After(s, run[..i]).phase.Decided?)
    decreases |run|
  {
    hide Next, Enabled;
    if run != [] {
      var t, rest := Next(s, run[0]), run[1..];
      CalmIff(t, rest);
      forall i | 0 < i <= |run| ensures Possible(s, run[..i]) && After(s, run[..i]) == After(t, rest[..i - 1]) {
        assert run[..i][1..] == rest[..i - 1] && run[..i][0] == run[0];
      }
      assert run[..0] == [] && After(s, []) == s;
      assert forall i | 0 <= i < |rest| :: run[i + 1] == rest[i] && After(s, run[..i + 1]) == After(t, rest[..i]);
    }
  }

  /** In a calm run, once threads are launched, Stop finds Cancel, and does not wait, exactly if nothing is queued. */
  lemma StopWaitsForTasks<T>(n: nat, run: seq<Action<T>>)
    requires Possible(Initial(n), run) && After(Initial(n), run).phase.Launching?
    requires forall i | 0 <= i < |run| :: !run[i].Stop?
    requires forall i | 0 <= i < |run| && run[i].Push? && Possible(Initial(n), run[..i]) ::
      !After(Initial(n), run[..i]).phase.Decided?
    ensures var s := After(Initial(n), run).shared;
      (s.condition == Cancel <==> s.queue == []) && (s.condition == Ready <==> s.queue != [])
  {
    InitialInv<T>(n);
    CalmIff(Initial(n), run);
    CalmKeepsReady(Initial(n), run);
  }

  /** A push between the two steps of Start is overwritten: a task is queued, and Stop does not wait for it. */
  lemma StartOverwritesReady<T>(n: nat, task: T)
    ensures Possible(Initial<T>(n), [Decide, Push(task), SetCondition])
    ensures After(Initial<T>(n), [Decide, Push(task), SetCondition]).shared == Shared([task], Cancel)
  {
    var run := [Decide, Push(task), SetCondition];
    var s := Initial<T>(n);
    assert run[1..] == [Push(task), SetCondition] && run[1..][1..] == [SetCondition];
    var t := Next(s, Decide);
    var u := Next(t, Push(task));
    assert Possible(u, [SetCondition]) && After(u, [SetCondition]) == Next(u, SetCondition);
    assert Possible(t, run[1..]) && After(t, run[1..]) == After(u, [SetCondition]);
  }

  /** What threads outside the pool do is never refused. */
  lemma OutsidersNeverRefused<T>(s: System<T>, task: T)
    ensures Enabled(s, Push(task)) && Enabled<T>(s, Stop)
    ensures Next(s, Push(task)).shared == Shared(s.shared.queue + [task], Ready)
    ensures Next(s, Push(task)).pushed == s.pushed + [task]
    ensures Next(s, Stop).shared == Shared(s.shared.queue, Cancel)
  {}

  /** When all workers have left, what can still happen concerns the queue and the condition only. */
  lemma ExitedStays<T>(s: System<T>, a: Action<T>)
    requires Inv(s) && AllExited(s) && Enabled(s, a)
    ensures AllExited(Next(s, a)) && Next(s, a).runs == s.runs && Next(s, a).takers == s.takers
  {
    hide TicketsAccounted, QueueInOrder, ConditionHonest, PassesCounted;
    var k := if s.phase.Launching? && s.phase.launched < |s.workers| then s.phase.launched else 0;
    assert s.workers[k].Exited?;
  }

  lemma {:induction false} AllExitedIsFinal<T>(s: System<T>, run: seq<Action<T>>)
    requires Inv(s) && AllExited(s) && Possible(s, run)
    ensures AllExited(After(s, run)) && After(s, run).runs == s.runs && After(s, run).takers == s.takers
    decreases |run|
  {
    hide Inv, AllExited;
    if run != [] {
      NextKeepsInv(s, run[0]);
      ExitedStays(s, run[0]);
      AllExitedIsFinal(Next(s, run[0]), run[1..]);
    }
  }

  /**
   * Once all workers are gone, the tasks that ran are those pushed before the last worker left, each
   * exactly once; k is the place of that worker's last pass in the run.
   */
  lemma {:induction false} EveryTaskRunOnce<T>(s: System<T>, run: seq<Action<T>>) returns (k: nat)
    requires Inv(s) && !AllExited(s) && Possible(s, run) && AllExited(After(s, run))
    ensures k < |run| && run[k].Pass?
    ensures Possible(s, run[..k]) && !AllExited(After(s, run[..k]))
    ensures Possible(s, run[..k + 1]) && AllExited(After(s, run[..k + 1]))
    ensures Distinct(After(s, run).runs)
    ensures forall t: nat :: t in After(s, run).runs <==> t < |After(s, run[..k]).pushed|
    ensures forall t: nat :: multiset(After(s, run).runs)[t] == if t < |After(s, run[..k]).pushed| then 1 else 0
    decreases |run|
  {
    hide Inv, AllExited, Next, Enabled, Distinct;
    var t := Next(s, run[0]);
    NextKeepsInv(s, run[0]);
    if AllExited(t) {
      k := 0;
      assert run[..1] == [run[0]] && run[..1][1..] == [];
      assert Possible(t, []) && After(t, []) == t;
      AllExitedIsFinal(t, run[1..]);
      LastExit(s, run[0]);
    } else {
      var j := EveryTaskRunOnce(t, run[1..]);
      k := j + 1;
      assert run[..k][1..] == run[1..][..j] && run[..k + 1][1..] == run[1..][..j + 1];
    }
    OnceEach(After(s, run).runs);
  }

  lemma {:induction false} OnceEach(xs: seq<nat>)
    requires Distinct(xs)
    ensures forall x: nat :: multiset(xs)[x] == if x in xs then 1 else 0
  {
    if xs != [] {
      OnceEach(xs[1..]);
      assert xs == [xs[0]] + xs[1..];
    }
  }

  lemma OnlyPassesEmptyThePool<T>(s: System<T>, a: Action<T>)
    requires Inv(s) && Enabled(s, a) && !AllExited(s) && !a.Pass?
    ensures !AllExited(Next(s, a))
  {
    var s' := Next(s, a);
    match a
    case Run(w) => assert s'.workers[w].AtTop?;
    case Launch => assert s'.workers[s.phase.launched].AtTop?;
    case _ =>
  }

  lemma LastExit<T>(s: System<T>, a: Action<T>)
    requires Inv(s) && Enabled(s, a) && !AllExited(s) && AllExited(Next(s, a))
    ensures a.Pass? && Distinct(Next(s, a).runs)
    ensures forall t: nat :: t in Next(s, a).runs <==> t < |s.pushed|
  {
    var s' := Next(s, a);
    NextKeepsInv(s, a);
    if !a.Pass? {
      OnlyPassesEmptyThePool(s, a);
    }
    PassKeepsInv(s, a.worker);
    assert s'.workers[a.worker].Exited?;
    assert s.shared.Outcome() == Leave && |s.takers| == |s.pushed|;
    forall t: nat | t < |s.pushed| ensures t in s'.runs {
      if t !in s'.runs {
        assert false;
      }
    }
  }

  /** A task that is pushed after the last worker has left never runs. */
  lemma LatePushNeverRuns<T>(s: System<T>, task: T, run: seq<Action<T>>)
    requires Inv(s) && AllExited(s) && Possible(Next(s, Push(task)), run)
    ensures |s.pushed| !in After(Next(s, Push(task)), run).runs
  {
    NextKeepsInv(s, Push(task));
    AllExitedIsFinal(Next(s, Push(task)), run);
  }

  // ----- Progress -----

  /** Tasks waiting plus workers that have not left. */
  function Measure<T>(s: System<T>): int {
    |s.shared.queue| + |s.workers| - CountExited(s.workers)
  }

  /** Every locked pass uses up one task or one worker; only a push adds to what is left. */
  lemma PassesUseUpMeasure<T>(s: System<T>, a: Action<T>)
    requires Inv(s) && Enabled(s, a)
    ensures Measure(Next(s, a)) == Measure(s) + (match a case Push(_) => 1 case Pass(_) => -1 case _ => 0)
    ensures Measure(s) >= 0
  {
    hide CountExited, CountHolding, TicketsAccounted, QueueInOrder, Distinct;
    CountBounds(s.workers);
    match a
    case Pass(w) =>
      PassKeepsInv(s, w);
      CountUpdate(s.workers, w, PassResult(s, w).workers[w]);
    case Run(w) => CountUpdate(s.workers, w, AtTop);
    case Wake(w) => CountUpdate(s.workers, w, AtTop);
    case Launch => CountUpdate(s.workers, s.phase.launched, AtTop);
    case _ =>
  }

  /** In any run the workers make at most one locked pass per push and one per worker. */
  lemma PassBound<T>(n: nat, run: seq<Action<T>>)
    requires Possible(Initial(n), run)
    ensures After(Initial(n), run).passes <= |After(Initial(n), run).pushed| + n
  {
    InitialInv<T>(n);
    RunsKeepInv(Initial(n), run);
    WorkersStay(Initial(n), run);
    CountBounds(After(Initial(n), run).workers);
  }

  lemma WorkersStay<T>(s: System<T>, run: seq<Action<T>>)
    requires Possible(s, run)
    ensures |After(s, run).workers| == |s.workers|
    decreases |run|
  {
    if run != [] {
      WorkersStay(Next(s, run[0]), run[1..]);
    }
  }

  /** The steps that do not depend on anybody outside the pool. */
  predicate Internal<T>(a: Action<T>) {
    !a.Push? && !a.Stop?
  }

  function Work<T>(s: System<T>): int {
    2 * |s.shared.queue| + CountHolding(s.workers) + |s.workers| - CountExited(s.workers)
    + (match s.phase
       case Idle => |s.workers| + 2
       case Decided(_) => |s.workers| + 1
       case Launching(k) => |s.workers| - k)
  }

  lemma InternalStepsUseUpWork<T>(s: System<T>, a: Action<T>)
    requires Inv(s) && Enabled(s, a) && Internal(a)
    ensures Work(Next(s, a)) == Work(s) - 1 && Work(Next(s, a)) >= 0
  {
    hide CountExited, CountHolding, TicketsAccounted, QueueInOrder, Distinct;
    NextKeepsInv(s, a);
    CountBounds(Next(s, a).workers);
    match a
    case Pass(w) =>
      PassKeepsInv(s, w);
      CountUpdate(s.workers, w, PassResult(s, w).workers[w]);
    case Run(w) => CountUpdate(s.workers, w, AtTop);
    case Launch => CountUpdate(s.workers, s.phase.launched, AtTop);
    case _ =>
  }

  /** The pool can always move by itself until every worker has left, and not after. */
  lemma StuckIffAllExited<T>(s: System<T>)
    requires Inv(s) && |s.workers| > 0
    ensures AllExited(s) <==> forall a :: Internal(a) ==> !Enabled(s, a)
  {
    if !AllExited(s) {
      var w :| 0 <= w < |s.workers| && !s.workers[w].Exited?;
      assert Internal<T>(Decide) && Internal<T>(SetCondition) && Internal<T>(Launch);
      assert Internal<T>(Pass(w)) && Internal<T>(Run(w));
      assert exists a :: Internal(a) && Enabled(s, a) by {
        match s.phase
        case Idle => assert Enabled(s, Decide);
        case Decided(_) => assert Enabled(s, SetCondition);
        case Launching(k) =>
          if k < |s.workers| {
            assert Enabled(s, Launch);
          } else if s.workers[w].AtTop? {
            assert Enabled(s, Pass(w));
          } else {
            assert Enabled(s, Run(w));
          }
      }
    } else {
      assert s.workers[0].Exited?;
      var k := if s.phase.launched < |s.workers| then s.phase.launched else 0;
      assert s.workers[k].Exited?;
      forall a | Internal(a) ensures !Enabled(s, a) {
        match a
        case Pass(w) =>
        case _ =>
      }
    }
  }

  /** Without pushes a run is bounded by the work there is, and when it can go no further all have left. */
  lemma {:induction false} QuietRunsFinish<T>(s: System<T>, run: seq<Action<T>>)
    requires Inv(s) && |s.workers| > 0 && Possible(s, run)
    requires forall i :: 0 <= i < |run| ==> Internal(run[i])
    ensures |run| <= Work(s)
    ensures (forall a :: Internal(a) ==> !Enabled(After(s, run), a)) ==> AllExited(After(s, run))
    decreases |run|
  {
    if run == [] {
      CountBounds(s.workers);
      StuckIffAllExited(s);
    } else {
      NextKeepsInv(s, run[0]);
      InternalStepsUseUpWork(s, run[0]);
      QuietRunsFinish(Next(s, run[0]), run[1..]);
    }
  }
}
