/** The thread pool's task queue: any number of threads that push and take tasks under a queue
    mutex, an entry mutex for takers and one condition variable, one step per lock operation. */
module TaskQueue {
  import opened Wrappers

  type Task = int

  /** Where a thread is. A taker holds the entry mutex from `Entered` to `Exiting`; the queue
      mutex is held in `Testing`, `Ready`, `Leaving`, `Pushing`, `Pushed` and `Signalled`.
      `since` is the number of tasks pushed before a wait began, `notified` whether it ended
      by a notification. */
  datatype Pc =
    | Outside
    | Entered
    | Testing
    | Waiting(since: nat)
    | Woken(since: nat, notified: bool)
    | Ready(wait: Option<(nat, bool)>)
    | Leaving
    | Exiting
    | Wanting(task: Task)
    | Pushing(task: Task)
    | Pushed
    | Signalled

  /** `fault`: `front()` was taken of an empty queue. */
  datatype State = State(
    queue: seq<Task>, mutex: Option<nat>, entry: Option<nat>, threads: seq<Pc>,
    pushed: seq<Task>, taken: seq<Task>, fault: bool)

  datatype Step =
    | Enter(t: nat) | LockToTest(t: nat) | Test(t: nat) | Spurious(t: nat) | Relock(t: nat)
    | Take(t: nat) | UnlockTaker(t: nat) | Exit(t: nat)
    | Submit(t: nat, task: Task) | LockToPush(t: nat) | Push(t: nat)
    | Notify(t: nat, waiter: Option<nat>) | Unlock(t: nat)

  predicate HoldsMutex(pc: Pc) {
    pc.Testing? || pc.Ready? || pc.Leaving? || pc.Pushing? || pc.Pushed? || pc.Signalled?
  }

  predicate Inside(pc: Pc) {
    pc.Entered? || pc.Testing? || pc.Waiting? || pc.Woken? || pc.Ready? || pc.Leaving? || pc.Exiting?
  }

  function Start(n: nat): State {
    State([], None, None, seq(n, i => Outside), [], [], false)
  }

  predicate Enabled(s: State, step: Step) {
    var n := |s.threads|;
    !s.fault && step.t < n &&
    var pc := s.threads[step.t];
    match step
    case Enter(_) => pc.Outside? && s.entry.None?
    case LockToTest(_) => pc.Entered? && s.mutex.None?
    case Test(_) => pc.Testing?
    case Spurious(_) => pc.Waiting?
    case Relock(_) => pc.Woken? && s.mutex.None?
    case Take(_) => pc.Ready?
    case UnlockTaker(_) => pc.Leaving?
    case Exit(_) => pc.Exiting?
    case Submit(_, _) => pc.Outside?
    case LockToPush(_) => pc.Wanting? && s.mutex.None?
    case Push(_) => pc.Pushing?
    case Notify(_, waiter) =>
      pc.Pushed? &&
      (match waiter
       case Some(w) => w < n && s.threads[w].Waiting?
       case None => forall w | 0 <= w < n :: !s.threads[w].Waiting?)
    case Unlock(_) => pc.Signalled?
  }

  function Move(s: State, t: nat, pc: Pc): State
    requires t < |s.threads|
  {
    s.(threads := s.threads[t := pc])
  }

  function Apply(s: State, step: Step): State
    requires Enabled(s, step)
  {
    var t := step.t;
    var pc := s.threads[t];
    match step
    case Enter(_) => Move(s, t, Entered).(entry := Some(t))
    case LockToTest(_) => Move(s, t, Testing).(mutex := Some(t))
    case Test(_) =>
      // an `if`, not a `while`: a taker that has waited does not test again
      if |s.queue| == 0 then Move(s, t, Waiting(|s.pushed|)).(mutex := None) else Move(s, t, Ready(None))
    case Spurious(_) => Move(s, t, Woken(pc.since, false))
    case Relock(_) => Move(s, t, Ready(Some((pc.since, pc.notified)))).(mutex := Some(t))
    case Take(_) =>
      if |s.queue| == 0 then s.(fault := true)
      else Move(s, t, Leaving).(queue := s.queue[1..], taken := s.taken + [s.queue[0]])
    case UnlockTaker(_) => Move(s, t, Exiting).(mutex := None)
    case Exit(_) => Move(s, t, Outside).(entry := None)
    case Submit(_, task) => Move(s, t, Wanting(task))
    case LockToPush(_) => Move(s, t, Pushing(pc.task)).(mutex := Some(t))
    case Push(_) => Move(s, t, Pushed).(queue := s.queue + [pc.task], pushed := s.pushed + [pc.task])
    case Notify(_, waiter) =>
      (match waiter
       case Some(w) => Move(Move(s, t, Signalled), w, Woken(s.threads[w].since, true))
       case None => Move(s, t, Signalled))
    case Unlock(_) => Move(s, t, Outside).(mutex := None)
  }

  /** The holder of the queue mutex is between its push and its notification. */
  predicate HolderJustPushed(s: State) {
    s.mutex.Some? && s.mutex.value < |s.threads| && s.threads[s.mutex.value].Pushed?
  }

  /** What one thread's position says about the queue. */
  ghost predicate Position(s: State, t: nat)
    requires t < |s.threads|
  {
    var pc := s.threads[t];
    && (HoldsMutex(pc) <==> s.mutex == Some(t))
    && (Inside(pc) <==> s.entry == Some(t))
    && (pc.Waiting? ==> pc.since <= |s.pushed| && s.queue == s.pushed[pc.since..])
    && (pc.Waiting? ==> (|s.pushed| > pc.since <==> HolderJustPushed(s)))
    && (pc.Woken? ==> pc.since <= |s.pushed| && s.queue == s.pushed[pc.since..])
    && (pc.Woken? && pc.notified ==> |s.pushed| > pc.since)
    && (pc.Ready? && pc.wait.None? ==> s.queue != [])
    && (pc.Ready? && pc.wait.Some? ==>
          pc.wait.value.0 <= |s.pushed| && s.queue == s.pushed[pc.wait.value.0..] &&
          (pc.wait.value.1 ==> |s.pushed| > pc.wait.value.0))
  }

  ghost predicate Inv(s: State) {
    && !s.fault
    && s.pushed == s.taken + s.queue
    && (s.mutex.Some? ==> s.mutex.value < |s.threads|)
    && (s.entry.Some? ==> s.entry.value < |s.threads|)
    && forall t | 0 <= t < |s.threads| :: Position(s, t)
  }

  lemma StartInv(n: nat)
    ensures Inv(Start(n))
  {
  }

  /** Threads whose position a step does not change keep what is known about it. */
  lemma OtherThreads(s: State, step: Step, u: nat)
    requires Inv(s) && Enabled(s, step) && !Apply(s, step).fault
    requires u < |s.threads| && u != step.t && !(step.Notify? && step.waiter == Some(u))
    ensures Position(Apply(s, step), u)
  {
    assert Position(s, u) && Position(s, step.t);
    if step.Notify? && step.waiter.Some? { assert Position(s, step.waiter.value); }
    var s' := Apply(s, step);
    assert s'.threads[u] == s.threads[u];
  }

  lemma ActingThread(s: State, step: Step)
    requires Inv(s) && Enabled(s, step) && !Apply(s, step).fault
    ensures Position(Apply(s, step), step.t)
  {
    assert Position(s, step.t);
  }

  lemma NotifiedThread(s: State, step: Step)
    requires Inv(s) && Enabled(s, step) && step.Notify? && step.waiter.Some?
    ensures Position(Apply(s, step), step.waiter.value)
  {
    assert Position(s, step.t) && Position(s, step.waiter.value);
  }

  /** Every step that does not fault keeps the invariant, spurious wake-ups included. */
  lemma StepKeepsInv(s: State, step: Step)
    requires Inv(s) && Enabled(s, step) && !Apply(s, step).fault
    ensures Inv(Apply(s, step))
  {
    var s' := Apply(s, step);
    assert s'.pushed == s'.taken + s'.queue;
    forall u | 0 <= u < |s'.threads| ensures Position(s', u) {
      if u == step.t { ActingThread(s, step); }
      else if step.Notify? && step.waiter == Some(u) { NotifiedThread(s, step); }
      else { OtherThreads(s, step, u); }
    }
  }

  // Whole runs

  ghost predicate Runs(s: State, steps: seq<Step>)
    decreases |steps|
  {
    steps == [] || (Enabled(s, steps[0]) && Runs(Apply(s, steps[0]), steps[1..]))
  }

  ghost function Final(s: State, steps: seq<Step>): State
    requires Runs(s, steps)
    decreases |steps|
  {
    if steps == [] then s else Final(Apply(s, steps[0]), steps[1..])
  }

  /** The tasks handed to `push_task` and pushed, in the order of the pushes. */
  function PushedTasks(s: State, steps: seq<Step>): seq<Task>
    requires Runs(s, steps)
    decreases |steps|
  {
    if steps == [] then []
    else
      PushedBy(s, steps[0]) + PushedTasks(Apply(s, steps[0]), steps[1..])
  }

  function PushedBy(s: State, step: Step): seq<Task>
    requires Enabled(s, step)
  {
    if step.Push? then [s.threads[step.t].task] else []
  }

  lemma StepPushes(s: State, step: Step)
    requires Enabled(s, step)
    ensures Apply(s, step).pushed == s.pushed + PushedBy(s, step)
  {
    assert s.pushed + [] == s.pushed;
  }

  lemma {:induction false} RunFromInv(s: State, steps: seq<Step>)
    requires Inv(s) && Runs(s, steps) && !Final(s, steps).fault
    ensures Inv(Final(s, steps))
    ensures Final(s, steps).pushed == s.pushed + PushedTasks(s, steps)
    decreases |steps|
  {
    hide Inv, Apply, Enabled, PushedBy;
    if steps == [] {
      InvMeansNoFault(s);
      assert s.pushed + [] == s.pushed;
    } else {
      var s' := Apply(s, steps[0]);
      FaultIsFinal(s', steps[1..]);
      StepKeepsInv(s, steps[0]);
      RunFromInv(s', steps[1..]);
      StepPushes(s, steps[0]);
      var own := PushedBy(s, steps[0]);
      assert s.pushed + own + PushedTasks(s', steps[1..]) == s.pushed + (own + PushedTasks(s', steps[1..]));
    }
  }

  // Which tasks are pushed, from the steps alone

  /** The task that a thread handed to `push_task` last. */
  function LastSubmitted(past: seq<Step>, t: nat): Option<Task>
    decreases |past|
  {
    if past == [] then None
    else
      var step := past[|past| - 1];
      if step.Submit? && step.t == t then Some(step.task) else LastSubmitted(past[..|past| - 1], t)
  }

  /** The tasks of the pushes among `steps`, each the one its thread submitted last before. */
  function SubmittedTasks(past: seq<Step>, steps: seq<Step>): seq<Task>
    decreases |steps|
  {
    if steps == [] then []
    else
      (if steps[0].Push? && LastSubmitted(past, steps[0].t).Some? then [LastSubmitted(past, steps[0].t).value] else [])
      + SubmittedTasks(past + [steps[0]], steps[1..])
  }

  /** A thread on its way to a push carries what it submitted. */
  predicate Carries(s: State, past: seq<Step>, t: nat)
    requires t < |s.threads|
  {
    var pc := s.threads[t];
    pc.Wanting? || pc.Pushing? ==> LastSubmitted(past, t) == Some(pc.task)
  }

  predicate AllCarry(s: State, past: seq<Step>) {
    forall t | 0 <= t < |s.threads| :: Carries(s, past, t)
  }

  lemma StepCarries(s: State, past: seq<Step>, step: Step)
    requires AllCarry(s, past) && Enabled(s, step)
    ensures AllCarry(Apply(s, step), past + [step])
  {
    var s' := Apply(s, step);
    var now := past + [step];
    assert now[|now| - 1] == step && now[..|now| - 1] == past;
    forall t | 0 <= t < |s'.threads| ensures Carries(s', now, t) {
      assert Carries(s, past, t);
    }
  }

  lemma {:induction false} RunSubmits(s: State, past: seq<Step>, steps: seq<Step>)
    requires AllCarry(s, past) && Runs(s, steps)
    ensures PushedTasks(s, steps) == SubmittedTasks(past, steps)
    decreases |steps|
  {
    hide Apply, Enabled, AllCarry;
    if steps != [] {
      StepCarries(s, past, steps[0]);
      CarriedIsPushed(s, past, steps[0]);
      RunSubmits(Apply(s, steps[0]), past + [steps[0]], steps[1..]);
    }
  }

  lemma CarriedIsPushed(s: State, past: seq<Step>, step: Step)
    requires AllCarry(s, past) && Enabled(s, step)
    ensures PushedBy(s, step)
         == if step.Push? && LastSubmitted(past, step.t).Some? then [LastSubmitted(past, step.t).value] else []
  {
    hide LastSubmitted;
    if step.Push? { assert Carries(s, past, step.t); }
  }

  /** Nothing is enabled after a fault. */
  lemma FaultIsFinal(s: State, steps: seq<Step>)
    requires Runs(s, steps)
    ensures s.fault ==> steps == []
  {
  }

  predicate NoSpurious(steps: seq<Step>) {
    forall i | 0 <= i < |steps| :: !steps[i].Spurious?
  }

  /** No thread has left its wait without a notification. */
  ghost predicate AllNotified(s: State) {
    forall t | 0 <= t < |s.threads| ::
      && (s.threads[t].Woken? ==> s.threads[t].notified)
      && (s.threads[t].Ready? && s.threads[t].wait.Some? ==> s.threads[t].wait.value.1)
  }

  lemma NoFaultWhenNotified(s: State, step: Step)
    requires Inv(s) && Enabled(s, step) && AllNotified(s) && !step.Spurious?
    ensures !Apply(s, step).fault && AllNotified(Apply(s, step))
  {
    assert Position(s, step.t);
  }

  lemma {:induction false} NotifiedRun(s: State, steps: seq<Step>)
    requires Inv(s) && AllNotified(s) && Runs(s, steps) && NoSpurious(steps)
    ensures !Final(s, steps).fault
    decreases |steps|
  {
    hide Inv, AllNotified, Apply, Enabled;
    if steps == [] {
      InvMeansNoFault(s);
    } else {
      NoFaultWhenNotified(s, steps[0]);
      StepKeepsInv(s, steps[0]);
      NotifiedRun(Apply(s, steps[0]), steps[1..]);
    }
  }

  lemma InvMeansNoFault(s: State)
    requires Inv(s)
    ensures !s.fault
  {
  }

  /** Main result, over every interleaving of any number of threads in which waits end only on a
      notification: `front()` is never taken of an empty queue; a thread that waits while no push
      is about to notify finds the queue empty, so no wake-up is lost; and the tasks submitted are,
      in the order of their pushes, the tasks taken followed by the tasks queued. */
  lemma EveryRun(n: nat, steps: seq<Step>)
    requires Runs(Start(n), steps) && NoSpurious(steps)
    ensures var s := Final(Start(n), steps);
            && !s.fault
            && SubmittedTasks([], steps) == PushedTasks(Start(n), steps) == s.taken + s.queue
            && (forall t | 0 <= t < |s.threads| && s.threads[t].Waiting? :: s.queue == [] || HolderJustPushed(s))
  {
    hide Apply, Enabled;
    StartInv(n);
    NotifiedRun(Start(n), steps);
    RunFromInv(Start(n), steps);
    RunSubmits(Start(n), [], steps);
    assert [] + PushedTasks(Start(n), steps) == PushedTasks(Start(n), steps);
    var s := Final(Start(n), steps);
    forall t | 0 <= t < |s.threads| && s.threads[t].Waiting? ensures s.queue == [] || HolderJustPushed(s) {
      assert Position(s, t);
    }
  }

  /** With spurious wake-ups allowed, a taker that has waited finds exactly the tasks pushed
      since; so it faults exactly when it was woken without a notification and nothing has been
      pushed since it began to wait. */
  lemma FaultExactly(n: nat, steps: seq<Step>, t: nat)
    requires Runs(Start(n), steps) && Enabled(Final(Start(n), steps), Take(t))
    ensures var s := Final(Start(n), steps);
            var wait := s.threads[t].wait;
            Apply(s, Take(t)).fault <==> wait.Some? && !wait.value.1 && |PushedTasks(Start(n), steps)| == wait.value.0
  {
    hide Apply;
    StartInv(n);
    RunFromInv(Start(n), steps);
    assert [] + PushedTasks(Start(n), steps) == PushedTasks(Start(n), steps);
    TakeFaults(Final(Start(n), steps), t);
  }

  lemma TakeFaults(s: State, t: nat)
    requires Inv(s) && Enabled(s, Take(t))
    ensures var wait := s.threads[t].wait;
            Apply(s, Take(t)).fault <==> wait.Some? && !wait.value.1 && |s.pushed| == wait.value.0
  {
    assert Position(s, t);
  }

  /** Wherever a taker waits while the queue is empty and its mutex free, one spurious wake-up
      lets it take from the empty queue: the program tests with `if`, once. */
  lemma SpuriousWakeFaults(s: State, t: nat)
    requires Inv(s) && t < |s.threads| && s.threads[t].Waiting? && s.mutex.None?
    ensures Runs(s, [Spurious(t)] + ([Relock(t)] + [Take(t)]))
    ensures Final(s, [Spurious(t)] + ([Relock(t)] + [Take(t)])).fault
  {
    hide Runs, Final;
    assert Position(s, t);
    var s1 := Apply(s, Spurious(t));
    var s2 := Apply(s1, Relock(t));
    NoSteps(Apply(s2, Take(t)));
    FirstStep(s2, Take(t), []);
    assert [Take(t)] + [] == [Take(t)];
    FirstStep(s1, Relock(t), [Take(t)]);
    FirstStep(s, Spurious(t), [Relock(t)] + [Take(t)]);
  }

  /** And a single taker does get there. */
  lemma WaitIsReachable()
    ensures var steps := [Enter(0)] + ([LockToTest(0)] + [Test(0)]);
            Runs(Start(1), steps) && Final(Start(1), steps).threads == [Waiting(0)] &&
            Final(Start(1), steps).mutex.None?
  {
    hide Runs, Final;
    var s1 := Apply(Start(1), Enter(0));
    var s2 := Apply(s1, LockToTest(0));
    NoSteps(Apply(s2, Test(0)));
    FirstStep(s2, Test(0), []);
    assert [Test(0)] + [] == [Test(0)];
    FirstStep(s1, LockToTest(0), [Test(0)]);
    FirstStep(Start(1), Enter(0), [LockToTest(0)] + [Test(0)]);
  }

  /** A state of one thread. */
  function Alone(pc: Pc, queue: seq<Task>, mutex: bool, entry: bool, pushed: seq<Task>, taken: seq<Task>): State {
    State(queue, if mutex then Some(0) else None, if entry then Some(0) else None, [pc], pushed, taken, false)
  }

  lemma StartAlone()
    ensures Start(1) == Alone(Outside, [], false, false, [], [])
  {
  }

  predicate Leads(s: State, step: Step, t: State) {
    Enabled(s, step) && Apply(s, step) == t
  }

  lemma PushSteps(x: Task)
    ensures Leads(Alone(Outside, [], false, false, [], []), Submit(0, x), Alone(Wanting(x), [], false, false, [], []))
    ensures Leads(Alone(Wanting(x), [], false, false, [], []), LockToPush(0),
                  Alone(Pushing(x), [], true, false, [], []))
    ensures Leads(Alone(Pushing(x), [], true, false, [], []), Push(0), Alone(Pushed, [x], true, false, [x], []))
    ensures Leads(Alone(Pushed, [x], true, false, [x], []), Notify(0, None),
                  Alone(Signalled, [x], true, false, [x], []))
    ensures Leads(Alone(Signalled, [x], true, false, [x], []), Unlock(0), Alone(Outside, [x], false, false, [x], []))
  {
  }

  lemma TakeSteps(x: Task)
    ensures Leads(Alone(Outside, [x], false, false, [x], []), Enter(0), Alone(Entered, [x], false, true, [x], []))
    ensures Leads(Alone(Entered, [x], false, true, [x], []), LockToTest(0), Alone(Testing, [x], true, true, [x], []))
    ensures Leads(Alone(Testing, [x], true, true, [x], []), Test(0), Alone(Ready(None), [x], true, true, [x], []))
    ensures Leads(Alone(Ready(None), [x], true, true, [x], []), Take(0), Alone(Leaving, [], true, true, [x], [x]))
    ensures Leads(Alone(Leaving, [], true, true, [x], [x]), UnlockTaker(0), Alone(Exiting, [], false, true, [x], [x]))
    ensures Leads(Alone(Exiting, [], false, true, [x], [x]), Exit(0), Alone(Outside, [], false, false, [x], [x]))
  {
    assert [x][1..] == [];
  }

  /** A run of steps, each led to by the one before. */
  lemma LeadsOn(s: State, step: Step, t: State, rest: seq<Step>)
    requires Leads(s, step, t) && Runs(t, rest)
    ensures Runs(s, [step] + rest) && Final(s, [step] + rest) == Final(t, rest)
  {
    hide Runs, Final;
    FirstStep(s, step, rest);
  }

  /** One thread pushes a task, from outside to outside. */
  lemma PushIsReachable(x: Task)
    ensures var s, steps := Alone(Outside, [], false, false, [], []),
                            [Submit(0, x)] + ([LockToPush(0)] + ([Push(0)] + ([Notify(0, None)] + ([Unlock(0)] + []))));
            Runs(s, steps) && Final(s, steps) == Alone(Outside, [x], false, false, [x], [])
  {
    hide *;
    PushSteps(x);
    NoSteps(Alone(Outside, [x], false, false, [x], []));
    var r1: seq<Step> := [Unlock(0)] + [];
    var r2, r3 := [Notify(0, None)] + r1, [Push(0)] + ([Notify(0, None)] + r1);
    LeadsOn(Alone(Signalled, [x], true, false, [x], []), Unlock(0), Alone(Outside, [x], false, false, [x], []), []);
    LeadsOn(Alone(Pushed, [x], true, false, [x], []), Notify(0, None), Alone(Signalled, [x], true, false, [x], []), r1);
    LeadsOn(Alone(Pushing(x), [], true, false, [], []), Push(0), Alone(Pushed, [x], true, false, [x], []), r2);
    LeadsOn(Alone(Wanting(x), [], false, false, [], []), LockToPush(0), Alone(Pushing(x), [], true, false, [], []), r3);
    LeadsOn(Alone(Outside, [], false, false, [], []), Submit(0, x), Alone(Wanting(x), [], false, false, [], []),
      [LockToPush(0)] + r3);
  }

  /** One thread takes it, from outside to outside. */
  lemma TakeIsReachable(x: Task)
    ensures var s := Alone(Outside, [x], false, false, [x], []);
            var steps := [Enter(0)] + ([LockToTest(0)] + ([Test(0)] +
                         ([Take(0)] + ([UnlockTaker(0)] + ([Exit(0)] + [])))));
            Runs(s, steps) && Final(s, steps) == Alone(Outside, [], false, false, [x], [x])
  {
    hide *;
    TakeSteps(x);
    NoSteps(Alone(Outside, [], false, false, [x], [x]));
    var r1: seq<Step> := [Exit(0)] + [];
    var r2 := [UnlockTaker(0)] + r1;
    var r3 := [Take(0)] + r2;
    var r4 := [Test(0)] + r3;
    LeadsOn(Alone(Exiting, [], false, true, [x], [x]), Exit(0), Alone(Outside, [], false, false, [x], [x]), []);
    LeadsOn(Alone(Leaving, [], true, true, [x], [x]), UnlockTaker(0), Alone(Exiting, [], false, true, [x], [x]), r1);
    LeadsOn(Alone(Ready(None), [x], true, true, [x], []), Take(0), Alone(Leaving, [], true, true, [x], [x]), r2);
    LeadsOn(Alone(Testing, [x], true, true, [x], []), Test(0), Alone(Ready(None), [x], true, true, [x], []), r3);
    LeadsOn(Alone(Entered, [x], false, true, [x], []), LockToTest(0), Alone(Testing, [x], true, true, [x], []), r4);
    LeadsOn(Alone(Outside, [x], false, false, [x], []), Enter(0), Alone(Entered, [x], false, true, [x], []),
      [LockToTest(0)] + r4);
  }

  /** What each thread can do: only the two mutexes and the notification make it wait. */
  lemma StepsHappen(s: State, t: nat, task: Task)
    requires t < |s.threads| && !s.fault
    ensures var pc := s.threads[t];
            && (Enabled(s, Submit(t, task)) <==> pc.Outside?)
            && (Enabled(s, Enter(t)) <==> pc.Outside? && s.entry.None?)
            && (Enabled(s, LockToTest(t)) <==> pc.Entered? && s.mutex.None?)
            && (Enabled(s, Test(t)) <==> pc.Testing?)
            && (Enabled(s, Spurious(t)) <==> pc.Waiting?)
            && (Enabled(s, Relock(t)) <==> pc.Woken? && s.mutex.None?)
            && (Enabled(s, Take(t)) <==> pc.Ready?)
            && (Enabled(s, UnlockTaker(t)) <==> pc.Leaving?)
            && (Enabled(s, Exit(t)) <==> pc.Exiting?)
            && (Enabled(s, LockToPush(t)) <==> pc.Wanting? && s.mutex.None?)
            && (Enabled(s, Push(t)) <==> pc.Pushing?)
            && (Enabled(s, Unlock(t)) <==> pc.Signalled?)
  {
  }

  /** A push that has just been made can notify any thread that waits, and has to if one does. */
  lemma NotifyWakes(s: State, t: nat, w: nat)
    requires Inv(s) && t < |s.threads| && w < |s.threads| && s.threads[t].Pushed? && s.threads[w].Waiting?
    ensures Enabled(s, Notify(t, Some(w))) && !Enabled(s, Notify(t, None))
    ensures Apply(s, Notify(t, Some(w))).threads[w] == Woken(s.threads[w].since, true)
  {
  }

  lemma NoSteps(s: State)
    ensures Runs(s, []) && Final(s, []) == s
  {
  }

  lemma FirstStep(s: State, step: Step, rest: seq<Step>)
    requires Enabled(s, step) && Runs(Apply(s, step), rest)
    ensures Runs(s, [step] + rest) && Final(s, [step] + rest) == Final(Apply(s, step), rest)
  {
    hide Apply, Enabled;
    assert ([step] + rest)[1..] == rest;
  }
}
