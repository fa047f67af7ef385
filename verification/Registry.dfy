/** The sessions of a server channel and the registry of those that were started. */
module Registry {
  import opened ChannelState
  import opened Wrappers

  const MAX_METER_ID := 100000

  /** `get_next_meter_id` on the last id given. */
  function NextMeterId(last: nat): (id: nat)
    ensures 1 <= id <= MAX_METER_ID + 1
  {
    if last > MAX_METER_ID then 2 else last + 1
  }

  /** `insert_handler`, which refuses a key that is taken, and `remove_handler`. */
  function Inserted<T>(handlers: map<nat, T>, id: nat, h: T): map<nat, T> {
    if id in handlers then handlers else handlers[id := h]
  }

  function Removed<T>(handlers: map<nat, T>, id: nat): map<nat, T> {
    handlers - {id}
  }

  function Found<T>(handlers: map<nat, T>, id: nat): Option<T> {
    if id in handlers then Some(handlers[id]) else None
  }

  // Runs

  /** Where a session is: accepted, registered or refused, or inside `stop` between the locks. */
  datatype Stage = Accepted | Started | Finding | Removing | Stopped

  datatype Session = Session(id: nat, state: State, stage: Stage)

  /** A session is named by the number of accepts before its own. */
  datatype Server = Server(last: nat, sessions: seq<Session>, handlers: map<nat, nat>)

  const START := Server(1, [], map[])

  /** The sections that run without interruption. The accept strand orders accepts; a session's
      own strand orders its reads and its stop; everything else may come in between. */
  datatype Step =
    | Accept
    | Insert(who: nat)
    | Read(who: nat)
    | Stop(who: nat)
    | StopFind(who: nat)
    | StopRemove(who: nat)

  predicate CanStep(v: Server, step: Step) {
    match step
    case Accept => true
    case Insert(h) => h < |v.sessions| && v.sessions[h].stage == Accepted
    case Read(h) => h < |v.sessions| && v.sessions[h].stage == Started
    case Stop(h) => h < |v.sessions| && v.sessions[h].stage == Started
    case StopFind(h) => h < |v.sessions| && v.sessions[h].stage == Finding
    case StopRemove(h) => h < |v.sessions| && v.sessions[h].stage == Removing
  }

  function With(v: Server, h: nat, state: State, stage: Stage): (w: Server)
    requires h < |v.sessions|
    ensures |w.sessions| == |v.sessions| && w.handlers == v.handlers
  {
    v.(sessions := v.sessions[h := v.sessions[h].(state := state, stage := stage)])
  }

  function Next(v: Server, step: Step): Server
    requires CanStep(v, step)
  {
    match step
    case Accept =>
      var id := NextMeterId(v.last);
      Server(id, v.sessions + [Session(id, Idle, Accepted)], v.handlers)
    case Insert(h) =>
      With(v, h, v.sessions[h].state, Started).(handlers := Inserted(v.handlers, v.sessions[h].id, h))
    case Read(h) => With(v, h, Online, Started)
    case Stop(h) =>
      if v.sessions[h].state == Idle then With(v, h, Idle, Stopped) else With(v, h, Offline, Finding)
    case StopFind(h) =>
      var found := Found(v.handlers, v.sessions[h].id);
      With(v, h, v.sessions[h].state, if found == Some(h) then Removing else Stopped)
    case StopRemove(h) =>
      With(v, h, v.sessions[h].state, Stopped).(handlers := Removed(v.handlers, v.sessions[h].id))
  }

  predicate CanRun(v: Server, run: seq<Step>)
    decreases |run|
  {
    run == [] || (CanStep(v, run[0]) && CanRun(Next(v, run[0]), run[1..]))
  }

  function After(v: Server, run: seq<Step>): Server
    requires CanRun(v, run)
    decreases |run|
  {
    if run == [] then v else After(Next(v, run[0]), run[1..])
  }

  /** The id of the n-th session. */
  function IdOf(n: nat): (id: nat)
    ensures 2 <= id <= MAX_METER_ID + 1
  {
    2 + n % MAX_METER_ID
  }

  predicate SessionOk(v: Server, h: nat)
    requires h < |v.sessions|
  {
    var s := v.sessions[h];
    s.id == IdOf(h) &&
    (s.stage == Removing ==> Found(v.handlers, s.id) == Some(h)) &&
    (s.stage == Accepted ==> s.state == Idle) &&
    (s.stage == Finding || s.stage == Removing ==> s.state == Offline)
  }

  predicate EntryOk(v: Server, k: nat)
    requires k in v.handlers
  {
    var h := v.handlers[k];
    h < |v.sessions| && v.sessions[h].id == k && v.sessions[h].stage != Accepted &&
    (v.sessions[h].stage == Stopped ==> v.sessions[h].state == Idle)
  }

  /** Each key is the id of its own session, ids follow the accepts, a stop about to remove still
      holds the entry, and a stopped session holds one only if it was stopped while idle. */
  predicate Inv(v: Server) {
    v.last == (if v.sessions == [] then 1 else IdOf(|v.sessions| - 1)) &&
    (forall h | 0 <= h < |v.sessions| :: SessionOk(v, h)) &&
    (forall k | k in v.handlers :: EntryOk(v, k))
  }

  lemma IdSteps(n: nat)
    ensures NextMeterId(IdOf(n)) == IdOf(n + 1)
    ensures NextMeterId(1) == IdOf(0)
  {
    var q, r := n / MAX_METER_ID, n % MAX_METER_ID;
    assert n + 1 == q * MAX_METER_ID + (r + 1);
    if r + 1 == MAX_METER_ID { assert n + 1 == (q + 1) * MAX_METER_ID; }
  }

  /** Two sessions get the same id exactly when their places differ by a multiple of 100000. */
  lemma SameIdExactly(m: nat, n: nat)
    ensures IdOf(m) == IdOf(n) <==> (m - n) % 100000 == 0
  {
    var a, b := m / MAX_METER_ID, n / MAX_METER_ID;
    assert m - n == (a - b) * MAX_METER_ID + (m % MAX_METER_ID - n % MAX_METER_ID);
  }

  lemma StepKeepsInv(v: Server, step: Step)
    requires Inv(v) && CanStep(v, step)
    ensures Inv(Next(v, step))
  {
    hide IdOf, NextMeterId;
    var w := Next(v, step);
    match step
    case Accept =>
      if v.sessions != [] { IdSteps(|v.sessions| - 1); } else { IdSteps(0); }
      forall h | 0 <= h < |w.sessions| ensures SessionOk(w, h) {
        if h < |v.sessions| { assert SessionOk(v, h); }
      }
      forall k | k in w.handlers ensures EntryOk(w, k) { assert EntryOk(v, k); }
    case Insert(h) =>
      forall g | 0 <= g < |w.sessions| ensures SessionOk(w, g) { assert SessionOk(v, g); }
      forall k | k in w.handlers ensures EntryOk(w, k) { assert k in v.handlers ==> EntryOk(v, k); }
    case _ =>
      OtherStepKeepsInv(v, step);
  }

  lemma OtherStepKeepsInv(v: Server, step: Step)
    requires Inv(v) && CanStep(v, step) && !step.Accept? && !step.Insert?
    ensures Inv(Next(v, step))
  {
    hide IdOf, NextMeterId;
    var w, h := Next(v, step), step.who;
    assert SessionOk(v, h);
    forall g | 0 <= g < |w.sessions| ensures SessionOk(w, g) {
      assert SessionOk(v, g);
      if step.StopRemove? && g != h && v.sessions[g].stage == Removing {
        assert v.handlers[v.sessions[g].id] == g && v.handlers[v.sessions[h].id] == h;
      }
    }
    forall k | k in w.handlers ensures EntryOk(w, k) { assert EntryOk(v, k); }
  }

  lemma {:induction false} RunKeepsInv(v: Server, run: seq<Step>)
    requires Inv(v) && CanRun(v, run)
    ensures Inv(After(v, run))
    decreases |run|
  {
    if run != [] {
      StepKeepsInv(v, run[0]);
      RunKeepsInv(Next(v, run[0]), run[1..]);
    }
  }

  /** Main result, over every run: keys are the ids of their sessions, in 2..100001 and so never
      the broadcast id 0, no session has two entries, and a session that has been online keeps
      none once it is stopped. */
  lemma EveryRun(run: seq<Step>)
    requires CanRun(START, run)
    ensures var v := After(START, run);
      forall k | k in v.handlers ::
        2 <= k <= 100001 && v.handlers[k] < |v.sessions| && v.sessions[v.handlers[k]].id == k &&
        (v.sessions[v.handlers[k]].stage == Stopped ==> v.sessions[v.handlers[k]].state == Idle)
  {
    RunKeepsInv(START, run);
    var v := After(START, run);
    forall k | k in v.handlers
      ensures 2 <= k <= 100001 && v.handlers[k] < |v.sessions| && v.sessions[v.handlers[k]].id == k &&
        (v.sessions[v.handlers[k]].stage == Stopped ==> v.sessions[v.handlers[k]].state == Idle)
    {
      assert EntryOk(v, k);
      assert SessionOk(v, v.handlers[k]);
    }
  }

  /** Main result: whatever steps run, a session's entry leaves the registry only by that
      session's own removal. */
  lemma OthersUntouched(v: Server, step: Step, k: nat)
    requires Inv(v) && CanStep(v, step) && k in v.handlers
    requires !(step.StopRemove? && step.who == v.handlers[k])
    ensures k in Next(v, step).handlers && Next(v, step).handlers[k] == v.handlers[k]
  {
    hide IdOf, NextMeterId;
    assert EntryOk(v, k);
    if step.StopRemove? { assert SessionOk(v, step.who); }
  }

  /** And its own removal does take it out. */
  lemma OwnRemoval(v: Server, h: nat)
    requires Inv(v) && CanStep(v, StopRemove(h))
    ensures v.sessions[h].id in v.handlers && v.handlers[v.sessions[h].id] == h
    ensures var w := Next(v, StopRemove(h)); w.handlers.Keys == v.handlers.Keys - {v.sessions[h].id}
    ensures forall k | k in Next(v, StopRemove(h)).handlers :: Next(v, StopRemove(h)).handlers[k] != h
  {
    assert SessionOk(v, h);
    forall k | k in Next(v, StopRemove(h)).handlers ensures v.handlers[k] != h { assert EntryOk(v, k); }
  }

  /** A session stopped before its first read stays registered under its id for ever, and with
      it every later session of that id is refused. */
  lemma {:induction false} IdleStopLeaks(v: Server, run: seq<Step>, k: nat)
    requires Inv(v) && CanRun(v, run)
    requires k in v.handlers && v.sessions[v.handlers[k]].stage == Stopped
    ensures var w := After(v, run);
      k in w.handlers && w.handlers[k] == v.handlers[k] && |v.sessions| <= |w.sessions| &&
      w.sessions[w.handlers[k]].stage == Stopped
    decreases |run|
  {
    assert EntryOk(v, k);
    if run != [] {
      OthersUntouched(v, run[0], k);
      StepKeepsInv(v, run[0]);
      StoppedStays(v, run[0], v.handlers[k]);
      IdleStopLeaks(Next(v, run[0]), run[1..], k);
    }
  }

  lemma StoppedStays(v: Server, step: Step, h: nat)
    requires CanStep(v, step) && h < |v.sessions| && v.sessions[h].stage == Stopped
    ensures h < |Next(v, step).sessions| && Next(v, step).sessions[h] == v.sessions[h]
  {
    hide NextMeterId;
  }

  predicate HasStopped(s: Session) {
    s.stage == Finding || s.stage == Removing || s.stage == Stopped
  }

  lemma StoppingStep(v: Server, step: Step, h: nat)
    requires Inv(v) && CanStep(v, step) && h < |v.sessions| && HasStopped(v.sessions[h])
    ensures var w := Next(v, step);
      h < |w.sessions| && HasStopped(w.sessions[h]) && w.sessions[h].state == v.sessions[h].state &&
      (IsRegistered(w, h) ==> IsRegistered(v, h))
  {
    hide NextMeterId, IdOf;
  }

  /** A session that stops keeps its state and is not registered again. */
  lemma {:induction false} StoppingStays(v: Server, run: seq<Step>, h: nat)
    requires Inv(v) && CanRun(v, run) && h < |v.sessions| && HasStopped(v.sessions[h])
    ensures var w := After(v, run);
      h < |w.sessions| && w.sessions[h].state == v.sessions[h].state &&
      (IsRegistered(w, h) ==> IsRegistered(v, h))
    decreases |run|
  {
    if run != [] {
      StoppingStep(v, run[0], h);
      StepKeepsInv(v, run[0]);
      StoppingStays(Next(v, run[0]), run[1..], h);
    }
  }

  /** Main result: over every run in which a session's stop comes to its end, the session is
      still registered exactly when it was registered and idle as the stop began: the guard
      `state_ != chs_idle` is what keeps the entry. */
  lemma StopLeavesExactly(v: Server, h: nat, run: seq<Step>)
    requires Inv(v) && CanStep(v, Stop(h)) && CanRun(Next(v, Stop(h)), run)
    ensures h < |After(Next(v, Stop(h)), run).sessions|
    ensures var w := After(Next(v, Stop(h)), run);
      w.sessions[h].stage == Stopped ==>
        (IsRegistered(w, h) <==> IsRegistered(v, h) && v.sessions[h].state == Idle)
  {
    var v1 := Next(v, Stop(h));
    var w := After(v1, run);
    StepKeepsInv(v, Stop(h));
    RunKeepsInv(v1, run);
    StoppingStays(v1, run, h);
    if IsRegistered(w, h) {
      assert EntryOk(w, w.sessions[h].id);
    }
    if IsRegistered(v, h) && v.sessions[h].state == Idle {
      IdleStopLeaks(v1, run, v.sessions[h].id);
      assert EntryOk(w, v.sessions[h].id);
    }
  }

  /** The leak is reachable: accept, register, and a first read that fails. */
  lemma LeakIsReachable()
    ensures CanRun(START, [Accept, Insert(0), Stop(0)])
    ensures var v := After(START, [Accept, Insert(0), Stop(0)]);
      2 in v.handlers && v.sessions[v.handlers[2]].stage == Stopped
  {
    var v1 := Next(START, Accept);
    var v2 := Next(v1, Insert(0));
    var v3 := Next(v2, Stop(0));
    assert [Accept, Insert(0), Stop(0)][1..] == [Insert(0), Stop(0)];
    assert [Insert(0), Stop(0)][1..] == [Stop(0)];
    assert [Stop(0)][1..] == [];
    assert v3.handlers[2] == 0;
    assert After(v3, []) == v3;
    assert After(v2, [Stop(0)]) == v3;
    assert After(v1, [Insert(0), Stop(0)]) == v3;
  }

  /** Nothing blocks a session: it can register once accepted, be read from and begin to stop once
      started, and go on with its stop whatever the registry holds. */
  lemma StepsHappen(v: Server, h: nat)
    requires h < |v.sessions|
    ensures CanStep(v, Accept)
    ensures v.sessions[h].stage == Accepted <==> CanStep(v, Insert(h))
    ensures v.sessions[h].stage == Started <==> CanStep(v, Read(h)) && CanStep(v, Stop(h))
    ensures v.sessions[h].stage == Finding <==> CanStep(v, StopFind(h))
    ensures v.sessions[h].stage == Removing <==> CanStep(v, StopRemove(h))
  {
  }

  /** A whole life: accepted, registered, read from, stopped, and gone from the registry. */
  lemma WholeLife()
    ensures var run := [Accept, Insert(0), Read(0), Stop(0), StopFind(0), StopRemove(0)];
      CanRun(START, run) && After(START, run).handlers == map[] &&
      After(START, run).sessions == [Session(2, Offline, Stopped)]
  {
    var run := [Accept, Insert(0), Read(0), Stop(0), StopFind(0), StopRemove(0)];
    var v1 := Next(START, Accept);
    var v2 := Next(v1, Insert(0));
    var v3 := Next(v2, Read(0));
    var v4 := Next(v3, Stop(0));
    var v5 := Next(v4, StopFind(0));
    var v6 := Next(v5, StopRemove(0));
    assert run[1..] == [Insert(0), Read(0), Stop(0), StopFind(0), StopRemove(0)];
    assert run[1..][1..] == [Read(0), Stop(0), StopFind(0), StopRemove(0)];
    assert run[1..][1..][1..] == [Stop(0), StopFind(0), StopRemove(0)];
    assert run[1..][1..][1..][1..] == [StopFind(0), StopRemove(0)];
    assert run[1..][1..][1..][1..][1..] == [StopRemove(0)];
    assert [StopRemove(0)][1..] == [];
    assert v2.handlers == map[2 := 0];
    assert v6.handlers == map[];
    assert After(v6, []) == v6;
    assert After(v5, [StopRemove(0)]) == v6;
    assert After(v4, [StopFind(0), StopRemove(0)]) == v6;
    assert After(v3, run[1..][1..][1..]) == v6;
  }

  /** An insert is refused exactly when a session accepted a multiple of 100000 accepts earlier
      still holds the id; so never among the first 100000 sessions. */
  lemma RefusedExactly(v: Server, n: nat)
    requires Inv(v) && CanStep(v, Insert(n))
    ensures Next(v, Insert(n)).handlers == v.handlers
       <==> exists m: nat :: IsRegistered(v, m) && m != n && (m - n) % 100000 == 0
    ensures Next(v, Insert(n)).handlers != v.handlers ==> Next(v, Insert(n)).handlers == v.handlers[IdOf(n) := n]
    ensures |v.sessions| <= 100000 ==> Next(v, Insert(n)).handlers == v.handlers[IdOf(n) := n]
  {
    assert SessionOk(v, n);
    var id := IdOf(n);
    if id in v.handlers {
      var m := v.handlers[id];
      assert EntryOk(v, id) && SessionOk(v, m);
      SameIdExactly(m, n);
      assert IsRegistered(v, m);
      SmallMultiple(m - n, |v.sessions|);
    }
    forall m: nat | IsRegistered(v, m) && m != n && (m - n) % 100000 == 0 ensures id in v.handlers {
      assert SessionOk(v, m);
      SameIdExactly(m, n);
    }
  }

  function Accepts(n: nat): (run: seq<Step>)
    ensures |run| == n
  {
    seq(n, _ => Accept)
  }

  lemma {:induction false} AcceptsRun(v: Server, n: nat)
    ensures CanRun(v, Accepts(n))
    ensures var w := After(v, Accepts(n));
      w.handlers == v.handlers && |w.sessions| == |v.sessions| + n && v.sessions <= w.sessions &&
      forall i | |v.sessions| <= i < |w.sessions| :: w.sessions[i].stage == Accepted
    decreases n
  {
    hide NextMeterId;
    if n > 0 {
      assert Accepts(n)[1..] == Accepts(n - 1);
      AcceptsRun(Next(v, Accept), n - 1);
    }
  }

  /** A refusal is reachable: the first session registers and stays, and 100000 accepts later
      its id comes up again. */
  lemma RefusalIsReachable()
    ensures var v := Next(Next(START, Accept), Insert(0));
      CanRun(v, Accepts(100000)) &&
      var w := After(v, Accepts(100000));
      CanStep(w, Insert(100000)) && IsRegistered(w, 0) && Next(w, Insert(100000)).handlers == w.handlers
  {
    hide CanRun, After, Accepts;
    StepKeepsInv(START, Accept);
    StepKeepsInv(Next(START, Accept), Insert(0));
    var v := Next(Next(START, Accept), Insert(0));
    AcceptsRun(v, 100000);
    RunKeepsInv(v, Accepts(100000));
    var w := After(v, Accepts(100000));
    assert w.sessions[0] == v.sessions[0];
    assert IsRegistered(w, 0);
    RefusedExactly(w, 100000);
  }

  lemma SmallMultiple(d: int, bound: nat)
    requires d % MAX_METER_ID == 0 && d != 0 && d < bound && 0 < d + bound
    ensures bound > MAX_METER_ID
  {
  }

  predicate IsRegistered(v: Server, m: nat) {
    m < |v.sessions| && Found(v.handlers, v.sessions[m].id) == Some(m)
  }

  // States of sessions

  /** A session's state, by whether it has been read from and whether it has stopped. */
  predicate StateOk(s: Session, read: bool) {
    s.state == if !read then Idle else if HasStopped(s) then Offline else Online
  }

  lemma StepStates(v: Server, step: Step, h: nat, read: bool)
    requires CanStep(v, step) && h < |v.sessions| && StateOk(v.sessions[h], read)
    ensures h < |Next(v, step).sessions| && StateOk(Next(v, step).sessions[h], read || step == Read(h))
  {
    hide NextMeterId;
  }

  lemma {:induction false} RunStates(v: Server, run: seq<Step>, h: nat, read: bool)
    requires CanRun(v, run) && h < |v.sessions| && StateOk(v.sessions[h], read)
    ensures h < |After(v, run).sessions| && StateOk(After(v, run).sessions[h], read || Read(h) in run)
    decreases |run|
  {
    hide StateOk, Next, CanStep;
    if run != [] {
      StepStates(v, run[0], h, read);
      RunStates(Next(v, run[0]), run[1..], h, read || run[0] == Read(h));
      assert Read(h) in run <==> run[0] == Read(h) || Read(h) in run[1..];
    }
  }

  lemma {:induction false} LaterStates(v: Server, run: seq<Step>, h: nat)
    requires CanRun(v, run) && |v.sessions| <= h < |After(v, run).sessions|
    ensures StateOk(After(v, run).sessions[h], Read(h) in run)
    decreases |run|
  {
    hide StateOk, NextMeterId;
    if run != [] {
      var w := Next(v, run[0]);
      assert run[0] != Read(h);
      assert Read(h) in run <==> Read(h) in run[1..];
      if h < |w.sessions| {
        AcceptedIsIdle(v, run[0], h);
        RunStates(w, run[1..], h, false);
      } else {
        LaterStates(w, run[1..], h);
      }
    }
  }

  lemma AcceptedIsIdle(v: Server, step: Step, h: nat)
    requires CanStep(v, step) && |v.sessions| <= h < |Next(v, step).sessions|
    ensures StateOk(Next(v, step).sessions[h], false)
  {
  }

  /** Main result: over every run a session is idle until its first read, then online, and
      offline once it stops after a read. */
  lemma StateExactly(run: seq<Step>, h: nat)
    requires CanRun(START, run) && h < |After(START, run).sessions|
    ensures var s := After(START, run).sessions[h];
      s.state == if Read(h) !in run then Idle else if HasStopped(s) then Offline else Online
  {
    LaterStates(START, run, h);
  }

  // Messages

  /** The handlers that `put` gives a message for `id`, 0 being everyone. */
  function Addressed<T(==)>(handlers: map<nat, T>, online: set<T>, id: nat): set<T> {
    if id == 0 then handlers.Values
    else if id in handlers && handlers[id] in online then {handlers[id]}
    else {}
  }

  function OnlineSessions(v: Server): set<nat> {
    set h | 0 <= h < |v.sessions| && IsOnline(v.sessions[h].state)
  }

  function Receivers(v: Server, id: nat): set<nat> {
    Addressed(v.handlers, OnlineSessions(v), id)
  }

  /** A message for an id other than 0 reaches at most the one session registered with that id,
      and reaches it exactly when its state is past idle and connected; everyone means all that
      are registered. */
  lemma ReceiversExactly(v: Server, id: nat, h: nat)
    requires Inv(v)
    ensures h in Receivers(v, id)
       <==> IsRegistered(v, h) &&
            (id == 0 || (v.sessions[h].id == id && v.sessions[h].state != Idle && v.sessions[h].state != Connected))
  {
    hide IdOf;
    forall k | k in v.handlers && v.handlers[k] == h ensures IsRegistered(v, h) && v.sessions[h].id == k {
      assert EntryOk(v, k);
    }
    if IsRegistered(v, h) && h < |v.sessions| {
      assert SessionOk(v, h);
      ZeroIsNoId(h);
    }
  }

  lemma ZeroIsNoId(h: nat)
    ensures IdOf(h) != 0
  {
  }

  // The objects

  class Handler {
    var id: nat
    var state: State
    var removed: bool
    /** The messages given to `put`. */
    var inbox: seq<seq<int>>

    constructor ()
      ensures id == 0 && state == Idle && !removed && inbox == []
    {
      id, state, removed, inbox := 0, Idle, false, [];
    }

    method Put(message: seq<int>)
      modifies this`inbox
      ensures inbox == old(inbox) + [message]
    {
      inbox := inbox + [message];
    }

    method Start(meterId: nat, channel: Channel)
      modifies this`id, channel`handlers
      ensures id == meterId
      ensures channel.handlers == Inserted(old(channel.handlers), meterId, this)
    {
      id := meterId;
      channel.InsertHandler(this);
    }

    /** Takes the entry out only if it is this handler's. */
    method Stop(channel: Channel)
      modifies this`state, this`removed, channel`handlers
      ensures removed
      ensures state == if old(removed) || old(state) == Idle then old(state) else Offline
      ensures channel.handlers ==
        if !old(removed) && old(state) != Idle && Found(old(channel.handlers), id) == Some(this)
        then Removed(old(channel.handlers), id) else old(channel.handlers)
    {
      if removed { return; }
      if state != Idle {
        state := Offline;
        var handler := channel.FindHandler(id);
        if handler == Some(this) {
          channel.RemoveHandler(id);
        }
      }
      removed := true;
    }
  }

  class Channel {
    var handlers: map<nat, Handler>
    var meterId: nat

    /** Each key is its handler's id, so no handler has two keys, and 0 is not a key. */
    ghost predicate Valid()
      reads this, handlers.Values
    {
      0 !in handlers && forall k | k in handlers :: handlers[k].id == k
    }

    constructor ()
      ensures Valid() && handlers == map[] && meterId == 1
    {
      handlers := map[];
      meterId := 1;
    }

    method GetNextMeterId() returns (id: nat)
      modifies this`meterId
      ensures id == meterId == NextMeterId(old(meterId))
    {
      if meterId > MAX_METER_ID {
        meterId := 1;
      }
      meterId := meterId + 1;
      id := meterId;
    }

    method InsertHandler(handler: Handler)
      modifies this`handlers
      ensures handlers == Inserted(old(handlers), handler.id, handler)
      ensures old(Valid()) && handler.id != 0 ==> Valid()
    {
      if handler.id in handlers { return; }
      handlers := handlers[handler.id := handler];
    }

    method RemoveHandler(id: nat)
      modifies this`handlers
      ensures handlers == Removed(old(handlers), id)
      ensures old(Valid()) ==> Valid()
    {
      if id in handlers {
        handlers := handlers - {id};
      }
    }

    method FindHandler(id: nat) returns (handler: Option<Handler>)
      ensures handler == Found(handlers, id)
    {
      if id in handlers { return Some(handlers[id]); }
      return None;
    }

    /** The handlers that a message for `id` goes to. */
    ghost function Targets(id: nat): set<Handler>
      reads this, handlers.Values
    {
      Addressed(handlers, (set h | h in handlers.Values && IsOnline(h.state)), id)
    }

    /** Each handler concerned gets the message once, and no other handler anything. */
    method Put(id: nat, message: seq<int>) returns (result: int)
      requires Valid()
      modifies handlers.Values`inbox
      ensures Valid()
      ensures forall h | h in handlers.Values ::
        h.inbox == old(h.inbox) + (if h in old(Targets(id)) then [message] else [])
      ensures result == if old(Targets(id)) == {} then -1 else 0
    {
      result := -1;
      if id == 0 {
        var rest := handlers.Keys;
        while rest != {}
          invariant rest <= handlers.Keys && Valid()
          invariant forall k | k in handlers ::
            handlers[k].inbox == old(handlers[k].inbox) + (if k in rest then [] else [message])
          invariant result == if rest == handlers.Keys then -1 else 0
        {
          var k :| k in rest;
          handlers[k].Put(message);
          result := 0;
          rest := rest - {k};
        }
      } else if id in handlers && IsOnline(handlers[id].state) {
        handlers[id].Put(message);
        result := 0;
      }
    }
  }
}
