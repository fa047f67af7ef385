/** The asynchronous write queue of one session, as a state machine and as the handler object. */
module WriteQueue {
  import opened Bytes
  import opened ChannelState

  /** `queue` holds the unread bytes of each queued block; `inFlight` the bytes handed to each
      write that has not completed. `stopping` is the time between a handler's decision to stop
      and `stop` itself, in which `put` may still run. `put` and `acked` are the bytes put so far
      and those whose writes completed; `awake` records a put since the session went online. */
  datatype Session = Session(
    queue: seq<seq<byte>>, writes: nat, state: State, removed: bool,
    inFlight: seq<seq<byte>>, stopping: bool,
    put: seq<byte>, acked: seq<byte>, awake: bool)

  function StartWrite(s: Session): Session
    requires s.queue != []
  {
    s.(inFlight := s.inFlight + [s.queue[0]], writes := s.writes + 1)
  }

  function Put(s: Session, mb: seq<byte>): Session {
    var s' := s.(queue := s.queue + [mb], put := s.put + mb, awake := s.awake || s.state == Online);
    if s.writes == 0 && s.state == Online then StartWrite(s') else s'
  }

  /** The completion of write `i` with `n` bytes transferred, up to the end of its lock. */
  function WriteDone(s: Session, i: nat, error: bool, n: nat): Session
    requires i < |s.inFlight| && 0 < s.writes && s.queue != [] && n <= |s.queue[0]|
  {
    var data := s.inFlight[i];
    var s' := s.(writes := s.writes - 1, inFlight := s.inFlight[..i] + s.inFlight[i + 1..]);
    if error || s.removed then s'.(stopping := true)
    else
      var rest := if n == |data| then s.queue[1..] else [s.queue[0][n..]] + s.queue[1..];
      var s'' := s'.(queue := rest, acked := s.acked + s.queue[0][..n]);
      if s''.writes == 0 && rest != [] then StartWrite(s'') else s''
  }

  function ReadDone(s: Session, error: bool): Session {
    if error || s.removed then s.(stopping := true) else s.(state := Online)
  }

  function Stop(s: Session): Session {
    if s.removed then s.(stopping := false)
    else s.(stopping := false, removed := true, state := if s.state == Idle then Idle else Offline)
  }

  /** Puts come from any thread. The other events run on one strand, so none of them falls
      between a handler's decision to stop and its `stop`. */
  datatype Event =
    | PutEvent(mb: seq<byte>)
    | WriteEvent(i: nat, error: bool, n: nat)
    | ReadEvent(error: bool)
    | StopEvent

  predicate Enabled(s: Session, e: Event) {
    match e
    case PutEvent(_) => true
    case WriteEvent(i, _, n) => !s.stopping && i < |s.inFlight| && n <= |s.inFlight[i]|
    case ReadEvent(_) => !s.stopping
    case StopEvent => s.stopping
  }

  ghost predicate Inv(s: Session) {
    && s.writes == |s.inFlight| <= 1
    && (s.inFlight != [] ==> s.queue != [] && s.inFlight[0] == s.queue[0])
    && s.acked + Concat(s.queue) == s.put
    && (!s.awake ==> s.inFlight == [])
    && (s.awake ==> s.state == Online || s.state == Offline)
    && (s.removed ==> s.state != Online)
    && (s.state == Offline ==> s.removed)
    && (s.state == Online && s.awake && !s.stopping ==> (s.queue != [] <==> s.inFlight != []))
  }

  function Start(): (s: Session)
    ensures Inv(s)
  {
    Session([], 0, Idle, false, [], false, [], [], false)
  }

  function Step(s: Session, e: Event): Session
    requires Inv(s) && Enabled(s, e)
  {
    match e
    case PutEvent(mb) => Put(s, mb)
    case WriteEvent(i, error, n) => WriteDone(s, i, error, n)
    case ReadEvent(error) => ReadDone(s, error)
    case StopEvent => Stop(s)
  }

  lemma PutKeepsInv(s: Session, mb: seq<byte>)
    requires Inv(s)
    ensures Inv(Put(s, mb))
  {
    ConcatAppend(s.queue, mb);
    assert s.acked + (Concat(s.queue) + mb) == s.put + mb;
  }

  lemma WriteKeepsInv(s: Session, i: nat, error: bool, n: nat)
    requires Inv(s) && Enabled(s, WriteEvent(i, error, n))
    ensures Inv(WriteDone(s, i, error, n))
  {
    assert s.inFlight[..0] + s.inFlight[1..] == [];
    var front, rest := s.queue[0], s.queue[1..];
    assert s.acked + (front + Concat(rest)) == s.acked + front + Concat(rest);
    if n == |front| {
      assert front[..n] == front;
    } else {
      assert ([front[n..]] + rest)[1..] == rest;
      assert front[..n] + front[n..] == front;
      assert s.acked + front[..n] + (front[n..] + Concat(rest)) == s.acked + (front[..n] + front[n..]) + Concat(rest);
    }
  }

  /** Every step keeps the invariant: at most one write is in flight, it carries the unsent part
      of the queue's front, and acknowledged bytes followed by queued bytes are the bytes put. */
  lemma StepKeepsInv(s: Session, e: Event)
    requires Inv(s) && Enabled(s, e)
    ensures Inv(Step(s, e))
  {
    match e
    case PutEvent(mb) => PutKeepsInv(s, mb);
    case WriteEvent(i, error, n) => WriteKeepsInv(s, i, error, n);
    case ReadEvent(error) =>
    case StopEvent =>
  }

  // Whole runs

  ghost predicate Runs(s: Session, es: seq<Event>)
    requires Inv(s)
    decreases |es|
  {
    es == [] || (Enabled(s, es[0]) && (StepKeepsInv(s, es[0]); Runs(Step(s, es[0]), es[1..])))
  }

  ghost function Final(s: Session, es: seq<Event>): Session
    requires Inv(s) && Runs(s, es)
    decreases |es|
  {
    if es == [] then s else (StepKeepsInv(s, es[0]); Final(Step(s, es[0]), es[1..]))
  }

  function BytesOf(e: Event): seq<byte> {
    if e.PutEvent? then e.mb else []
  }

  function PutBytes(es: seq<Event>): seq<byte> {
    if es == [] then [] else BytesOf(es[0]) + PutBytes(es[1..])
  }

  lemma StepPuts(s: Session, e: Event)
    requires Inv(s) && Enabled(s, e)
    ensures Step(s, e).put == s.put + BytesOf(e)
  {
    assert s.put + [] == s.put;
  }

  lemma {:induction false} RunKeepsInv(s: Session, es: seq<Event>)
    requires Inv(s) && Runs(s, es)
    ensures Inv(Final(s, es)) && Final(s, es).put == s.put + PutBytes(es)
    decreases |es|
  {
    hide Inv, Step, Enabled, BytesOf;
    if es == [] {
      assert s.put + [] == s.put;
    } else {
      StepKeepsInv(s, es[0]);
      StepPuts(s, es[0]);
      RunKeepsInv(Step(s, es[0]), es[1..]);
      assert s.put + BytesOf(es[0]) + PutBytes(es[1..]) == s.put + PutBytes(es);
    }
  }

  /** Main result, over every run: at most one write is in flight and carries the unsent part of
      the queue's front; acknowledged plus queued bytes are exactly the bytes put, in order; and,
      online, queued bytes wait without a write exactly if nothing was put since going online. */
  lemma EveryRun(es: seq<Event>)
    requires Runs(Start(), es)
    ensures var s := Final(Start(), es);
            && |s.inFlight| <= 1
            && (s.inFlight != [] ==> s.queue != [] && s.inFlight[0] == s.queue[0])
            && s.acked + Concat(s.queue) == PutBytes(es)
            && (s.queue == [] ==> s.inFlight == [])
            && (s.state == Online && !s.stopping && s.queue != [] ==> (s.inFlight == [] <==> !s.awake))
  {
    RunKeepsInv(Start(), es);
    assert [] + PutBytes(es) == PutBytes(es);
  }

  // What is acknowledged

  /** The bytes that one event acknowledges: the transferred ones of the write in flight, if the
      write succeeds before the session is removed. */
  function Transferred(s: Session, e: Event): seq<byte>
    requires Enabled(s, e)
  {
    if e.WriteEvent? && !e.error && !s.removed then s.inFlight[e.i][..e.n] else []
  }

  lemma StepAcks(s: Session, e: Event)
    requires Inv(s) && Enabled(s, e)
    ensures Step(s, e).acked == s.acked + Transferred(s, e)
  {
    hide Concat;
    assert s.acked + [] == s.acked;
  }

  ghost function AllTransferred(s: Session, es: seq<Event>): seq<byte>
    requires Inv(s) && Runs(s, es)
    decreases |es|
  {
    if es == [] then [] else (StepKeepsInv(s, es[0]); Transferred(s, es[0]) + AllTransferred(Step(s, es[0]), es[1..]))
  }

  lemma {:induction false} RunAcks(s: Session, es: seq<Event>)
    requires Inv(s) && Runs(s, es)
    ensures Final(s, es).acked == s.acked + AllTransferred(s, es)
    decreases |es|
  {
    hide Inv, Step, Enabled, Transferred;
    if es == [] {
      assert s.acked + [] == s.acked;
    } else {
      StepKeepsInv(s, es[0]);
      StepAcks(s, es[0]);
      RunAcks(Step(s, es[0]), es[1..]);
      var t, more := Transferred(s, es[0]), AllTransferred(Step(s, es[0]), es[1..]);
      assert s.acked + t + more == s.acked + (t + more);
    }
  }

  /** Main result: over every run the bytes put are the transferred parts of the successful
      writes, in order, followed by the bytes still queued. So partial completions lose nothing. */
  lemma TransferredThenQueued(es: seq<Event>)
    requires Runs(Start(), es)
    ensures AllTransferred(Start(), es) == Final(Start(), es).acked
    ensures AllTransferred(Start(), es) + Concat(Final(Start(), es).queue) == PutBytes(es)
  {
    RunAcks(Start(), es);
    EveryRun(es);
    assert [] + AllTransferred(Start(), es) == AllTransferred(Start(), es);
  }

  // The session's state

  /** Some read of the run succeeds before the session is removed. */
  ghost predicate GoesOnline(s: Session, es: seq<Event>)
    requires Inv(s) && Runs(s, es)
    decreases |es|
  {
    es != [] &&
    ((es[0] == ReadEvent(false) && !s.removed) ||
     (StepKeepsInv(s, es[0]); GoesOnline(Step(s, es[0]), es[1..])))
  }

  predicate StateOk(s: Session, online: bool) {
    s.state == if !online then Idle else if s.removed then Offline else Online
  }

  lemma StepState(s: Session, e: Event, online: bool)
    requires Inv(s) && Enabled(s, e) && StateOk(s, online)
    ensures StateOk(Step(s, e), online || (e == ReadEvent(false) && !s.removed))
  {
    hide Concat;
  }

  lemma {:induction false} RunState(s: Session, es: seq<Event>, online: bool)
    requires Inv(s) && Runs(s, es) && StateOk(s, online)
    ensures StateOk(Final(s, es), online || GoesOnline(s, es))
    decreases |es|
  {
    hide Inv, Step, Enabled, StateOk;
    if es != [] {
      StepKeepsInv(s, es[0]);
      StepState(s, es[0], online);
      RunState(Step(s, es[0]), es[1..], online || (es[0] == ReadEvent(false) && !s.removed));
    }
  }

  /** Main result: over every run a session is idle until its first successful read, then online,
      and offline once it is removed after one. */
  lemma StateExactly(es: seq<Event>)
    requires Runs(Start(), es)
    ensures var s := Final(Start(), es);
            s.state == if !GoesOnline(Start(), es) then Idle else if s.removed then Offline else Online
  {
    RunState(Start(), es, false);
  }

  // Online sessions

  /** Some block of the run is put while the session is online. */
  ghost predicate PutWhileOnline(s: Session, es: seq<Event>)
    requires Inv(s) && Runs(s, es)
    decreases |es|
  {
    es != [] &&
    ((es[0].PutEvent? && s.state == Online) ||
     (StepKeepsInv(s, es[0]); PutWhileOnline(Step(s, es[0]), es[1..])))
  }

  lemma {:induction false} AwakeMeans(s: Session, es: seq<Event>)
    requires Inv(s) && Runs(s, es)
    ensures Final(s, es).awake <==> s.awake || PutWhileOnline(s, es)
    decreases |es|
  {
    hide Inv, Concat;
    if es != [] {
      StepKeepsInv(s, es[0]);
      AwakeMeans(Step(s, es[0]), es[1..]);
    }
  }

  /** Main result: on an online session with something queued a write is in flight exactly when
      some block was put while it was online. Going online does not start one. */
  lemma QueuedIsSentExactly(es: seq<Event>)
    requires Runs(Start(), es)
    ensures var s := Final(Start(), es);
            s.state == Online && !s.stopping && s.queue != [] ==>
              (s.inFlight != [] <==> PutWhileOnline(Start(), es))
  {
    RunKeepsInv(Start(), es);
    AwakeMeans(Start(), es);
  }

  /** So what is put before the first read waits, online, for another put. */
  lemma PutWhileIdleWaits()
    ensures var es := [PutEvent([1]), ReadEvent(false)];
            Runs(Start(), es) &&
            var s := Final(Start(), es);
            s.state == Online && !s.stopping && s.queue == [[1]] && s.inFlight == []
  {
    var es := [PutEvent([1]), ReadEvent(false)];
    var s1 := Step(Start(), es[0]);
    var s2 := Step(s1, es[1]);
    assert es[1..] == [es[1]] && es[1..][1..] == [];
    assert Runs(s1, es[1..]);
    assert Final(s1, es[1..]) == s2;
  }

  /** The first error has been handled. */
  predicate Failed(s: Session) {
    s.stopping || s.removed
  }

  /** Main result: once an error was handled nothing more is ever acknowledged, so the
      acknowledged bytes stay the same prefix of what is put. */
  lemma {:induction false} AfterFailure(s: Session, es: seq<Event>)
    requires Inv(s) && Runs(s, es) && Failed(s)
    ensures Failed(Final(s, es)) && Final(s, es).acked == s.acked
    ensures s.acked <= Final(s, es).put
    decreases |es|
  {
    if es != [] {
      StepKeepsInv(s, es[0]);
      AfterFailure(Step(s, es[0]), es[1..]);
    }
  }

  /** How often a write is started along a run. */
  ghost function Starts(s: Session, es: seq<Event>): nat
    requires Inv(s) && Runs(s, es)
    decreases |es|
  {
    if es == [] then 0
    else
      StepKeepsInv(s, es[0]);
      var s' := Step(s, es[0]);
      var left := |s.inFlight| - (if es[0].WriteEvent? then 1 else 0);
      (if |s'.inFlight| > left then 1 else 0) + Starts(s', es[1..])
  }

  /** Main result: after `stop` no write is started; after the error but before `stop`, at most
      one is, and only if no write is in flight then. */
  lemma {:induction false} StartsAfterFailure(s: Session, es: seq<Event>)
    requires Inv(s) && Runs(s, es) && Failed(s)
    ensures s.removed ==> Starts(s, es) == 0
    ensures Starts(s, es) <= 1 && (Starts(s, es) == 1 ==> s.inFlight == [])
    decreases |es|
  {
    if es != [] {
      StepKeepsInv(s, es[0]);
      StartsAfterFailure(Step(s, es[0]), es[1..]);
    }
  }

  /** A put after the first error starts a write exactly when it falls between the end of the
      handler's lock and `stop`, on an online session with no write in flight. */
  lemma PutAfterFailure(s: Session, mb: seq<byte>)
    requires Inv(s) && Failed(s)
    ensures Put(s, mb).inFlight != s.inFlight <==> s.stopping && !s.removed && s.state == Online && s.inFlight == []
  {
  }

  /** Such a put exists: so "no write starts after an error" does not hold without `stop`. */
  lemma WindowIsReachable() returns (es: seq<Event>)
    ensures Runs(Start(), es)
    ensures Starts(Start(), es) == 2 && Final(Start(), es).stopping
    ensures es == [ReadEvent(false), PutEvent([1]), WriteEvent(0, true, 0), PutEvent([2])]
  {
    es := [ReadEvent(false), PutEvent([1]), WriteEvent(0, true, 0), PutEvent([2])];
    var s1 := Step(Start(), es[0]);
    var s2 := Step(s1, es[1]);
    var s3 := Step(s2, es[2]);
    var s4 := Step(s3, es[3]);
    assert es[1..] == [es[1], es[2], es[3]] && es[1..][1..] == [es[2], es[3]] && es[1..][1..][1..] == [es[3]];
  }

  /** Nothing is assumed of the events: puts come at any time, and unless a stop is pending any
      write in flight completes with any size or error, and any read with or without one. */
  lemma EventsHappen(s: Session, mb: seq<byte>, i: nat, error: bool, n: nat)
    ensures Enabled(s, PutEvent(mb))
    ensures Enabled(s, ReadEvent(error)) <==> !s.stopping
    ensures Enabled(s, StopEvent) <==> s.stopping
    ensures Enabled(s, WriteEvent(i, error, n)) <==> !s.stopping && i < |s.inFlight| && n <= |s.inFlight[i]|
  {
  }

  /** A block that goes out in two parts: one byte, then the rest. */
  lemma PartialRun()
    ensures var es := [ReadEvent(false), PutEvent([1, 2, 3]), WriteEvent(0, false, 1)];
            Runs(Start(), es) &&
            var s := Final(Start(), es);
            s.queue == [[2, 3]] && s.inFlight == [[2, 3]] && s.acked == [1] && Enabled(s, WriteEvent(0, false, 2)) &&
            Step(s, WriteEvent(0, false, 2)).queue == [] && Step(s, WriteEvent(0, false, 2)).acked == [1, 2, 3]
  {
    var es := [ReadEvent(false), PutEvent([1, 2, 3]), WriteEvent(0, false, 1)];
    var s1 := Step(Start(), es[0]);
    var s2 := Step(s1, es[1]);
    var s3 := Step(s2, es[2]);
    assert es[1..] == [es[1], es[2]] && es[1..][1..] == [es[2]] && es[1..][1..][1..] == [];
    assert s2.queue == [[1, 2, 3]] && [1, 2, 3][1..] == [2, 3] && [1, 2, 3][..1] == [1];
    assert Final(s2, [es[2]]) == s3;
    assert [2, 3][..2] == [2, 3];
  }

  /** The session handler. The ghost fields are the socket's side (`inFlight`) and the history. */
  class SessionHandler {
    var queue: seq<seq<byte>>
    var writes: nat
    var state: State
    var removed: bool
    ghost var inFlight: seq<seq<byte>>
    ghost var put: seq<byte>
    ghost var acked: seq<byte>
    ghost var awake: bool

    ghost function View(): Session
      reads this
    {
      Session(queue, writes, state, removed, inFlight, false, put, acked, awake)
    }

    ghost predicate Valid()
      reads this
    {
      Inv(View())
    }

    constructor ()
      ensures Valid() && View() == Start()
    {
      queue, writes, state, removed := [], 0, Idle, false;
      inFlight, put, acked, awake := [], [], [], false;
    }

    method StartAsyncWrite()
      requires queue != []
      modifies this`writes, this`inFlight
      ensures View() == StartWrite(old(View()))
    {
      var mb := queue[0];
      inFlight := inFlight + [mb];
      writes := writes + 1;
    }

    method PutBlock(mb: seq<byte>)
      requires Valid()
      modifies this
      ensures Valid() && View() == Put(old(View()), mb)
    {
      PutKeepsInv(View(), mb);
      queue := queue + [mb];
      put := put + mb;
      awake := awake || state == Online;
      if writes == 0 && |queue| > 0 && state == Online {
        StartAsyncWrite();
      }
    }

    method StopSession()
      requires Inv(View().(stopping := true))
      modifies this`state, this`removed
      ensures Valid() && View() == Stop(old(View()))
    {
      if !removed {
        if state != Idle { state := Offline; }
        removed := true;
      }
    }

    /** `bytesToWrite` is the length handed to the one write in flight. */
    method HandleWrite(bytesToWrite: nat, error: bool, transferred: nat)
      requires Valid() && inFlight != [] && bytesToWrite == |inFlight[0]| && transferred <= bytesToWrite
      modifies this
      ensures Valid()
      ensures View() == if error || old(removed) then Stop(WriteDone(old(View()), 0, error, transferred))
                        else WriteDone(old(View()), 0, error, transferred)
    {
      WriteKeepsInv(View(), 0, error, transferred);
      ghost var done := WriteDone(View(), 0, error, transferred);
      writes := writes - 1;
      inFlight := inFlight[..0] + inFlight[1..];
      if !error && !removed {
        acked := acked + queue[0][..transferred];
        if bytesToWrite == transferred {
          queue := queue[1..];
        } else {
          queue := [queue[0][transferred..]] + queue[1..];
        }
        if writes == 0 && |queue| > 0 { StartAsyncWrite(); }
        return;
      }
      assert View().(stopping := true) == done;
      StopSession();
    }

    method HandleRead(error: bool)
      requires Valid()
      modifies this`state, this`removed
      ensures Valid()
      ensures View() == if error || old(removed) then Stop(ReadDone(old(View()), error))
                        else ReadDone(old(View()), error)
    {
      if !error && !removed {
        state := Online;
        return;
      }
      StopSession();
    }
  }
}
