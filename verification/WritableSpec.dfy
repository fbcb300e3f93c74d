/**
 The writable stream as an abstract machine: a FIFO of requests with at most
 one of them in flight.  The counters and flags that the implementation keeps
 beside the queue (`length`, `writing`, `writingLength`) do not exist here;
 they are derived.  A history log records what an observer of the stream sees.
 */
module WritableSpec {
  import opened Prelude

  datatype WriteReq = WriteReq(chunk: seq<byte>, callback: Option<nat>)

  datatype Event =
    | Accepted(req: WriteReq, ok: bool)  // write() took the request and returned `ok`
    | Rejected(req: WriteReq)            // "write after end"
    | Handed(req: WriteReq)              // _write() was called with the request
    | Acked(req: WriteReq)               // the underlying stream called back
    | Drain
    | Finish

  datatype State = State(
    hwm: int,
    ready: bool,
    inflight: Option<WriteReq>,
    queue: seq<WriteReq>,
    needDrain: bool,
    ending: bool,
    ended: bool,
    ticks: nat,          // emitFinish callbacks waiting in the tick queue
    log: seq<Event>)

  datatype Input = Write(req: WriteReq) | End(last: Option<WriteReq>) | Ready | Ack | Tick

  function Init(hwm: int): State {
    State(hwm, false, None, [], false, false, false, 0, [])
  }

  // ---------------------------------------------------------------- derived

  function Pending(inflight: Option<WriteReq>): seq<WriteReq> {
    if inflight.Some? then [inflight.value] else []
  }

  function Size(reqs: seq<WriteReq>): nat {
    if reqs == [] then 0 else |reqs[0].chunk| + Size(reqs[1..])
  }

  /** Bytes accepted and not yet acknowledged. */
  function Total(s: State): nat {
    Size(Pending(s.inflight)) + Size(s.queue)
  }

  predicate Idle(s: State) {
    s.inflight.None? && s.queue == []
  }

  datatype Kind = IsAccepted | IsRejected | IsHanded | IsAcked

  /** The requests of one kind of event, oldest first. */
  function Reqs(log: seq<Event>, kind: Kind): seq<WriteReq> {
    if log == [] then []
    else
      var before := Reqs(log[..|log| - 1], kind);
      match log[|log| - 1]
      case Accepted(req, _) => if kind.IsAccepted? then before + [req] else before
      case Rejected(req) => if kind.IsRejected? then before + [req] else before
      case Handed(req) => if kind.IsHanded? then before + [req] else before
      case Acked(req) => if kind.IsAcked? then before + [req] else before
      case _ => before
  }

  function Finishes(log: seq<Event>): nat {
    if log == [] then 0
    else Finishes(log[..|log| - 1]) + if log[|log| - 1] == Finish then 1 else 0
  }

  /** What a producer knows: the last write() returned false and no 'drain' came since. */
  predicate OwedDrain(log: seq<Event>) {
    if log == [] then false
    else
      match log[|log| - 1]
      case Accepted(_, ok) => !ok
      case Drain => false
      case _ => OwedDrain(log[..|log| - 1])
  }

  // ------------------------------------------------------------------ steps

  function Emit(s: State, e: Event): State {
    s.(log := s.log + [e])
  }

  function EmitFinish(s: State): State {
    if s.ended then s else Emit(s.(ended := true), Finish)
  }

  function OnEmpty(s: State): State {
    if s.ending then EmitFinish(s)
    else if s.needDrain then Emit(s.(needDrain := false), Drain)
    else s
  }

  /** Hand over the oldest queued request if nothing is in flight. */
  function Pump(s: State): State {
    if s.inflight.Some? then s
    else if s.queue == [] then OnEmpty(s)
    else Emit(s.(inflight := Some(s.queue[0]), queue := s.queue[1..]), Handed(s.queue[0]))
  }

  function Accept(s: State, req: WriteReq): State {
    var owed := s.needDrain || Total(s) + |req.chunk| >= s.hwm;
    var direct := s.ready && Idle(s);
    var s1 := Emit(s.(needDrain := owed), Accepted(req, !owed));
    if direct then Emit(s1.(inflight := Some(req)), Handed(req)) else s1.(queue := s1.queue + [req])
  }

  function TakeOrReject(s: State, req: WriteReq): State {
    if s.ended then Emit(s, Rejected(req)) else Accept(s, req)
  }

  predicate Enabled(s: State, i: Input) {
    && (i.Ack? ==> s.inflight.Some?)
    && (i.Tick? ==> s.ticks > 0)
  }

  function Step(s: State, i: Input): State
    requires Enabled(s, i)
  {
    match i
    case Write(req) => TakeOrReject(s, req)
    case End(last) =>
      var s1 := if last.None? then s else TakeOrReject(s, last.value);
      if s1.ending then s1
      else s1.(ending := true, ticks := s1.ticks + if Idle(s1) then 1 else 0)
    case Ready => Pump(s.(ready := true))
    case Ack => Pump(Emit(s.(inflight := None), Acked(s.inflight.value)))
    case Tick => EmitFinish(s.(ticks := s.ticks - 1))
  }

  predicate Allowed(s: State, run: seq<Input>)
    decreases |run|
  {
    run == [] || (Enabled(s, run[0]) && Allowed(Step(s, run[0]), run[1..]))
  }

  function Run(s: State, run: seq<Input>): State
    requires Allowed(s, run)
    decreases |run|
  {
    if run == [] then s else Run(Step(s, run[0]), run[1..])
  }

  // -------------------------------------------------------------- invariant

  /** Holds in every reachable state, whatever the caller does. */
  ghost predicate Inv(s: State) {
    Shape(s) && NoLostWakeup(s) && Books(s)
  }

  ghost predicate Shape(s: State) {
    && (s.inflight.Some? ==> s.ready)
    && (s.ready && s.inflight.None? ==> s.queue == [])
    && (s.ended ==> s.ending)
    && (s.ticks > 0 ==> s.ending)
  }

  /** FIFO: nothing lost, duplicated or reordered between write() and the acknowledgement. */
  ghost predicate Conserved(s: State) {
    && Reqs(s.log, IsHanded) + s.queue == Reqs(s.log, IsAccepted)
    && Reqs(s.log, IsAcked) + Pending(s.inflight) == Reqs(s.log, IsHanded)
  }

  /** The history and the amount outstanding agree with the state. */
  ghost predicate Books(s: State) {
    && Conserved(s)
    && OwedDrain(s.log) == s.needDrain
    && Finishes(s.log) == (if s.ended then 1 else 0)
    && (s.hwm > 0 && !s.needDrain ==> Total(s) < s.hwm)
  }

  /** A promised 'drain' or 'finish' always has something left that will deliver it. */
  ghost predicate NoLostWakeup(s: State) {
    && (s.needDrain && !s.ending ==> !Idle(s))
    && (s.ending && !s.ended ==> !Idle(s) || s.ticks > 0)
  }

  function Added(e: Event, kind: Kind): seq<WriteReq> {
    match e
    case Accepted(req, _) => if kind.IsAccepted? then [req] else []
    case Rejected(req) => if kind.IsRejected? then [req] else []
    case Handed(req) => if kind.IsHanded? then [req] else []
    case Acked(req) => if kind.IsAcked? then [req] else []
    case _ => []
  }

  lemma Snoc(log: seq<Event>, e: Event)
    ensures Reqs(log + [e], IsAccepted) == Reqs(log, IsAccepted) + Added(e, IsAccepted)
    ensures Reqs(log + [e], IsRejected) == Reqs(log, IsRejected) + Added(e, IsRejected)
    ensures Reqs(log + [e], IsHanded) == Reqs(log, IsHanded) + Added(e, IsHanded)
    ensures Reqs(log + [e], IsAcked) == Reqs(log, IsAcked) + Added(e, IsAcked)
    ensures Finishes(log + [e]) == Finishes(log) + if e == Finish then 1 else 0
    ensures OwedDrain(log + [e]) == match e
                                    case Accepted(_, ok) => !ok
                                    case Drain => false
                                    case _ => OwedDrain(log)
  {
    assert (log + [e])[..|log + [e]| - 1] == log;
  }

  lemma {:induction false} SizeAppend(a: seq<WriteReq>, b: seq<WriteReq>)
    ensures Size(a + b) == Size(a) + Size(b)
  {
    if a == [] {
      assert a + b == b;
    } else {
      assert (a + b)[1..] == a[1..] + b;
      SizeAppend(a[1..], b);
    }
  }

  lemma TotalIs(s: State)
    ensures Size(Pending(s.inflight)) == if s.inflight.Some? then |s.inflight.value.chunk| else 0
    ensures Size(s.queue) == if s.queue == [] then 0 else |s.queue[0].chunk| + Size(s.queue[1..])
  {
    if s.inflight.Some? {
      assert Pending(s.inflight)[1..] == [];
    }
  }

  lemma SizeSnoc(q: seq<WriteReq>, req: WriteReq)
    ensures Size(q + [req]) == Size(q) + |req.chunk|
  {
    SizeAppend(q, [req]);
    assert [req][1..] == [];
  }

  // ------------------------------------------------- preservation by steps

  /** The effect of accepting one request on the amount outstanding and on the history. */
  lemma AcceptEffect(s: State, req: WriteReq)
    ensures var s' := Accept(s, req);
            && Total(s') == Total(s) + |req.chunk|
            && Reqs(s'.log, IsAccepted) == Reqs(s.log, IsAccepted) + [req]
            && Reqs(s'.log, IsAcked) == Reqs(s.log, IsAcked)
            && Reqs(s'.log, IsHanded) == Reqs(s.log, IsHanded) + (if s.ready && Idle(s) then [req] else [])
            && OwedDrain(s'.log) == s'.needDrain
            && Finishes(s'.log) == Finishes(s.log)
            && !Idle(s')
  {
    hide Reqs, Finishes, OwedDrain, Size;
    var s' := Accept(s, req);
    var taken := Accepted(req, !s'.needDrain);
    Snoc(s.log, taken);
    TotalIs(s);
    TotalIs(s');
    if s.ready && Idle(s) {
      assert s'.log == s.log + [taken] + [Handed(req)];
      Snoc(s.log + [taken], Handed(req));
    } else {
      assert s'.log == s.log + [taken];
      SizeSnoc(s.queue, req);
    }
  }

  lemma AcceptConserves(s: State, req: WriteReq)
    requires Inv(s)
    ensures Conserved(Accept(s, req))
  {
    hide Reqs, Finishes, OwedDrain, Size;
    AcceptEffect(s, req);
    var s' := Accept(s, req);
    var h := Reqs(s.log, IsHanded);
    if s.ready && Idle(s) {
      assert h + [] == h;
      assert h + [req] + [] == h + [req];
      assert Reqs(s'.log, IsHanded) + s'.queue == Reqs(s'.log, IsAccepted);
    } else {
      assert h + (s.queue + [req]) == h + s.queue + [req];
    }
  }

  lemma AcceptInv(s: State, req: WriteReq)
    requires Inv(s)
    ensures Inv(Accept(s, req))
  {
    hide Reqs, Finishes, OwedDrain, Size;
    AcceptEffect(s, req);
    AcceptConserves(s, req);
    var s' := Accept(s, req);
    assert Shape(s');
    assert NoLostWakeup(s');
  }

  lemma PumpInv(s: State)
    requires s.ready
    requires s.ended ==> s.ending
    requires s.ticks > 0 ==> s.ending
    requires Books(s)
    ensures Inv(Pump(s))
    ensures Total(Pump(s)) == Total(s)
  {
    hide Reqs, Finishes, OwedDrain, Size;
    var s' := Pump(s);
    TotalIs(s);
    TotalIs(s');
    if s.queue != [] {
      Snoc(s.log, Handed(s.queue[0]));
    }
    Snoc(s.log, Drain);
    Snoc(s.log, Finish);
  }

  lemma TakeOrRejectInv(s: State, req: WriteReq)
    requires Inv(s)
    ensures Inv(TakeOrReject(s, req))
  {
    hide Reqs, Finishes, OwedDrain, Size;
    if s.ended { Snoc(s.log, Rejected(req)); } else { AcceptInv(s, req); }
  }

  lemma AckInv(s: State)
    requires Inv(s) && s.inflight.Some?
    ensures Inv(Step(s, Ack)) && Total(Step(s, Ack)) <= Total(s)
  {
    hide Reqs, Finishes, OwedDrain, Size;
    var s1 := Emit(s.(inflight := None), Acked(s.inflight.value));
    Snoc(s.log, Acked(s.inflight.value));
    TotalIs(s);
    TotalIs(s1);
    PumpInv(s1);
  }

  lemma TickInv(s: State)
    requires Inv(s) && s.ticks > 0
    ensures Inv(Step(s, Tick))
  {
    hide Reqs, Finishes, OwedDrain, Size;
    Snoc(s.log, Finish);
  }

  lemma StepInv(s: State, i: Input)
    requires Inv(s) && Enabled(s, i)
    ensures Inv(Step(s, i))
    ensures Step(s, i).hwm == s.hwm
  {
    hide Reqs, Finishes, OwedDrain, Size;
    match i
    case Write(req) => TakeOrRejectInv(s, req);
    case End(last) => if last.Some? { TakeOrRejectInv(s, last.value); }
    case Ready => PumpInv(s.(ready := true));
    case Ack => AckInv(s);
    case Tick => TickInv(s);
  }

  /** Every run keeps the invariant: FIFO, conservation, no lost wake-up, one 'finish'. */
  lemma {:induction false} RunInv(s: State, run: seq<Input>)
    requires Inv(s) && Allowed(s, run)
    ensures Inv(Run(s, run))
    ensures Run(s, run).hwm == s.hwm
    decreases |run|
  {
    hide Reqs, Finishes, OwedDrain, Size;
    if run != [] {
      StepInv(s, run[0]);
      RunInv(Step(s, run[0]), run[1..]);
    }
  }

  /** The promises above hold in every state that any run reaches from a new stream. */
  lemma EveryReachableState(hwm: int, run: seq<Input>)
    requires Allowed(Init(hwm), run)
    ensures Inv(Run(Init(hwm), run))
  {
    RunInv(Init(hwm), run);
  }

  // --------------------------------------------------------- graceful finish

  function Chunk(i: Input): Option<WriteReq> {
    match i
    case Write(req) => Some(req)
    case End(last) => last
    case _ => None
  }

  /** end() was called on an idle stream and its 'finish' still sits in the tick queue. */
  predicate Window(s: State) {
    s.ending && !s.ended && Idle(s)
  }

  /** No data is written inside such a window. */
  predicate Clean(s: State, run: seq<Input>)
    decreases |run|
  {
    run == [] ||
    (&& Enabled(s, run[0])
     && !(Window(s) && Chunk(run[0]).Some?)
     && Clean(Step(s, run[0]), run[1..]))
  }

  lemma {:induction false} CleanAllowed(s: State, run: seq<Input>)
    requires Clean(s, run)
    ensures Allowed(s, run)
    decreases |run|
  {
    if run != [] { CleanAllowed(Step(s, run[0]), run[1..]); }
  }

  /**
   What the documentation promises of 'finish': when it is emitted everything
   accepted has been flushed, and afterwards nothing more is accepted or sent.
   */
  ghost predicate GracefulLog(log: seq<Event>) {
    forall i :: 0 <= i < |log| && log[i] == Finish ==>
      && Reqs(log[..i], IsAccepted) == Reqs(log[..i], IsAcked)
      && forall j :: i < j < |log| ==> log[j].Rejected?
  }

  ghost predicate Graceful(s: State) {
    && Inv(s)
    && GracefulLog(s.log)
    && (s.ended ==> Idle(s))
    && (s.ticks > 0 && !s.ended ==> Idle(s))
  }

  lemma NoFinish(log: seq<Event>)
    requires Finishes(log) == 0
    ensures Finish !in log
  {
    if log != [] { NoFinish(log[..|log| - 1]); }
  }

  lemma IdleIsFlushed(s: State)
    requires Conserved(s) && Idle(s)
    ensures Reqs(s.log, IsAccepted) == Reqs(s.log, IsAcked)
  {
  }

  lemma EmitFinishGraceful(s: State)
    requires Conserved(s) && Idle(s) && !s.ended
    requires Finishes(s.log) == 0
    ensures GracefulLog(EmitFinish(s).log)
  {
    hide Reqs, Finishes, OwedDrain, Size;
    NoFinish(s.log);
    var log' := s.log + [Finish];
    forall i | 0 <= i < |log'| && log'[i] == Finish
      ensures i == |s.log| && log'[..i] == s.log
    {
    }
  }

  lemma OpenLogGraceful(s: State)
    requires Inv(s) && !s.ended
    ensures GracefulLog(s.log)
  {
    NoFinish(s.log);
  }

  lemma RejectGraceful(log: seq<Event>, req: WriteReq)
    requires GracefulLog(log)
    ensures GracefulLog(log + [Rejected(req)])
  {
    var log' := log + [Rejected(req)];
    forall i | 0 <= i < |log'| && log'[i] == Finish
      ensures log'[..i] == log[..i]
    {
    }
  }

  lemma StepGraceful(s: State, i: Input)
    requires Graceful(s) && Enabled(s, i)
    requires !(Window(s) && Chunk(i).Some?)
    ensures Graceful(Step(s, i))
  {
    hide Reqs, Finishes, OwedDrain, Size;
    StepInv(s, i);
    var s' := Step(s, i);
    if s.ended {
      if Chunk(i).Some? { RejectGraceful(s.log, Chunk(i).value); }
    } else if !s'.ended {
      OpenLogGraceful(s');
    } else {
      match i
      case Ready => EmitFinishGraceful(s.(ready := true));
      case Ack =>
        Snoc(s.log, Acked(s.inflight.value));
        EmitFinishGraceful(Emit(s.(inflight := None), Acked(s.inflight.value)));
      case Tick => EmitFinishGraceful(s.(ticks := s.ticks - 1));
      case _ =>
    }
  }

  /** Over every run without a write in the window, 'finish' keeps its promise. */
  lemma {:induction false} RunGraceful(s: State, run: seq<Input>)
    requires Graceful(s) && Clean(s, run)
    ensures Allowed(s, run) && Graceful(Run(s, run))
    decreases |run|
  {
    hide Reqs, Finishes, OwedDrain, Size;
    CleanAllowed(s, run);
    if run != [] {
      StepGraceful(s, run[0]);
      RunGraceful(Step(s, run[0]), run[1..]);
    }
  }

  lemma NewIsGraceful(hwm: int)
    ensures Graceful(Init(hwm))
  {
  }

  lemma EveryCleanRun(hwm: int, run: seq<Input>)
    requires Clean(Init(hwm), run)
    ensures Allowed(Init(hwm), run) && Graceful(Run(Init(hwm), run))
  {
    RunGraceful(Init(hwm), run);
  }

  /** end() on a new stream opens the window. */
  lemma WindowIsReachable(hwm: int)
    ensures Graceful(Step(Init(hwm), End(None))) && Window(Step(Init(hwm), End(None)))
  {
    NewIsGraceful(hwm);
    StepGraceful(Init(hwm), End(None));
  }

  /** A write in the window, followed by the waiting tick: 'finish' overtakes the data. */
  lemma LateWriteBreaks(s: State, i: Input)
    requires Graceful(s) && Window(s) && Enabled(s, i) && Chunk(i).Some?
    ensures var s' := Step(s, i);
            Clean(s', [Tick]) && Allowed(s', [Tick]) && !GracefulLog(Run(s', [Tick]).log)
  {
    hide Reqs, Finishes, OwedDrain, Size;
    var s' := Step(s, i);
    AcceptEffect(s, Chunk(i).value);
    IdleIsFlushed(s);
    assert [Tick][1..] == [];
    var end := Run(s', [Tick]);
    assert end == Step(s', Tick);
    var k := |s'.log|;
    assert end.log[k] == Finish && end.log[..k] == s'.log;
    assert |Reqs(s'.log, IsAccepted)| == |Reqs(s'.log, IsAcked)| + 1;
  }

  /**
   The promise fails exactly in the window: a write (or end with data) that the
   stream accepts is safe under every later schedule if and only if it is not
   made between end() on an idle stream and the tick that end() queued.
   */
  lemma LateWriteHazard(s: State, i: Input)
    requires Graceful(s) && !s.ended && Enabled(s, i) && Chunk(i).Some?
    ensures (forall run | Allowed(Step(s, i), run) && Clean(Step(s, i), run) ::
               GracefulLog(Run(Step(s, i), run).log))
       <==> !Window(s)
  {
    hide Inv, GracefulLog, Accept;
    if Window(s) {
      LateWriteBreaks(s, i);
    } else {
      StepGraceful(s, i);
      forall run | Allowed(Step(s, i), run) && Clean(Step(s, i), run)
        ensures GracefulLog(Run(Step(s, i), run).log)
      {
        RunGraceful(Step(s, i), run);
      }
    }
  }

  // ---------------------------------------------------------------- progress

  function Acks(n: nat): seq<Input> {
    if n == 0 then [] else [Ack] + Acks(n - 1)
  }

  /** The history written while the queue `q` behind `first` is acknowledged one by one. */
  function Flushed(first: WriteReq, q: seq<WriteReq>): seq<Event>
    decreases |q|
  {
    if q == [] then [Acked(first)] else [Acked(first), Handed(q[0])] + Flushed(q[0], q[1..])
  }

  /** What the emptied stream owes its listeners. */
  function Farewell(s: State): seq<Event> {
    if s.ending then (if s.ended then [] else [Finish])
    else if s.needDrain then [Drain] else []
  }

  lemma FlushedUnfolds(first: WriteReq, q: seq<WriteReq>)
    ensures q == [] ==> Flushed(first, q) == [Acked(first)]
    ensures q != [] ==> Flushed(first, q) == [Acked(first), Handed(q[0])] + Flushed(q[0], q[1..])
  {
  }

  /** One acknowledgement: the next request goes out, or the stream is empty and says its farewell. */
  lemma AckStep(s: State)
    requires s.inflight.Some?
    ensures var s' := Step(s, Ack);
            var q := s.queue;
            if q == [] then
              s' == s.(inflight := None,
                       needDrain := s.needDrain && s.ending,
                       ended := s.ended || s.ending,
                       log := s.log + [Acked(s.inflight.value)] + Farewell(s))
            else
              && s' == s.(inflight := Some(q[0]),
                          queue := q[1..],
                          log := s.log + [Acked(s.inflight.value), Handed(q[0])])
              && Farewell(s') == Farewell(s)
  {
    hide Reqs;
    var log := s.log + [Acked(s.inflight.value)];
    assert log + [] == log;
    if s.queue != [] {
      assert log + [Handed(s.queue[0])] == s.log + [Acked(s.inflight.value), Handed(s.queue[0])];
    }
  }

  /**
   From a writing state, as many acknowledgements as there are requests empty
   the stream in order and deliver the owed 'drain' or 'finish' exactly once.
   */
  lemma {:induction false} AcksFlush(s: State)
    requires Inv(s) && s.inflight.Some?
    ensures var run := Acks(|s.queue| + 1);
            && Allowed(s, run)
            && Run(s, run) == s.(inflight := None,
                                 queue := [],
                                 needDrain := s.needDrain && s.ending,
                                 ended := s.ended || s.ending,
                                 log := s.log + Flushed(s.inflight.value, s.queue) + Farewell(s))
    decreases |s.queue|
  {
    hide Inv, Step, Flushed, Farewell;
    var run, q := Acks(|s.queue| + 1), s.queue;
    assert run[0] == Ack && run[1..] == Acks(|q|);
    StepInv(s, Ack);
    AckStep(s);
    FlushedUnfolds(s.inflight.value, q);
    var s' := Step(s, Ack);
    if q == [] {
      assert Run(s', []) == s';
    } else {
      var acked := [Acked(s.inflight.value), Handed(q[0])];
      AcksFlush(s');
      assert s.log + acked + Flushed(q[0], q[1..]) == s.log + Flushed(s.inflight.value, q);
    }
  }

  // ----------------------------------------------------------- back-pressure

  /** A producer that writes only while no 'drain' is owed, in chunks of at most `max` bytes. */
  predicate Polite(s: State, run: seq<Input>, max: nat)
    decreases |run|
  {
    run == [] ||
    (&& Enabled(s, run[0])
     && (Chunk(run[0]).Some? ==> !OwedDrain(s.log) && |Chunk(run[0]).value.chunk| <= max)
     && Polite(Step(s, run[0]), run[1..], max))
  }

  lemma StepTotal(s: State, i: Input)
    requires Inv(s) && Enabled(s, i)
    ensures Total(Step(s, i)) <= Total(s) + if Chunk(i).Some? then |Chunk(i).value.chunk| else 0
  {
    hide Reqs, Finishes, OwedDrain, Size;
    if Chunk(i).Some? { AcceptEffect(s, Chunk(i).value); }
    if i.Ready? { PumpInv(s.(ready := true)); }
    if i.Ack? { AckInv(s); }
  }

  /** Such a producer never has hwm + max bytes or more outstanding, at any point of any run. */
  lemma {:induction false} BackPressure(s: State, run: seq<Input>, max: nat)
    requires Inv(s) && s.hwm > 0 && Total(s) < s.hwm + max && Polite(s, run, max)
    ensures Allowed(s, run) && Total(Run(s, run)) < s.hwm + max
    decreases |run|
  {
    hide Reqs, Finishes, OwedDrain, Size;
    if run != [] {
      StepInv(s, run[0]);
      StepTotal(s, run[0]);
      BackPressure(Step(s, run[0]), run[1..], max);
    }
  }
}
