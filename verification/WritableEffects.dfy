/**
 What each call and callback of a writable stream does, read off the inputs: which
 data the stream takes, what it sends, and which events it emits.
 */
module WritableEffects {
  import opened Prelude
  import opened WritableSpec

  // ------------------------------------------------------------- single steps

  /** The data that an input offers to the stream. */
  function Given(i: Input): seq<WriteReq> {
    match i
    case Write(req) => [req]
    case End(last) => if last.Some? then [last.value] else []
    case _ => []
  }

  function Drains(log: seq<Event>): nat {
    if log == [] then 0
    else Drains(log[..|log| - 1]) + if log[|log| - 1] == Drain then 1 else 0
  }

  /** 'finish' is emitted by the queued tick, or when end() was called and the last request is done. */
  predicate FinishDue(s: State, i: Input) {
    s.ending && !s.ended && (i.Tick? || (i.Ack? && s.queue == []) || (i.Ready? && Idle(s)))
  }

  /** 'drain' is emitted when the last request of a stream that owes it is done. */
  predicate DrainDue(s: State, i: Input) {
    s.needDrain && !s.ending && i.Ack? && s.queue == []
  }

  /** What goes to the underlying stream: a chunk that finds it idle, or the oldest one waiting. */
  function Sent(s: State, i: Input): seq<WriteReq> {
    match i
    case Write(_) => if s.ready && Idle(s) && !s.ended then Given(i) else []
    case End(_) => if s.ready && Idle(s) && !s.ended then Given(i) else []
    case Ready => if s.inflight.None? && s.queue != [] then [s.queue[0]] else []
    case Ack => if s.queue != [] then [s.queue[0]] else []
    case Tick => []
  }

  lemma SnocDrains(log: seq<Event>, e: Event)
    ensures Drains(log + [e]) == Drains(log) + if e == Drain then 1 else 0
  {
    assert (log + [e])[..|log + [e]| - 1] == log;
  }

  /** `write` and `end` keep their data, in order, until 'finish', and refuse it from then on. */
  lemma StepTakes(s: State, i: Input)
    requires Enabled(s, i)
    ensures Reqs(Step(s, i).log, IsAccepted) == Reqs(s.log, IsAccepted) + if s.ended then [] else Given(i)
    ensures Reqs(Step(s, i).log, IsRejected) == Reqs(s.log, IsRejected) + if s.ended then Given(i) else []
  {
    hide Reqs, OwedDrain, Finishes, Size;
    if Chunk(i).Some? {
      var req := Chunk(i).value;
      if s.ended {
        Snoc(s.log, Rejected(req));
      } else {
        var taken := Accepted(req, !Accept(s, req).needDrain);
        Snoc(s.log, taken);
        Snoc(s.log + [taken], Handed(req));
      }
    } else if i.Ack? {
      var log := s.log + [Acked(s.inflight.value)];
      Snoc(s.log, Acked(s.inflight.value));
      LastEvent(s, i, log);
    } else {
      LastEvent(s, i, s.log);
    }
  }

  /** A callback, or an end() without data, notes at most one event beside the acknowledgement. */
  lemma LastEvent(s: State, i: Input, log: seq<Event>)
    requires Enabled(s, i) && Chunk(i).None?
    requires log == if i.Ack? then s.log + [Acked(s.inflight.value)] else s.log
    ensures Reqs(Step(s, i).log, IsAccepted) == Reqs(log, IsAccepted)
    ensures Reqs(Step(s, i).log, IsRejected) == Reqs(log, IsRejected)
    ensures Reqs(Step(s, i).log, IsHanded) == Reqs(log, IsHanded) + Sent(s, i)
    ensures Reqs(Step(s, i).log, IsAcked) == Reqs(log, IsAcked)
  {
    hide Reqs, OwedDrain, Finishes, Size;
    Snoc(log, Finish);
    Snoc(log, Drain);
    if s.queue != [] { Snoc(log, Handed(s.queue[0])); }
  }

  /** Requests go out one at a time, the oldest first; an acknowledgement is for the one in flight. */
  lemma StepSends(s: State, i: Input)
    requires Inv(s) && Enabled(s, i)
    ensures Reqs(Step(s, i).log, IsHanded) == Reqs(s.log, IsHanded) + Sent(s, i)
    ensures Reqs(Step(s, i).log, IsAcked) == Reqs(s.log, IsAcked) + if i.Ack? then [s.inflight.value] else []
  {
    hide Reqs, OwedDrain, Finishes, Size;
    if Chunk(i).Some? {
      var req := Chunk(i).value;
      Snoc(s.log, Rejected(req));
      if !s.ended { AcceptEffect(s, req); }
    } else if i.Ack? {
      Snoc(s.log, Acked(s.inflight.value));
      LastEvent(s, i, s.log + [Acked(s.inflight.value)]);
    } else {
      LastEvent(s, i, s.log);
    }
  }

  /** When the two events are emitted, and what marks the stream carries. */
  lemma StepSignals(s: State, i: Input)
    requires Inv(s) && Enabled(s, i)
    ensures var s' := Step(s, i);
            && Finishes(s'.log) == Finishes(s.log) + (if FinishDue(s, i) then 1 else 0)
            && Drains(s'.log) == Drains(s.log) + (if DrainDue(s, i) then 1 else 0)
            && (s'.ended <==> s.ended || FinishDue(s, i))
            && (s'.ending <==> s.ending || i.End?)
            && (s'.ready <==> s.ready || i.Ready?)
            && s'.ticks == s.ticks + (if i == End(None) && !s.ending && Idle(s) then 1 else 0)
                                   - (if i.Tick? then 1 else 0)
  {
    hide Reqs, OwedDrain, Finishes, Drains, Size;
    var log := s.log;
    if Chunk(i).Some? {
      var req := Chunk(i).value;
      Noted(log, Rejected(req));
      var taken := Accepted(req, !Accept(s, req).needDrain);
      Noted(log, taken);
      Noted(log + [taken], Handed(req));
    } else {
      if i.Ack? {
        Noted(log, Acked(s.inflight.value));
        log := log + [Acked(s.inflight.value)];
      }
      Noted(log, Finish);
      Noted(log, Drain);
      if s.queue != [] { Noted(log, Handed(s.queue[0])); }
    }
  }

  lemma Noted(log: seq<Event>, e: Event)
    ensures Finishes(log + [e]) == Finishes(log) + if e == Finish then 1 else 0
    ensures Drains(log + [e]) == Drains(log) + if e == Drain then 1 else 0
  {
    Snoc(log, e);
    SnocDrains(log, e);
  }

  /**
   A 'drain' is owed after an input exactly if it was owed before and is not emitted now,
   or if the input's data was taken and fills what is outstanding to the high-water mark.
   */
  lemma StepOwes(s: State, i: Input)
    requires Inv(s) && Enabled(s, i)
    ensures OwedDrain(Step(s, i).log)
       <==> || (OwedDrain(s.log) && !DrainDue(s, i))
            || (!s.ended && Chunk(i).Some? && Total(s) + |Chunk(i).value.chunk| >= s.hwm)
  {
    hide Reqs, OwedDrain, Finishes, Size;
    StepInv(s, i);
  }

  // --------------------------------------------------------------- whole runs

  /** All the data that a run offers, in order. */
  function Offered(run: seq<Input>): seq<WriteReq> {
    if run == [] then [] else Given(run[0]) + Offered(run[1..])
  }

  /** How many inputs of the run come before 'finish' is emitted: all, if it is not. */
  function Before(s: State, run: seq<Input>): (k: nat)
    requires Allowed(s, run)
    ensures k <= |run|
    decreases |run|
  {
    if run == [] || s.ended then 0 else 1 + Before(Step(s, run[0]), run[1..])
  }

  lemma OfferedNext(run: seq<Input>, k: nat)
    requires run != [] && 0 < k <= |run|
    ensures Offered(run[..k]) == Given(run[0]) + Offered(run[1..][..k - 1])
    ensures Offered(run[k..]) == Offered(run[1..][k - 1..])
  {
    assert run[..k][1..] == run[1..][..k - 1];
    assert run[k..] == run[1..][k - 1..];
  }

  /** Every run takes exactly the data offered before 'finish' and refuses what is offered after it. */
  lemma {:induction false} RunTakes(s: State, run: seq<Input>)
    requires Allowed(s, run)
    ensures var k, log := Before(s, run), Run(s, run).log;
            && Reqs(log, IsAccepted) == Reqs(s.log, IsAccepted) + Offered(run[..k])
            && Reqs(log, IsRejected) == Reqs(s.log, IsRejected) + Offered(run[k..])
            && (!Run(s, run).ended ==> k == |run|)
    decreases |run|
  {
    hide Step, Enabled, Reqs;
    var k := Before(s, run);
    if run == [] {
      assert Offered([]) == [];
    } else {
      var s' := Step(s, run[0]);
      StepTakes(s, run[0]);
      RunTakes(s', run[1..]);
      EndedKeeps(s, run[0]);
      if s.ended {
        assert Before(s', run[1..]) == 0;
        assert run[0..] == run && run[1..][0..] == run[1..];
        assert Offered(run[..0]) == [] && Offered(run[1..][..0]) == [];
      } else {
        OfferedNext(run, k);
      }
    }
  }

  lemma EndedKeeps(s: State, i: Input)
    requires Enabled(s, i)
    ensures s.ended ==> Step(s, i).ended
  {
  }

  /**
   A new stream, any run: what is taken and then what is refused is all that was offered;
   nothing is refused before 'finish'; and what the underlying stream gets, and what it
   acknowledges, are initial parts of it, in order.
   */
  lemma EveryOffer(hwm: int, run: seq<Input>)
    requires Allowed(Init(hwm), run)
    ensures var s := Run(Init(hwm), run);
            && Reqs(s.log, IsAccepted) + Reqs(s.log, IsRejected) == Offered(run)
            && (!s.ended ==> Reqs(s.log, IsRejected) == [])
            && Reqs(s.log, IsAcked) <= Reqs(s.log, IsHanded) <= Offered(run)
  {
    hide Step, Run, Allowed, Offered, Before, Finishes, OwedDrain, Size;
    RunTakes(Init(hwm), run);
    EveryReachableState(hwm, run);
    var log, q, k := Run(Init(hwm), run).log, Run(Init(hwm), run).queue, Before(Init(hwm), run);
    OfferedSplit(run, k);
    hide Reqs;
    assert Reqs(log, IsHanded) + q == Reqs(log, IsAccepted) == Offered(run[..k]);
    assert Reqs(log, IsRejected) == Offered(run[k..]);
    assert k == |run| ==> run[k..] == [];
    NothingOffered();
  }

  lemma NothingOffered()
    ensures Offered([]) == []
  {
  }

  lemma {:induction false} OfferedSplit(run: seq<Input>, k: nat)
    requires k <= |run|
    ensures Offered(run) == Offered(run[..k]) + Offered(run[k..])
    decreases k
  {
    hide Given;
    if k == 0 {
      assert run[0..] == run && run[..0] == [];
      NothingOffered();
    } else {
      OfferedNext(run, k);
      OfferedSplit(run[1..], k - 1);
      assert Offered(run) == Given(run[0]) + Offered(run[1..]);
    }
  }

  /** Without a write in the window, all data offered before 'finish' has been acknowledged once it is emitted. */
  lemma FinishMeansDelivered(hwm: int, run: seq<Input>)
    requires Clean(Init(hwm), run)
    ensures Allowed(Init(hwm), run)
    ensures var s := Run(Init(hwm), run);
            s.ended ==> Reqs(s.log, IsAcked) == Offered(run[..Before(Init(hwm), run)])
  {
    hide Step;
    EveryCleanRun(hwm, run);
    RunTakes(Init(hwm), run);
    var s := Run(Init(hwm), run);
    if s.ended { IdleIsFlushed(s); }
  }
}
