/** What the life cycle of a socket guarantees over whole runs, and where it fails. */
module NetTheorems {
  import opened Prelude
  import W = WritableSpec
  import R = ReadableSpec
  import opened NetSpec

  // ---------------------------------------------------------- graceful close

  function Chunk(i: Input): Option<W.WriteReq> {
    match i
    case Write(req) => Some(req)
    case End(last) => last
    case _ => None
  }

  /** No data is written between end() on an idle socket and its 'finish'. */
  predicate Clean(s: Socket, run: seq<Input>)
    decreases |run|
  {
    run == [] ||
    (&& Enabled(s, run[0])
     && !(W.Window(s.w) && Chunk(run[0]).Some?)
     && Clean(Step(s, run[0]), run[1..]))
  }

  lemma EndSocketGraceful(s: Socket, last: Option<W.WriteReq>)
    requires W.Graceful(s.w) && !(W.Window(s.w) && last.Some?)
    ensures W.Graceful(EndSocket(s, last).w)
  {
    hide W.Books, W.GracefulLog, R.Books;
    W.StepGraceful(s.w, W.Input.End(last));
  }

  lemma DestroyGraceful(s: Socket)
    requires Inv(s) && W.Graceful(s.w)
    ensures W.Graceful(DestroySocket(s).w) && W.Graceful(DestroySocketSoon(s).w)
    ensures W.Graceful(MaybeDestroy(s).w) && W.Graceful(OnEnd(s).w)
    ensures s.w.ended ==> W.Graceful(OnFinish(s).w)
  {
    hide W.Books, W.GracefulLog, R.Books;
    EndSocketGraceful(s, None);
    MaybeDestroyInv(s);
    EndSocketGraceful(MaybeDestroy(s), None);
  }

  lemma WithWGraceful(s: Socket, w': W.State)
    requires Inv(s) && W.Graceful(w') && w'.ending == s.w.ending
    requires w'.ready ==> s.connected
    ensures W.Graceful(WithW(s, w').w)
  {
    hide W.Books, W.GracefulLog, R.Books;
    if w'.ended && !s.w.ended { DestroyGraceful(s.(w := w')); }
  }

  lemma WithRGraceful(s: Socket, op: R.Op)
    requires Inv(s) && W.Graceful(s.w) && Inv(s.(r := R.Exec(s.r, op)))
    ensures W.Graceful(WithR(s, op).w)
  {
    hide W.Books, W.GracefulLog, R.Books;
    DestroyGraceful(s.(r := R.Exec(s.r, op)));
  }

  lemma WStepGraceful(s: Socket, i: W.Input)
    requires Inv(s) && W.Graceful(s.w) && W.Enabled(s.w, i)
    requires !i.End? && !i.Ready? && !(W.Window(s.w) && W.Chunk(i).Some?)
    ensures W.Graceful(WithW(s, W.Step(s.w, i)).w)
  {
    hide W.Books, W.GracefulLog, R.Books;
    W.StepGraceful(s.w, i);
    WithWGraceful(s, W.Step(s.w, i));
  }

  lemma RStepGraceful(s: Socket, op: R.Op)
    requires Inv(s) && W.Graceful(s.w) && !op.PushEof?
    requires op.Push? ==> op.onData == [] && s.connected
    requires op.Resume? ==> op.onData == []
    ensures W.Graceful(WithR(s, op).w)
  {
    hide W.Books, W.GracefulLog, R.Books;
    R.ExecInv(s.r, op);
    EndedByEofOnly(s.r, op);
    WithRGraceful(s, op);
  }

  lemma ConnectGraceful(s: Socket)
    requires Inv(s) && W.Graceful(s.w) && s.connecting
    ensures W.Graceful(Step(s, ConnectOk).w) && W.Graceful(Step(s, ConnectFail).w)
  {
    hide W.Books, W.GracefulLog, R.Books;
    if !s.destroyed {
      W.StepGraceful(s.w, W.Ready);
      WithWGraceful(s.(connecting := false, connected := true), W.Step(s.w, W.Ready));
      DestroyGraceful(s.(connecting := false));
    }
  }

  lemma StepGraceful(s: Socket, i: Input)
    requires Inv(s) && W.Graceful(s.w) && Enabled(s, i)
    requires !(W.Window(s.w) && Chunk(i).Some?)
    ensures W.Graceful(Step(s, i).w)
  {
    hide W.Inv, W.Step, W.Graceful, R.Quiescent, R.Exec, DestroySocket, WithW, WithR, EndSocket;
    match i
    case Write(req) => W.StepGraceful(s.w, W.Input.Write(req));
    case End(last) => EndSocketGraceful(s, last);
    case Destroy => DestroyGraceful(s);
    case DestroySoon => DestroyGraceful(s);
    case Connect =>
    case ReadError =>
    case ConnectOk => ConnectGraceful(s);
    case ConnectFail => ConnectGraceful(s);
    case Ack => WStepGraceful(s, W.Ack);
    case Tick => WStepGraceful(s, W.Tick);
    case ShutdownDone => DestroyGraceful(s.(shutdowns := s.shutdowns - 1));
    case Eof => EofGraceful(s);
    case Data(chunk) => RStepGraceful(s, R.Push(chunk, []));
    case Pause => RStepGraceful(s, R.Pause);
    case Resume => RStepGraceful(s, R.Resume([]));
    case Read(n) => RStepGraceful(s, R.Read(n));
  }

  lemma EofGraceful(s: Socket)
    requires Inv(s) && W.Graceful(s.w) && Enabled(s, Eof)
    ensures W.Graceful(Step(s, Eof).w)
  {
    hide W.Books, W.GracefulLog, R.Books;
    R.ExecInv(s.r, R.PushEof);
    WithRInv(s, R.PushEof);
    WithRGraceful(s, R.PushEof);
    var s1 := WithR(s, R.PushEof);
    if R.Length(s1.r) == 0 { DestroyGraceful(s1.(readable := false)); }
  }

  /** The handle was closed at most once, and with nothing accepted still unacknowledged. */
  ghost predicate ClosedGracefully(s: Socket) {
    && s.closes <= 1
    && (s.closes == 1 ==>
          W.Idle(s.w) && W.Reqs(s.w.log, W.IsAccepted) == W.Reqs(s.w.log, W.IsAcked))
  }

  /** Graceful close, in every state of every run without a write in the window. */
  lemma {:induction false} GracefulClose(s: Socket, run: seq<Input>)
    requires Inv(s) && W.Graceful(s.w) && Clean(s, run)
    ensures Allowed(s, run)
    ensures Inv(Run(s, run)) && W.Graceful(Run(s, run).w) && ClosedGracefully(Run(s, run))
    decreases |run|
  {
    if run == [] {
      if s.closes == 1 { W.IdleIsFlushed(s.w); }
    } else {
      StepInv(s, run[0]);
      StepGraceful(s, run[0]);
      GracefulClose(Step(s, run[0]), run[1..]);
    }
  }

  /** The caller gives no data to a socket it has ended or destroyed. */
  predicate NoWriteAfterEnd(s: Socket, run: seq<Input>)
    decreases |run|
  {
    run == [] ||
    (&& Enabled(s, run[0])
     && (Chunk(run[0]).Some? ==> s.writable)
     && NoWriteAfterEnd(Step(s, run[0]), run[1..]))
  }

  /** That discipline is enough. */
  lemma {:induction false} DisciplineIsClean(s: Socket, run: seq<Input>)
    requires Inv(s) && NoWriteAfterEnd(s, run)
    ensures Clean(s, run)
    decreases |run|
  {
    hide Step, W.Inv, R.Quiescent;
    if run != [] {
      StepInv(s, run[0]);
      DisciplineIsClean(Step(s, run[0]), run[1..]);
    }
  }

  // ------------------------------------------------------ destroy() completes

  function Acks(n: nat): seq<Input> {
    if n == 0 then [] else [Ack] + Acks(n - 1)
  }

  /** What still has to happen for a ready, ending writable half to finish. */
  function Remaining(w: W.State): seq<Input> {
    if w.inflight.Some? then Acks(|w.queue| + 1) else [Tick]
  }

  /**
   After destroy() on a connected socket the handle is closed once the pending
   writes are acknowledged, or at the next tick when there are none.
   */
  lemma DestroyCompletes(s: Socket)
    requires Inv(s) && s.w.ready && !s.destroyed
    ensures var s1 := Step(s, Destroy);
            s1.destroyed || (Allowed(s1, Remaining(s1.w)) && Run(s1, Remaining(s1.w)).destroyed)
  {
    hide W.Books, R.Books;
    DestroyInv(s);
    var s1 := Step(s, Destroy);
    if !s1.destroyed { EndingCompletes(s1); }
  }

  lemma FinishDestroys(s: Socket, i: W.Input)
    requires Inv(s) && W.Enabled(s.w, i) && (i.Ack? || i.Tick?)
    requires s.destroyers > 0 && !s.w.ended && W.Step(s.w, i).ended
    ensures WithW(s, W.Step(s.w, i)).destroyed
  {
    hide W.Books, R.Books;
    W.StepInv(s.w, i);
    WithWInv(s, W.Step(s.w, i));
  }

  lemma RunOne(s: Socket, i: Input)
    requires Enabled(s, i)
    ensures Allowed(s, [i]) && Run(s, [i]) == Step(s, i)
  {
    assert [i][1..] == [];
  }

  lemma AckPasses(s: Socket)
    requires s.w.inflight.Some? && s.w.queue != []
    ensures var w := s.w;
            Step(s, Ack) == s.(w := w.(inflight := Some(w.queue[0]), queue := w.queue[1..],
                                       log := w.log + [W.Acked(w.inflight.value)] + [W.Handed(w.queue[0])]))
  {
  }

  lemma LastStepDestroys(s: Socket)
    requires Inv(s) && s.w.ready && s.w.ending && !s.w.ended && s.destroyers > 0 && s.w.queue == []
    ensures s.w.inflight.None? ==> Enabled(s, Tick) && Step(s, Tick).destroyed
    ensures s.w.inflight.Some? ==> Step(s, Ack).destroyed
  {
    hide W.Books, R.Quiescent;
    if s.w.inflight.None? {
      FinishDestroys(s, W.Tick);
    } else {
      FinishDestroys(s, W.Ack);
    }
  }

  lemma {:induction false} EndingCompletes(s: Socket)
    requires Inv(s) && s.w.ready && s.w.ending && !s.w.ended && s.destroyers > 0
    ensures Allowed(s, Remaining(s.w)) && Run(s, Remaining(s.w)).destroyed
    decreases |s.w.queue|
  {
    hide W.Step, W.Books, Step, R.Quiescent;
    if s.w.inflight.None? {
      LastStepDestroys(s);
      RunOne(s, Tick);
    } else if s.w.queue == [] {
      LastStepDestroys(s);
      RunOne(s, Ack);
      assert Acks(1) == [Ack];
    } else {
      var run := Remaining(s.w);
      assert run[0] == Ack && run[1..] == Acks(|s.w.queue|);
      StepInv(s, Ack);
      AckPasses(s);
      EndingCompletes(Step(s, Ack));
      assert Remaining(Step(s, Ack).w) == run[1..];
    }
  }

  // ------------------------------------------- two ways to leave a socket open

  /** destroy() is not called. */
  predicate NoDestroy(run: seq<Input>) {
    forall k :: 0 <= k < |run| ==> !run[k].Destroy?
  }

  /** Both directions are over, and no callback is left that would destroy the socket. */
  predicate Stuck(s: Socket) {
    && s.w.ended && s.r.ended && s.shutdowns == 0
    && s.readable && !s.destroyed && !s.connecting
  }

  lemma StuckStep(s: Socket, i: Input)
    requires Inv(s) && Stuck(s) && Enabled(s, i) && !i.Destroy?
    ensures Stuck(Step(s, i))
  {
    hide W.Books, W.GracefulLog, R.Books;
    if i.Resume? { R.ExecInv(s.r, R.Resume([])); }
  }

  lemma {:induction false} StuckForever(s: Socket, run: seq<Input>)
    requires Inv(s) && Stuck(s) && Allowed(s, run) && NoDestroy(run)
    ensures Stuck(Run(s, run))
    decreases |run|
  {
    if run != [] {
      StepInv(s, run[0]);
      StuckStep(s, run[0]);
      StuckForever(Step(s, run[0]), run[1..]);
    }
  }

  /** Some run without destroy() destroys the socket. */
  ghost predicate Recovers(s: Socket) {
    exists run :: Allowed(s, run) && NoDestroy(run) && Run(s, run).destroyed
  }

  lemma RecoversNow(s: Socket)
    requires s.destroyed
    ensures Recovers(s)
  {
    assert Allowed(s, []) && NoDestroy([]) && Run(s, []) == s;
  }

  lemma RecoversNext(s: Socket, i: Input)
    requires Enabled(s, i) && !i.Destroy? && Step(s, i).destroyed
    ensures Recovers(s)
  {
    RunOne(s, i);
    assert NoDestroy([i]);
  }

  lemma EofDestroys(s: Socket)
    requires Inv(s) && s.w.ended && Enabled(s, Eof) && R.Length(s.r) == 0
    ensures Step(s, Eof).destroyed
  {
    WithRInv(s, R.PushEof);
    DestroyInv(WithR(s, R.PushEof).(readable := false));
  }

  /**
   A socket that has finished writing and then learns of the peer's EOF is never
   destroyed without an explicit destroy() if and only if the EOF finds bytes
   still buffered and no shutdown callback outstanding.
   */
  lemma EofLeak(s: Socket)
    requires Inv(s) && s.w.ended && Enabled(s, Eof)
    ensures !Recovers(Step(s, Eof)) <==> R.Length(s.r) > 0 && s.shutdowns == 0
  {
    hide W.Books, W.GracefulLog, R.Books;
    StepInv(s, Eof);
    var s' := Step(s, Eof);
    if R.Length(s.r) == 0 {
      EofDestroys(s);
      RecoversNow(s');
    } else if s.shutdowns > 0 {
      DestroyInv(s'.(shutdowns := s'.shutdowns - 1));
      RecoversNext(s', ShutdownDone);
    } else {
      assert Stuck(s');
      forall run | Allowed(s', run) && NoDestroy(run)
        ensures !Run(s', run).destroyed
      {
        StuckForever(s', run);
      }
    }
  }

  /** Finished, shut down, and nobody is reading. */
  predicate HalfClosed(s: Socket) {
    && s.w.ended && s.shutdowns == 0 && s.connected && !s.connecting
    && s.readable && !s.r.ended && !s.r.flowing && !s.destroyed
  }

  /** Data that nobody reads, followed by EOF, leaves a half-closed socket stuck. */
  lemma UnreadDataLeaks(s: Socket, chunk: seq<byte>)
    requires HalfClosed(s) && chunk != []
    ensures Allowed(s, [Data(chunk), Eof]) && Stuck(Run(s, [Data(chunk), Eof]))
  {
    hide W.Books, W.GracefulLog, R.Books;
    FlattenSnoc(s.r.buffer, chunk);
    var s1 := Step(s, Data(chunk));
    assert s1.r.buffer == s.r.buffer + [chunk];
    RunOne(s1, Eof);
    RunCons(s, Data(chunk), [Eof]);
    assert [Data(chunk)] + [Eof] == [Data(chunk), Eof];
  }

  lemma EndThenTick(allowHalfOpen: bool)
    ensures var s1 := Step(Incoming(allowHalfOpen), End(None));
            Enabled(s1, Tick) && HalfClosed(Step(s1, Tick).(shutdowns := 0)) && Step(s1, Tick).shutdowns == 1
  {
    var s1 := Step(Incoming(allowHalfOpen), End(None));
    assert s1.w.ticks == 1 && s1.w.ending && !s1.w.ended;
    var w2 := W.Step(s1.w, W.Tick);
    assert w2.ended;
    assert Step(s1, Tick) == s1.(w := w2, shutdowns := 1);
  }

  /** An accepted socket becomes half-closed by end(), its tick and the shutdown callback. */
  lemma HalfCloseIsReachable(allowHalfOpen: bool)
    ensures var run := [End(None), Tick, ShutdownDone];
            Allowed(Incoming(allowHalfOpen), run) && HalfClosed(Run(Incoming(allowHalfOpen), run))
  {
    EndThenTick(allowHalfOpen);
    hide W.Step, Incoming, WithW;
    var s0 := Incoming(allowHalfOpen);
    var s1 := Step(s0, End(None));
    var s2 := Step(s1, Tick);
    RunOne(s2, ShutdownDone);
    RunCons(s1, Tick, [ShutdownDone]);
    RunCons(s0, End(None), [Tick, ShutdownDone]);
    assert [End(None)] + [Tick, ShutdownDone] == [End(None), Tick, ShutdownDone];
    assert [Tick] + [ShutdownDone] == [Tick, ShutdownDone];
  }

  lemma RunCons(s: Socket, i: Input, rest: seq<Input>)
    requires Enabled(s, i) && Allowed(Step(s, i), rest)
    ensures Allowed(s, [i] + rest) && Run(s, [i] + rest) == Run(Step(s, i), rest)
  {
    assert ([i] + rest)[1..] == rest;
  }

  /** Once both directions are over and no shutdown is pending, the socket is destroyed. */
  ghost predicate Settled(s: Socket) {
    s.w.ended && s.r.ended && s.shutdowns == 0 ==> s.destroyed
  }

  predicate NoBlindEof(s: Socket, run: seq<Input>)
    decreases |run|
  {
    run == [] ||
    (&& Enabled(s, run[0])
     && !(run[0].Eof? && s.w.ended && R.Length(s.r) > 0 && s.shutdowns == 0)
     && NoBlindEof(Step(s, run[0]), run[1..]))
  }

  lemma DestroySettled(s: Socket)
    requires Inv(s)
    ensures s.w.ended ==> DestroySocket(s).destroyed
    ensures Settled(s) ==> Settled(DestroySocket(s)) && Settled(DestroySocketSoon(s))
    ensures Settled(s) ==> Settled(MaybeDestroy(s)) && Settled(OnEnd(s))
  {
    hide W.Books, W.GracefulLog, R.Books;
    DestroyInv(s);
    MaybeDestroyInv(s);
  }

  lemma OnFinishSettled(s: Socket)
    requires Inv(s) && s.w.ended
    ensures Settled(OnFinish(s))
  {
    hide W.Books, W.GracefulLog, R.Books;
    DestroyInv(s);
  }

  lemma WStepSettled(s: Socket, i: W.Input)
    requires Inv(s) && Settled(s) && W.Enabled(s.w, i) && !i.End?
    requires i.Ready? ==> s.connected
    ensures Settled(WithW(s, W.Step(s.w, i)))
    ensures i.Write? ==> Settled(s.(w := W.Step(s.w, i)))
  {
    hide W.Books, W.GracefulLog, R.Books;
    W.StepInv(s.w, i);
    var s1 := s.(w := W.Step(s.w, i));
    if s1.w.ended && !s.w.ended { OnFinishSettled(s1); }
  }

  lemma RStepSettled(s: Socket, op: R.Op)
    requires Inv(s) && Settled(s) && !op.PushEof?
    requires op.Push? ==> op.onData == [] && s.connected
    requires op.Resume? ==> op.onData == []
    ensures Settled(WithR(s, op))
  {
    hide W.Books, W.GracefulLog, R.Books;
    R.ExecInv(s.r, op);
    EndedByEofOnly(s.r, op);
    DestroySettled(s.(r := R.Exec(s.r, op)));
  }

  lemma StepSettled(s: Socket, i: Input)
    requires Inv(s) && Settled(s) && Enabled(s, i)
    requires !(i.Eof? && s.w.ended && R.Length(s.r) > 0 && s.shutdowns == 0)
    ensures Settled(Step(s, i))
  {
    hide W.Inv, W.Step, R.Quiescent, R.Exec, DestroySocket, WithW, WithR;
    match i
    case Write(req) => WStepSettled(s, W.Input.Write(req));
    case End(last) => EndSocketInv(s, last);
    case Destroy => DestroySettled(s);
    case DestroySoon => DestroySettled(s);
    case Connect =>
    case ReadError =>
    case ConnectOk =>
      if !s.destroyed { WStepSettled(s.(connecting := false, connected := true), W.Ready); }
    case ConnectFail => if !s.destroyed { DestroySettled(s.(connecting := false)); }
    case Ack => WStepSettled(s, W.Ack);
    case Tick => WStepSettled(s, W.Tick);
    case ShutdownDone => DestroyInv(s.(shutdowns := s.shutdowns - 1));
    case Eof => EofSettled(s);
    case Data(chunk) => RStepSettled(s, R.Push(chunk, []));
    case Pause => RStepSettled(s, R.Pause);
    case Resume => RStepSettled(s, R.Resume([]));
    case Read(n) => RStepSettled(s, R.Read(n));
  }

  lemma EofSettled(s: Socket)
    requires Inv(s) && Settled(s) && Enabled(s, Eof)
    requires !(s.w.ended && R.Length(s.r) > 0 && s.shutdowns == 0)
    ensures Settled(Step(s, Eof))
  {
    hide W.Books, W.GracefulLog, R.Books;
    WithRInv(s, R.PushEof);
    var s1 := WithR(s, R.PushEof);
    if R.Length(s.r) == 0 {
      DestroyInv(s1.(readable := false));
    }
  }

  /** In runs without such an EOF, every socket that is over in both directions is destroyed. */
  lemma {:induction false} BothOverMeansDestroyed(s: Socket, run: seq<Input>)
    requires Inv(s) && Settled(s) && NoBlindEof(s, run)
    ensures Allowed(s, run) && Settled(Run(s, run))
    decreases |run|
  {
    if run != [] {
      StepInv(s, run[0]);
      StepSettled(s, run[0]);
      BothOverMeansDestroyed(Step(s, run[0]), run[1..]);
    }
  }

  // A connection that failed with data waiting: nothing will ever empty the queue.
  predicate Stranded(s: Socket) {
    && !s.w.ready && s.w.queue != [] && s.w.ending && !s.w.ended
    && s.w.ticks == 0 && !s.connecting && !s.destroyed
  }

  /** connect() is not called again. */
  predicate NoRetry(run: seq<Input>) {
    forall k :: 0 <= k < |run| ==> !run[k].Connect?
  }

  lemma StrandedStep(s: Socket, i: Input)
    requires Inv(s) && Stranded(s) && Enabled(s, i) && !i.Connect?
    ensures Stranded(Step(s, i))
  {
    hide W.Books, W.GracefulLog, R.Books;
    if i.Resume? { R.ExecInv(s.r, R.Resume([])); }
  }

  lemma {:induction false} StrandedForever(s: Socket, run: seq<Input>)
    requires Inv(s) && Stranded(s) && Allowed(s, run) && NoRetry(run)
    ensures Stranded(Run(s, run))
    decreases |run|
  {
    if run != [] {
      StepInv(s, run[0]);
      StrandedStep(s, run[0]);
      StrandedForever(Step(s, run[0]), run[1..]);
    }
  }

  /** Some run without a second connect() destroys the socket. */
  ghost predicate DestroyedWithoutRetry(s: Socket) {
    exists run :: Allowed(s, run) && NoRetry(run) && Run(s, run).destroyed
  }

  lemma DestroyedNow(s: Socket)
    requires s.destroyed
    ensures DestroyedWithoutRetry(s)
  {
    assert Allowed(s, []) && NoRetry([]) && Run(s, []) == s;
  }

  lemma DestroyedNext(s: Socket, i: Input)
    requires Enabled(s, i) && !i.Connect? && Step(s, i).destroyed
    ensures DestroyedWithoutRetry(s)
  {
    RunOne(s, i);
    assert NoRetry([i]);
  }

  /**
   When a connection attempt fails, the destroy() that follows can never complete,
   not even if it is repeated, without another connect(), if and only if data is
   queued, 'finish' was not emitted, and no tick is waiting to emit it.
   */
  lemma ConnectFailLeak(s: Socket)
    requires Inv(s) && s.connecting
    ensures !DestroyedWithoutRetry(Step(s, ConnectFail))
       <==> s.w.queue != [] && !s.w.ended && s.w.ticks == 0
  {
    StepInv(s, ConnectFail);
    var s' := Step(s, ConnectFail);
    if s.w.ended {
      DestroyInv(s.(connecting := false));
      DestroyedNow(s');
    } else if s.w.queue == [] || s.w.ticks > 0 {
      FinishDestroys(s', W.Tick);
      DestroyedNext(s', Tick);
    } else {
      assert Stranded(s');
      forall run | Allowed(s', run) && NoRetry(run)
        ensures !Run(s', run).destroyed
      {
        StrandedForever(s', run);
      }
    }
  }

  /** A new client socket that writes before it is connected is in that situation. */
  lemma EarlyWriteStrands(hwm: int, allowHalfOpen: bool, req: W.WriteReq)
    ensures var s := Step(Client(hwm, allowHalfOpen), Write(req));
            && Inv(s) && s.connecting && s.w.queue != [] && !s.w.ended && s.w.ticks == 0
            && !DestroyedWithoutRetry(Step(s, ConnectFail))
  {
    NewSockets(hwm, allowHalfOpen);
    var s := Client(hwm, allowHalfOpen);
    StepInv(s, Write(req));
    ConnectFailLeak(Step(s, Write(req)));
  }

  /**
   A second attempt that succeeds saves every socket that failed with data queued and
   'finish' not emitted: the acknowledgements that follow destroy it.
   */
  lemma RetryRecovers(s: Socket)
    requires Inv(s) && s.connecting && s.w.queue != [] && !s.w.ended
    ensures var s1 := Step(s, ConnectFail);
            var s2 := Step(s1, Connect);
            && Enabled(s2, ConnectOk)
            && var s3 := Step(s2, ConnectOk);
               Allowed(s3, Remaining(s3.w)) && Run(s3, Remaining(s3.w)).destroyed
  {
    hide W.Books, W.GracefulLog, R.Quiescent;
    StepInv(s, ConnectFail);
    var s1 := Step(s, ConnectFail);
    StepInv(s1, Connect);
    var s2 := Step(s1, Connect);
    StepInv(s2, ConnectOk);
    EndingCompletes(Step(s2, ConnectOk));
  }

  // ------------------------------------------------------------- read errors

  predicate NoEof(run: seq<Input>) {
    forall k :: 0 <= k < |run| ==> !run[k].Eof?
  }

  /** Finished, and still reading. */
  predicate Waiting(s: Socket) {
    s.w.ended && !s.r.ended && s.connected && !s.destroyed
  }

  lemma WaitingStep(s: Socket, i: Input)
    requires Inv(s) && Waiting(s) && Enabled(s, i) && !i.Eof? && !i.Destroy?
    ensures Waiting(Step(s, i))
  {
    hide W.Books, W.GracefulLog, R.Books;
    match i
    case Data(chunk) => EndedByEofOnly(s.r, R.Push(chunk, [])); R.ExecInv(s.r, R.Push(chunk, []));
    case Resume => EndedByEofOnly(s.r, R.Resume([])); R.ExecInv(s.r, R.Resume([]));
    case Read(n) => EndedByEofOnly(s.r, R.Read(n)); R.ExecInv(s.r, R.Read(n));
    case _ =>
  }

  lemma {:induction false} WaitingForever(s: Socket, run: seq<Input>)
    requires Inv(s) && Waiting(s) && Allowed(s, run) && NoEof(run) && NoDestroy(run)
    ensures Waiting(Run(s, run))
    decreases |run|
  {
    if run != [] {
      StepInv(s, run[0]);
      WaitingStep(s, run[0]);
      WaitingForever(Step(s, run[0]), run[1..]);
    }
  }

  /**
   A read error changes nothing: a finished socket whose connection breaks with an
   error instead of an EOF is not destroyed in any run without an explicit destroy().
   */
  lemma ReadErrorLeak(s: Socket, run: seq<Input>)
    requires Inv(s) && s.w.ended && Enabled(s, ReadError)
    requires Allowed(Step(s, ReadError), run) && NoEof(run) && NoDestroy(run)
    ensures !Run(Step(s, ReadError), run).destroyed
  {
    WaitingForever(s, run);
  }
}
