/**
 What each call and callback of a socket does, read off the input and the state before
 it: which half it moves, when it ends the writable half, when it destroys the socket.
 */
module NetEffects {
  import opened Prelude
  import W = WritableSpec
  import R = ReadableSpec
  import WE = WritableEffects
  import RE = ReadableEffects
  import T = NetTheorems
  import opened NetSpec

  // ------------------------------------------------------------------- guards

  /** The writable half emits 'finish'. */
  predicate Finishing(s: Socket, i: Input) {
    s.w.ending && !s.w.ended &&
    (i.Tick? || (i.Ack? && s.w.queue == []) || (i.ConnectOk? && W.Idle(s.w)))
  }

  /** The readable half emits 'end': at EOF, or when the bytes before an EOF are taken. */
  predicate EndEmitted(s: Socket, i: Input) {
    match i
    case Eof => R.Length(s.r) == 0
    case Resume => s.r.ended && R.Length(s.r) > 0
    case Read(n) => s.r.ended && R.Length(s.r) > 0 && (n.None? || n.value >= R.Length(s.r))
    case _ => false
  }

  /** The writable half is ended by the owner, by destruction, or, unless half-open is allowed, by 'end'. */
  predicate Ends(s: Socket, i: Input) {
    i.End? || i.Destroy? || i.DestroySoon? || i.ConnectFail? || (EndEmitted(s, i) && !s.allowHalfOpen)
  }

  /** destroy() is called, by the owner or because both directions are over. */
  predicate Destroying(s: Socket, i: Input) {
    || i.Destroy?
    || i.ConnectFail?
    || (i.ShutdownDone? && s.r.ended)
    || (i.Eof? && R.Length(s.r) == 0 && (s.w.ending || !s.allowHalfOpen))
  }

  // ---------------------------------------------------------------- both halves

  /** The one step that an input makes the writable half take, if any. */
  function OnW(s: Socket, i: Input): Option<W.Input> {
    match i
    case Write(req) => Some(W.Input.Write(req))
    case End(last) => Some(W.Input.End(last))
    case Ack => Some(W.Ack)
    case Tick => Some(W.Tick)
    case ConnectOk => if s.destroyed then None else Some(W.Ready)
    case _ => if Ends(s, i) && !s.w.ending then Some(W.Input.End(None)) else None
  }

  /** The one operation that an input performs on the readable half, if any. */
  function OnR(i: Input): Option<R.Op> {
    match i
    case Data(chunk) => Some(R.Push(chunk, []))
    case Eof => Some(R.PushEof)
    case Pause => Some(R.Pause)
    case Resume => Some(R.Resume([]))
    case Read(n) => Some(R.Read(n))
    case _ => None
  }

  /** Everything that an input changes in a socket. */
  ghost predicate Moves(s: Socket, i: Input, s': Socket)
    requires Enabled(s, i)
  {
    && (OnW(s, i).Some? ==> W.Enabled(s.w, OnW(s, i).value))
    && s'.w == (if OnW(s, i).Some? then W.Step(s.w, OnW(s, i).value) else s.w)
    && s'.r == (if OnR(i).Some? then R.Exec(s.r, OnR(i).value) else s.r)
    && (s'.connecting <==> (s.connecting && !i.ConnectOk? && !i.ConnectFail?) || (i.Connect? && !s.connected))
    && (s'.connected <==> s.connected || (i.ConnectOk? && !s.destroyed))
    && (s'.writable <==> s.writable && !Ends(s, i))
    && (s'.readable <==> s.readable && !(i.Eof? && R.Length(s.r) == 0))
    && (s'.destroyed
        <==> || s.destroyed
             || (Destroying(s, i) && s.w.ended)
             || (Finishing(s, i) && (s.destroyers > 0 || s.r.ended)))
    && (s'.destroyers > 0
        <==> && !Finishing(s, i)
             && (|| s.destroyers > 0
                 || i.DestroySoon?
                 || (EndEmitted(s, i) && !s.allowHalfOpen)
                 || (Destroying(s, i) && !s.w.ended)))
    && s'.shutdowns == s.shutdowns - (if i.ShutdownDone? then 1 else 0)
                                   + (if Finishing(s, i) && !s.r.ended && s'.connected then 1 else 0)
  }

  // --------------------------------------------------------------- the pieces

  /** What destroy() does. */
  lemma DestroyEffect(s: Socket)
    requires Inv(s)
    ensures var s' := DestroySocket(s);
            && s'.w == (if s.w.ending then s.w else W.Step(s.w, W.Input.End(None))) && s'.w.ending
            && s' == s.(w := s'.w, writable := false, destroyed := s.w.ended, destroyers := s'.destroyers,
                        linked := s'.linked, closes := s'.closes)
            && s'.destroyers == s.destroyers + (if s.w.ended then 0 else 1)
  {
    hide W.Books, R.Quiescent;
  }

  lemma DestroySoonEffect(s: Socket)
    requires Inv(s)
    ensures var s' := DestroySocketSoon(s);
            && s'.w == (if s.w.ending then s.w else W.Step(s.w, W.Input.End(None)))
            && s'.w.ending && s'.w.ended == s.w.ended
            && s' == s.(w := s'.w, writable := false, destroyers := s.destroyers + 1)
  {
    hide W.Books, R.Quiescent;
  }

  lemma OnFinishEffect(s: Socket)
    requires Inv(s) && s.w.ended
    ensures var s' := OnFinish(s);
            && s' == s.(destroyed := s'.destroyed, destroyers := 0, shutdowns := s'.shutdowns,
                        linked := s'.linked, closes := s'.closes)
            && s'.destroyed == (s.destroyed || s.destroyers > 0 || s.r.ended)
            && s'.shutdowns == s.shutdowns + (if !s.r.ended && s.connected then 1 else 0)
  {
    hide W.Books, W.Step, DestroySocket;
    DestroyEffect(s);
    DestroyInv(s);
    var s1 := s.(shutdowns := s.shutdowns + if s.connected then 1 else 0);
    DestroyEffect(s1);
    DestroyEffect(DestroySocket(s));
  }

  /** What the socket's 'end' listener does while the socket is still readable. */
  lemma OnEndEffect(s: Socket)
    requires Inv(s) && s.readable
    ensures s.allowHalfOpen ==> OnEnd(s) == s
    ensures !s.allowHalfOpen ==> OnEnd(s) == DestroySocketSoon(s)
  {
  }

  lemma EndsKeepsFinish(w: W.State)
    requires W.Inv(w)
    ensures W.Step(w, W.Input.End(None)).ended == w.ended
  {
  }

  /** What the options of a new socket decide. */
  lemma NewSocketsAre(hwm: int, allowHalfOpen: bool)
    ensures var s := Client(hwm, allowHalfOpen);
            s.connecting && !s.connected && !s.w.ready && s.w.hwm == hwm && s.allowHalfOpen == allowHalfOpen
    ensures var s := Incoming(allowHalfOpen);
            s.connected && !s.connecting && s.w.ready && s.w.hwm == 128 && s.allowHalfOpen == allowHalfOpen
  {
    hide W.Reqs;
  }

  // ------------------------------------------------------------------- inputs

  lemma OwnerMoves(s: Socket, i: Input)
    requires Inv(s) && Enabled(s, i)
    requires i.Write? || i.End? || i.DestroySoon? || i.Connect? || i.ReadError?
    ensures Moves(s, i, Step(s, i))
  {
    hide W.Books, W.Step, R.Quiescent, R.Exec, DestroySocketSoon;
    if i.DestroySoon? { DestroySoonEffect(s); }
  }

  lemma DestroyMoves(s: Socket, i: Input)
    requires Inv(s) && Enabled(s, i) && (i.Destroy? || i.ConnectFail? || i.ShutdownDone?)
    ensures Moves(s, i, Step(s, i))
  {
    hide W.Books, W.NoLostWakeup, W.Step, R.Quiescent, R.Exec, R.Length, DestroySocket, W.Idle;
    match i
    case Destroy => DestroyEffect(s);
    case ConnectFail => DestroyEffect(s.(connecting := false));
    case ShutdownDone => DestroyEffect(s.(shutdowns := s.shutdowns - 1));
  }

  /** An acknowledgement, a tick or a connection emits 'finish' exactly when it is due. */
  lemma CallbackMoves(s: Socket, i: Input)
    requires Inv(s) && Enabled(s, i) && (i.Ack? || i.Tick? || i.ConnectOk?)
    ensures Moves(s, i, Step(s, i))
  {
    hide W.Books, W.Step, R.Exec, OnFinish;
    if !i.ConnectOk? || !s.destroyed {
      var wi := OnW(s, i).value;
      W.StepInv(s.w, wi);
      WE.StepSignals(s.w, wi);
      var s1 := if i.ConnectOk? then s.(connecting := false, connected := true) else s;
      if Finishing(s, i) { OnFinishEffect(s1.(w := W.Step(s.w, wi))); }
    }
  }

  lemma ResumeEndsWhenDue(r: R.State)
    requires R.Quiescent(r)
    ensures R.Exec(r, R.Resume([])).endEmitted == if R.Length(r) > 0 then r.ended else r.endEmitted
  {
    hide R.Books, R.Exec;
    R.ExecInv(r, R.Resume([]));
    EndedByEofOnly(r, R.Resume([]));
    RE.ResumeReleases(r, []);
  }

  /** The readable half emits 'end' exactly when it is due. */
  lemma EndWhenDue(s: Socket, i: Input)
    requires R.Quiescent(s.r) && Enabled(s, i) && (i.Data? || i.Pause? || i.Resume? || i.Read?)
    ensures R.Exec(s.r, OnR(i).value).endEmitted <==> s.r.endEmitted || EndEmitted(s, i)
    ensures EndEmitted(s, i) ==> !s.r.endEmitted
    ensures R.Exec(s.r, OnR(i).value).ended == s.r.ended && R.Quiescent(R.Exec(s.r, OnR(i).value))
  {
    hide R.Books, R.Exec;
    EndedByEofOnly(s.r, OnR(i).value);
    R.ExecInv(s.r, OnR(i).value);
    match i
    case Data(chunk) => RE.PushTakes(s.r, chunk, []);
    case Pause => RE.PauseStops(s.r);
    case Resume => ResumeEndsWhenDue(s.r);
    case Read(n) => RE.ReadReturns(s.r, n);
  }

  lemma ReadMoves(s: Socket, i: Input)
    requires Inv(s) && Enabled(s, i) && (i.Data? || i.Pause? || i.Resume? || i.Read?)
    ensures Moves(s, i, Step(s, i))
  {
    hide W.Inv, W.Step, R.Quiescent, R.Exec, R.Length, OnEnd, DestroySocketSoon;
    EndWhenDue(s, i);
    if EndEmitted(s, i) {
      var s1 := s.(r := R.Exec(s.r, OnR(i).value));
      OnEndEffect(s1);
      DestroySoonEffect(s1);
    }
  }

  lemma EofMoves(s: Socket)
    requires Inv(s) && Enabled(s, Eof)
    ensures Moves(s, Eof, Step(s, Eof))
  {
    hide W.Books, W.Step, R.Books, R.Exec, OnEnd, DestroySocket, DestroySocketSoon;
    R.ExecInv(s.r, R.PushEof);
    RE.EofEnds(s.r);
    var s1 := s.(r := R.Exec(s.r, R.PushEof));
    if R.Length(s.r) == 0 {
      OnEndEffect(s1);
      DestroySoonEffect(s1);
      OnEndInv(s1);
      var s2 := OnEnd(s1).(readable := false);
      DestroyEffect(s2);
    }
  }

  /** Every input changes exactly that. */
  lemma StepMoves(s: Socket, i: Input)
    requires Inv(s) && Enabled(s, i)
    ensures Moves(s, i, Step(s, i))
  {
    hide Moves, Step, Inv;
    match i
    case Ack => CallbackMoves(s, i);
    case Tick => CallbackMoves(s, i);
    case ConnectOk => CallbackMoves(s, i);
    case Destroy => DestroyMoves(s, i);
    case ConnectFail => DestroyMoves(s, i);
    case ShutdownDone => DestroyMoves(s, i);
    case Data(_) => ReadMoves(s, i);
    case Pause => ReadMoves(s, i);
    case Resume => ReadMoves(s, i);
    case Read(_) => ReadMoves(s, i);
    case Eof => EofMoves(s);
    case _ => OwnerMoves(s, i);
  }

  // --------------------------------------------------------------- half-open

  /**
   EOF with nothing left to read.  By default it ends the writable half as well, and the
   socket is destroyed as soon as what it had accepted is acknowledged.  With half-open
   allowed, a socket that still writes is left alone.
   */
  lemma EofEndsBoth(s: Socket)
    requires Inv(s) && Enabled(s, Eof) && R.Length(s.r) == 0
    ensures var s' := Step(s, Eof);
            && (!s.allowHalfOpen || !s.writable ==>
                  && s'.w.ending
                  && (s'.destroyed
                      || (s.w.ready ==>
                            Allowed(s', T.Remaining(s'.w)) && Run(s', T.Remaining(s'.w)).destroyed)))
            && (s.allowHalfOpen && s.writable ==> s'.w == s.w && s'.writable && !s'.readable && !s'.destroyed)
  {
    hide Moves, Step, W.Books, R.Quiescent, R.Exec;
    StepInv(s, Eof);
    EofMoves(s);
    var s' := Step(s, Eof);
    EofFlags(s, s');
    if s'.w.ending && !s'.destroyed && s.w.ready { T.EndingCompletes(s'); }
  }

  /** The same when the bytes before an earlier EOF are taken: by resume(), or by a full read(). */
  lemma LastReadEndsBoth(s: Socket, i: Input)
    requires Inv(s) && EndEmitted(s, i) && (i.Resume? || i.Read?)
    ensures var s' := Step(s, i);
            && (!s.allowHalfOpen && !s.w.ended ==>
                  && s'.w.ending
                  && (s.w.ready ==>
                        Allowed(s', T.Remaining(s'.w)) && Run(s', T.Remaining(s'.w)).destroyed))
            && (s.allowHalfOpen ==> s'.w == s.w && s'.writable == s.writable && s'.destroyed == s.destroyed)
  {
    hide Step, W.Books, R.Quiescent, R.Exec;
    StepInv(s, i);
    ReadMoves(s, i);
    var s' := Step(s, i);
    if !s.allowHalfOpen && !s.w.ended && s.w.ready { T.EndingCompletes(s'); }
  }

  lemma EofFlags(s: Socket, s': Socket)
    requires Inv(s) && Enabled(s, Eof) && R.Length(s.r) == 0 && Moves(s, Eof, s')
    ensures !s.allowHalfOpen || !s.writable ==>
              s'.w.ending && s'.w.ended == s.w.ended && s'.w.ready == s.w.ready
    ensures !s.allowHalfOpen || !s.writable ==> s'.destroyed || (!s.w.ended && s'.destroyers > 0)
    ensures s.allowHalfOpen && s.writable ==> s'.w == s.w && s'.writable && !s'.readable && !s'.destroyed
  {
    hide W.Books, R.Quiescent, R.Exec;
  }

  /** Both cases occur: an accepted socket, EOF, and the tick. */
  lemma AcceptedSocketAtEof()
    ensures Allowed(Incoming(false), [Eof, Tick]) && Run(Incoming(false), [Eof, Tick]).destroyed
    ensures Allowed(Incoming(true), [Eof])
    ensures Run(Incoming(true), [Eof]).writable && !Run(Incoming(true), [Eof]).w.ending
  {
    hide Step, Incoming, Inv, W.Step, W.GracefulLog;
    FreshAtEof(false);
    FreshAtEof(true);
    var s, h := Incoming(false), Incoming(true);
    EofEndsBoth(s);
    EofEndsBoth(h);
    T.RunOne(h, Eof);
    T.RunCons(s, Eof, [Tick]);
    assert [Eof] + [Tick] == [Eof, Tick];
  }

  lemma FreshAtEof(allowHalfOpen: bool)
    ensures var s := Incoming(allowHalfOpen);
            && Inv(s) && Enabled(s, Eof) && R.Length(s.r) == 0
            && s.w.ready && s.writable && !s.w.ending && s.allowHalfOpen == allowHalfOpen
            && !Step(s, Eof).destroyed && T.Remaining(Step(s, Eof).w) == [Tick]
  {
    NewSockets(0, allowHalfOpen);
    hide Step, Inv, W.GracefulLog;
    var s := Incoming(allowHalfOpen);
    assert W.Idle(s.w);
    EofMoves(s);
  }

  // --------------------------------------------------------------- whole runs

  /** The run of the writable half inside a run of the socket. */
  function WRun(s: Socket, run: seq<Input>): seq<W.Input>
    requires Allowed(s, run)
    decreases |run|
  {
    if run == [] then []
    else
      var rest := WRun(Step(s, run[0]), run[1..]);
      if OnW(s, run[0]).Some? then [OnW(s, run[0]).value] + rest else rest
  }

  function RRun(run: seq<Input>): seq<R.Op> {
    if run == [] then []
    else if OnR(run[0]).Some? then [OnR(run[0]).value] + RRun(run[1..])
    else RRun(run[1..])
  }

  /** Every run of a socket is a run of a writable and a run of a readable stream. */
  lemma {:induction false} RunHalves(s: Socket, run: seq<Input>)
    requires Inv(s) && Allowed(s, run)
    ensures W.Allowed(s.w, WRun(s, run)) && Run(s, run).w == W.Run(s.w, WRun(s, run))
    ensures Run(s, run).r == R.ExecAll(s.r, RRun(run))
    decreases |run|
  {
    hide Step, Inv, W.Step, R.Exec;
    if run != [] {
      var i := run[0];
      StepInv(s, i);
      StepMoves(s, i);
      RunHalves(Step(s, i), run[1..]);
      if OnW(s, i).Some? { assert WRun(s, run)[1..] == WRun(Step(s, i), run[1..]); }
      if OnR(i).Some? { assert RRun(run)[1..] == RRun(run[1..]); }
    }
  }

  /** The data that the owner gives to the socket, in order. */
  function Offered(run: seq<Input>): seq<W.WriteReq> {
    if run == [] then []
    else if T.Chunk(run[0]).Some? then [T.Chunk(run[0]).value] + Offered(run[1..])
    else Offered(run[1..])
  }

  /** The bytes that arrive from the peer, in order. */
  function Arrived(run: seq<Input>): seq<byte> {
    if run == [] then [] else (if run[0].Data? then run[0].chunk else []) + Arrived(run[1..])
  }

  lemma {:induction false} OfferedIsGiven(s: Socket, run: seq<Input>)
    requires Allowed(s, run)
    ensures WE.Offered(WRun(s, run)) == Offered(run)
    decreases |run|
  {
    hide Step, W.Step;
    if run != [] {
      var i := run[0];
      OfferedIsGiven(Step(s, i), run[1..]);
      if OnW(s, i).Some? {
        assert WRun(s, run)[1..] == WRun(Step(s, i), run[1..]);
        assert [] + Offered(run[1..]) == Offered(run[1..]);
      }
    }
  }

  /**
   A socket that has not refused anything: in every run it takes all the data it is given
   until 'finish' and refuses it from then on, and the handle gets, and acknowledges, an
   initial part of it, in order.
   */
  lemma SocketTakes(s: Socket, run: seq<Input>)
    requires Inv(s) && Allowed(s, run) && W.Reqs(s.w.log, W.IsRejected) == []
    ensures var w', before := Run(s, run).w, W.Reqs(s.w.log, W.IsAccepted);
            && W.Reqs(w'.log, W.IsAccepted) + W.Reqs(w'.log, W.IsRejected) == before + Offered(run)
            && (!w'.ended ==> W.Reqs(w'.log, W.IsRejected) == [])
            && W.Reqs(w'.log, W.IsAcked) <= W.Reqs(w'.log, W.IsHanded) <= before + Offered(run)
  {
    hide Step, W.Step, W.Reqs, W.Run, WE.Offered;
    var wrun := WRun(s, run);
    RunHalves(s, run);
    RunInv(s, run);
    OfferedIsGiven(s, run);
    WE.RunTakes(s.w, wrun);
    var k := WE.Before(s.w, wrun);
    WE.OfferedSplit(wrun, k);
    var w' := Run(s, run).w;
    assert W.Reqs(w'.log, W.IsHanded) + w'.queue + W.Reqs(w'.log, W.IsRejected)
        == W.Reqs(s.w.log, W.IsAccepted) + Offered(run);
    if !w'.ended { assert wrun[k..] == []; WE.NothingOffered(); }
  }

  /** Data that arrives is taken at once, in every state in which it can arrive. */
  lemma DataTaken(s: Socket, data: seq<byte>)
    requires R.Inv(s.r) && Enabled(s, Data(data))
    ensures s.r.log + [R.Accepted(data)] <= Step(s, Data(data)).r.log
  {
    hide R.Books, R.Exec, W.Step;
    RE.PushTakes(s.r, data, []);
    var log' := R.Exec(s.r, R.Push(data, [])).log;
    assert s.r.log + [R.Accepted(data), R.Data(data)] == s.r.log + [R.Accepted(data)] + [R.Data(data)];
    assert s.r.log + [R.Accepted(data), R.Readable] == s.r.log + [R.Accepted(data)] + [R.Readable];
    assert Step(s, Data(data)).r.log == log';
  }

  lemma EofSeen(s: Socket)
    requires Enabled(s, Eof)
    ensures Step(s, Eof).r.ended
  {
    hide R.Exec, W.Step, R.Length;
    EndedByEofOnly(s.r, R.PushEof);
  }

  lemma StepArrives(s: Socket, i: Input)
    requires Inv(s) && Enabled(s, i)
    ensures R.BytesIn(Step(s, i).r.log) == R.BytesIn(s.r.log) + (if i.Data? then i.chunk else [])
    ensures i.Data? ==> s.r.log + [R.Accepted(i.chunk)] <= Step(s, i).r.log
  {
    hide W.Inv, W.Step, R.BytesOut, R.Orderly, R.BytesIn, Step, R.Exec;
    StepMoves(s, i);
    if OnR(i).Some? {
      RE.StepTakes(s.r, OnR(i).value);
      Arrives(s.r, i);
      if i.Data? { DataTaken(s, i.chunk); }
    }
  }

  lemma Arrives(r: R.State, i: Input)
    requires OnR(i).Some? && (i.Data? ==> !r.ended)
    ensures (if r.ended then [] else RE.Pushed(RE.Performed(r, OnR(i).value))) == (if i.Data? then i.chunk else [])
  {
    assert RE.Performed(r, OnR(i).value) == [OnR(i).value];
    assert RE.Pushed([OnR(i).value][1..]) == [];
  }

  /** In every run all bytes that arrive are delivered or still buffered, in order. */
  lemma {:induction false} SocketReceives(s: Socket, run: seq<Input>)
    requires Inv(s) && Allowed(s, run)
    ensures var r' := Run(s, run).r;
            R.BytesOut(r'.log) + Flatten(r'.buffer) == R.BytesIn(s.r.log) + Arrived(run)
    decreases |run|
  {
    hide Step, W.Inv, R.Orderly, R.BytesIn, R.BytesOut, Flatten;
    if run != [] {
      StepInv(s, run[0]);
      StepArrives(s, run[0]);
      SocketReceives(Step(s, run[0]), run[1..]);
    }
  }
}
