/**
 A TCP socket as the composition of a writable and a readable stream, and a
 server that counts the sockets it accepted.  The inputs are the calls of the
 owner and the callbacks of the handle; listeners run as later inputs.
 */
module NetSpec {
  import opened Prelude
  import W = WritableSpec
  import R = ReadableSpec

  datatype Socket = Socket(
    w: W.State,
    r: R.State,
    connecting: bool,
    connected: bool,
    writable: bool,
    readable: bool,
    destroyed: bool,
    allowHalfOpen: bool,
    destroyers: nat,   // one-shot 'finish' listeners that call destroy()
    linked: bool,      // the socket still points to the server that accepted it
    accepted: bool,    // it came from a server
    closes: nat,       // calls of close() on its handle
    shutdowns: nat)    // shutdown requests whose callback is outstanding

  datatype Input =
    | Write(req: W.WriteReq)
    | End(last: Option<W.WriteReq>)
    | Destroy
    | DestroySoon
    | Connect      // connect() again, which the socket accepts unless it is connecting or connected
    | ConnectOk
    | ConnectFail
    | Ack
    | Tick
    | ShutdownDone
    | Data(chunk: seq<byte>)
    | Eof
    | ReadError    // 'error' is emitted
    | Pause
    | Resume
    | Read(n: Option<int>)

  // ----------------------------------------------------------- socket steps

  /** What no step undoes. */
  predicate Keeps(s: Socket, s': Socket) {
    s'.accepted == s.accepted && s'.allowHalfOpen == s.allowHalfOpen && (s.destroyed ==> s'.destroyed)
  }

  function EndSocket(s: Socket, last: Option<W.WriteReq>): Socket {
    s.(w := W.Step(s.w, W.Input.End(last)), writable := false)
  }

  function CloseHandle(s: Socket): Socket {
    s.(closes := s.closes + 1, linked := false)
  }

  function DestroySocket(s: Socket): (s': Socket)
    ensures Keeps(s, s')
  {
    if s.destroyed then s
    else
      var s1 := if s.writable then EndSocket(s, None) else s;
      if s1.w.ended then CloseHandle(s1).(destroyed := true)
      else s1.(destroyers := s1.destroyers + 1)
  }

  /** The field that destroySoon() tests does not exist, so it always waits for a future 'finish'. */
  function DestroySocketSoon(s: Socket): (s': Socket)
    ensures Keeps(s, s')
  {
    var s1 := if s.writable then EndSocket(s, None) else s;
    s1.(destroyers := s1.destroyers + 1)
  }

  function MaybeDestroy(s: Socket): (s': Socket)
    ensures Keeps(s, s')
  {
    if !s.connecting && !s.writable && !s.readable then DestroySocket(s) else s
  }

  /** A shutdown of a handle that is not connected fails at once and never calls back. */
  function OnFinish(s: Socket): (s': Socket)
    ensures Keeps(s, s')
  {
    var s1 := if !s.readable || s.r.ended then DestroySocket(s)
              else s.(shutdowns := s.shutdowns + if s.connected then 1 else 0);
    if s1.destroyers > 0 then DestroySocket(s1).(destroyers := 0) else s1
  }

  function OnEnd(s: Socket): (s': Socket)
    ensures Keeps(s, s')
  {
    var s1 := MaybeDestroy(s);
    if s.allowHalfOpen then s1 else DestroySocketSoon(s1)
  }

  /** The writable half moves to `w'`; its 'finish', if emitted, reaches the socket. */
  function WithW(s: Socket, w': W.State): (s': Socket)
    ensures Keeps(s, s')
  {
    var s1 := s.(w := w');
    if w'.ended && !s.w.ended then OnFinish(s1) else s1
  }

  /** The readable half performs `op`; its 'end', if emitted, reaches the socket. */
  function WithR(s: Socket, op: R.Op): (s': Socket)
    ensures Keeps(s, s')
  {
    var s1 := s.(r := R.Exec(s.r, op));
    if s1.r.endEmitted && !s.r.endEmitted then OnEnd(s1) else s1
  }

  predicate Enabled(s: Socket, i: Input) {
    match i
    case ConnectOk => s.connecting
    case ConnectFail => s.connecting
    case Ack => s.w.inflight.Some?
    case Tick => s.w.ticks > 0
    case ShutdownDone => s.shutdowns > 0
    case Data(_) => s.connected && !s.r.ended && !s.destroyed
    case Eof => s.connected && !s.r.ended && !s.destroyed
    case ReadError => s.connected && !s.r.ended && !s.destroyed
    case _ => true
  }

  function Step(s: Socket, i: Input): (s': Socket)
    requires Enabled(s, i)
    ensures Keeps(s, s')
  {
    match i
    case Write(req) => s.(w := W.Step(s.w, W.Input.Write(req)))
    case End(last) => EndSocket(s, last)
    case Destroy => DestroySocket(s)
    case DestroySoon => DestroySocketSoon(s)
    case Connect => if s.connecting || s.connected then s else s.(connecting := true)
    case ConnectOk =>
      var s1 := s.(connecting := false);
      if s.destroyed then s1 else WithW(s1.(connected := true), W.Step(s.w, W.Ready))
    case ConnectFail =>
      var s1 := s.(connecting := false);
      if s.destroyed then s1 else DestroySocket(s1)
    case Ack => WithW(s, W.Step(s.w, W.Ack))
    case Tick => WithW(s, W.Step(s.w, W.Tick))
    case ShutdownDone =>
      var s1 := s.(shutdowns := s.shutdowns - 1);
      if s.r.ended then DestroySocket(s1) else s1
    case Data(chunk) => WithR(s, R.Push(chunk, []))
    case Eof =>
      var s1 := WithR(s, R.PushEof);
      if R.Length(s1.r) == 0 then MaybeDestroy(s1.(readable := false)) else s1
    case ReadError => s
    case Pause => WithR(s, R.Pause)
    case Resume => WithR(s, R.Resume([]))
    case Read(n) => WithR(s, R.Read(n))
  }

  lemma ReadErrorChangesNothing(s: Socket)
    requires Enabled(s, ReadError)
    ensures Step(s, ReadError) == s
  {
    hide WithR, WithW;
  }

  lemma CallbacksReachW(s: Socket)
    ensures Enabled(s, Ack) ==> Step(s, Ack) == WithW(s, W.Step(s.w, W.Ack))
    ensures Enabled(s, Tick) ==> Step(s, Tick) == WithW(s, W.Step(s.w, W.Tick))
  {
    hide WithW, WithR, W.Step;
  }

  predicate Allowed(s: Socket, run: seq<Input>)
    decreases |run|
  {
    run == [] || (Enabled(s, run[0]) && Allowed(Step(s, run[0]), run[1..]))
  }

  function Run(s: Socket, run: seq<Input>): Socket
    requires Allowed(s, run)
    decreases |run|
  {
    if run == [] then s else Run(Step(s, run[0]), run[1..])
  }

  /** A client socket whose connection attempt is under way. */
  function Client(hwm: int, allowHalfOpen: bool): (s: Socket)
    ensures !s.linked
  {
    Socket(W.Init(hwm), R.Init, true, false, true, true, false, allowHalfOpen, 0, false, false, 0, 0)
  }

  /** A socket that a server has just accepted. */
  function Incoming(allowHalfOpen: bool): (s: Socket)
    ensures s.linked && s.accepted
  {
    Socket(W.Step(W.Init(128), W.Ready), R.Init, false, true, true, true, false, allowHalfOpen,
           0, true, true, 0, 0)
  }

  // -------------------------------------------------------------- invariant

  ghost predicate Inv(s: Socket) {
    && W.Inv(s.w)
    && R.Quiescent(s.r)
    && Flags(s)
  }

  ghost predicate Flags(s: Socket) {
    && (s.w.ending <==> !s.writable)
    && s.closes == (if s.destroyed then 1 else 0)
    && (s.destroyed ==> s.w.ended)
    && (s.linked <==> s.accepted && !s.destroyed)
    && !(s.connecting && s.connected)
    && (s.w.ready ==> s.connected)
    && (s.r.ended ==> s.connected)
    && (s.destroyers > 0 ==> s.w.ending)
    && (s.shutdowns > 0 ==> s.w.ended)
    && (!s.readable ==> s.r.endEmitted)
  }

  lemma EndSocketInv(s: Socket, last: Option<W.WriteReq>)
    requires Inv(s)
    ensures Inv(EndSocket(s, last))
    ensures EndSocket(s, last).w.ended == s.w.ended
  {
    hide W.Books, R.Books;
    W.StepInv(s.w, W.Input.End(last));
  }

  lemma DestroyInv(s: Socket)
    requires Inv(s)
    ensures Inv(DestroySocket(s))
    ensures DestroySocket(s).w.ended == s.w.ended && DestroySocket(s).r == s.r
    ensures s.w.ended ==> DestroySocket(s).destroyed
  {
    hide W.Books, R.Books;
    if s.writable { EndSocketInv(s, None); }
  }

  lemma OnFinishInv(s: Socket)
    requires Inv(s) && s.w.ended
    ensures Inv(OnFinish(s))
    ensures s.destroyers > 0 ==> OnFinish(s).destroyed
  {
    hide W.Books, R.Books;
    DestroyInv(s);
    var s1 := if !s.readable || s.r.ended then DestroySocket(s)
              else s.(shutdowns := s.shutdowns + if s.connected then 1 else 0);
    DestroyInv(s1);
  }

  lemma WithWInv(s: Socket, w': W.State)
    requires Inv(s) && W.Inv(w')
    requires w'.ending == s.w.ending && (s.w.ended ==> w'.ended)
    requires w'.ready ==> s.connected
    ensures Inv(WithW(s, w'))
    ensures w'.ended && !s.w.ended && s.destroyers > 0 ==> WithW(s, w').destroyed
    ensures s.destroyed ==> WithW(s, w') == s.(w := w')
  {
    hide W.Books, R.Books;
    if w'.ended && !s.w.ended { OnFinishInv(s.(w := w')); }
  }

  lemma DestroySoonInv(s: Socket)
    requires Inv(s)
    ensures Inv(DestroySocketSoon(s))
  {
    hide W.Books, R.Quiescent;
    EndSocketInv(s, None);
  }

  lemma MaybeDestroyInv(s: Socket)
    requires Inv(s)
    ensures Inv(MaybeDestroy(s))
  {
    hide W.Books, R.Books;
    DestroyInv(s);
  }

  lemma OnEndInv(s: Socket)
    requires Inv(s)
    ensures Inv(OnEnd(s))
  {
    hide W.Books, R.Books;
    MaybeDestroyInv(s);
    EndSocketInv(MaybeDestroy(s), None);
  }

  lemma WithRInv(s: Socket, op: R.Op)
    requires Inv(s)
    requires R.Exec(s.r, op).ended ==> s.connected
    requires s.r.ended ==> R.Exec(s.r, op).ended
    ensures Inv(WithR(s, op))
    ensures WithR(s, op).r == R.Exec(s.r, op)
  {
    hide W.Books, R.Books;
    R.ExecInv(s.r, op);
    EndStays(s.r, op);
    var s1 := s.(r := R.Exec(s.r, op));
    OnEndInv(s1);
  }

  /** 'end' is never taken back. */
  lemma EndStays(r: R.State, op: R.Op)
    requires R.Inv(r)
    ensures r.endEmitted ==> R.Exec(r, op).endEmitted
  {
    hide R.Books, R.ExecAll, R.EmitData, Flatten;
  }

  /** Without nested listeners only push(null) ends the readable half. */
  lemma EndedByEofOnly(r: R.State, op: R.Op)
    requires op.Push? ==> op.onData == []
    requires op.Resume? ==> op.onData == []
    ensures R.Exec(r, op).ended == (r.ended || op.PushEof?)
  {
    match op
    case Push(chunk, _) => EmissionKeepsEnded(R.Emit(r, R.Accepted(chunk)), chunk);
    case Resume(_) => EmissionKeepsEnded(R.TakeAll(r.(flowing := true)), Flatten(r.buffer));
    case _ =>
  }

  lemma EmissionKeepsEnded(r: R.State, data: seq<byte>)
    ensures R.EmitData(r, data, []).ended == r.ended
  {
    hide Flatten;
    var r1 := R.Emit(r, R.Data(data));
    assert R.ExecAll(r1, []) == r1;
  }

  lemma WStepInv(s: Socket, i: W.Input)
    requires Inv(s) && W.Enabled(s.w, i) && !i.End? && (i.Ready? ==> s.connected)
    ensures Inv(WithW(s, W.Step(s.w, i)))
    ensures i.Write? ==> Inv(s.(w := W.Step(s.w, i)))
  {
    hide W.Books, R.Quiescent;
    W.StepInv(s.w, i);
    WithWInv(s, W.Step(s.w, i));
  }

  lemma RStepInv(s: Socket, op: R.Op)
    requires Inv(s) && !op.PushEof?
    requires op.Push? ==> op.onData == [] && s.connected
    requires op.Resume? ==> op.onData == []
    ensures Inv(WithR(s, op))
  {
    hide W.Inv, R.Exec;
    EndedByEofOnly(s.r, op);
    WithRInv(s, op);
  }

  lemma StepInv(s: Socket, i: Input)
    requires Inv(s) && Enabled(s, i)
    ensures Inv(Step(s, i))
  {
    hide W.Inv, W.Step, R.Quiescent, R.Exec, DestroySocket, WithW, WithR, EndSocket;
    match i
    case Write(req) => WStepInv(s, W.Input.Write(req));
    case End(last) => EndSocketInv(s, last);
    case Destroy => DestroyInv(s);
    case DestroySoon => DestroySoonInv(s);
    case Connect =>
    case ReadError =>
    case ConnectOk =>
      if !s.destroyed { WStepInv(s.(connecting := false, connected := true), W.Ready); }
    case ConnectFail => if !s.destroyed { DestroyInv(s.(connecting := false)); }
    case Ack => WStepInv(s, W.Ack);
    case Tick => WStepInv(s, W.Tick);
    case ShutdownDone => DestroyInv(s.(shutdowns := s.shutdowns - 1));
    case Data(chunk) => RStepInv(s, R.Push(chunk, []));
    case Eof => EofInv(s);
    case Pause => RStepInv(s, R.Pause);
    case Resume => RStepInv(s, R.Resume([]));
    case Read(n) => RStepInv(s, R.Read(n));
  }

  lemma EofInv(s: Socket)
    requires Inv(s) && Enabled(s, Eof)
    ensures Inv(Step(s, Eof))
  {
    hide W.Books, R.Books;
    WithRInv(s, R.PushEof);
    var s1 := WithR(s, R.PushEof);
    if R.Length(s1.r) == 0 { MaybeDestroyInv(s1.(readable := false)); }
  }

  /** Over every run the handle is closed at most once, and exactly when the socket is destroyed. */
  lemma {:induction false} RunInv(s: Socket, run: seq<Input>)
    requires Inv(s) && Allowed(s, run)
    ensures Inv(Run(s, run))
    decreases |run|
  {
    if run != [] {
      StepInv(s, run[0]);
      RunInv(Step(s, run[0]), run[1..]);
    }
  }

  lemma NewSockets(hwm: int, allowHalfOpen: bool)
    ensures Inv(Client(hwm, allowHalfOpen)) && W.Graceful(Client(hwm, allowHalfOpen).w)
    ensures Inv(Incoming(allowHalfOpen)) && W.Graceful(Incoming(allowHalfOpen).w)
  {
    hide W.Inv, W.GracefulLog, W.Run;
    W.NewIsGraceful(hwm);
    W.NewIsGraceful(128);
    W.StepGraceful(W.Init(128), W.Ready);
  }
}
