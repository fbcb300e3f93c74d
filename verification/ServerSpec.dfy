/** A server together with every socket of the process, accepted or not. */
module ServerSpec {
  import W = WritableSpec
  import N = NetSpec
  import T = NetTheorems

  datatype Server = Server(
    allowHalfOpen: bool,
    handle: bool,      // a handle is held
    listening: bool,   // it is open and listens
    count: int,        // _socketCount
    closeCalls: nat,   // calls of close() since the last listen()
    scheduled: nat)    // 'close' events put in the tick queue since then

  datatype System = System(server: Server, socks: seq<N.Socket>)

  datatype Input =
    | Listen(ok: bool)  // bind and listen succeed or fail
    | CloseServer
    | Accept
    | Connect(hwm: int, allowHalfOpen: bool)
    | On(k: nat, i: N.Input)

  function Init(allowHalfOpen: bool): System {
    System(Server(allowHalfOpen, false, false, 0, 0, 0), [])
  }

  function EmitCloseIfDrained(v: Server): Server {
    if v.handle || v.count > 0 then v else v.(scheduled := v.scheduled + 1)
  }

  function ServerClose(v: Server): Server {
    var v1 := if v.handle then v.(handle := false, listening := false) else v;
    EmitCloseIfDrained(v1.(closeCalls := v.closeCalls + 1))
  }

  /** When bind or listen fails the handle is closed, but the server keeps holding it. */
  function ServerListen(v: Server, ok: bool): Server {
    v.(handle := true, listening := ok, closeCalls := 0, scheduled := 0)
  }

  /** The server's part in a socket step: closing the handle of a linked socket gives up the link. */
  function Released(v: Server, wasLinked: bool, isLinked: bool): Server {
    if wasLinked && !isLinked then EmitCloseIfDrained(v.(count := v.count - 1)) else v
  }

  predicate Enabled(y: System, i: Input) {
    && (i.Accept? ==> y.server.listening)
    && (i.On? ==> i.k < |y.socks| && N.Enabled(y.socks[i.k], i.i))
  }

  function Step(y: System, i: Input): System
    requires Enabled(y, i)
  {
    match i
    case Listen(ok) => y.(server := ServerListen(y.server, ok))
    case CloseServer => y.(server := ServerClose(y.server))
    case Accept =>
      System(y.server.(count := y.server.count + 1), y.socks + [N.Incoming(y.server.allowHalfOpen)])
    case Connect(hwm, allowHalfOpen) => y.(socks := y.socks + [N.Client(hwm, allowHalfOpen)])
    case On(k, si) =>
      var s' := N.Step(y.socks[k], si);
      System(Released(y.server, y.socks[k].linked, s'.linked), y.socks[k := s'])
  }

  predicate Allowed(y: System, run: seq<Input>)
    decreases |run|
  {
    run == [] || (Enabled(y, run[0]) && Allowed(Step(y, run[0]), run[1..]))
  }

  function Run(y: System, run: seq<Input>): System
    requires Allowed(y, run)
    decreases |run|
  {
    if run == [] then y else Run(Step(y, run[0]), run[1..])
  }

  // -------------------------------------------------------------- invariant

  /** How many sockets still point to the server. */
  function Linked(socks: seq<N.Socket>): nat {
    if socks == [] then 0
    else Linked(socks[..|socks| - 1]) + if socks[|socks| - 1].linked then 1 else 0
  }

  ghost predicate Inv(y: System) {
    && (forall k :: 0 <= k < |y.socks| ==> N.Inv(y.socks[k]))
    && y.server.count == Linked(y.socks)
    && (y.server.scheduled > 0 <==>
          y.server.closeCalls > 0 && !y.server.handle && y.server.count == 0)
    && y.server.scheduled <= y.server.closeCalls
    && (y.server.handle ==> y.server.closeCalls == 0)
    && (y.server.listening ==> y.server.handle)
    && (!y.server.handle && y.server.closeCalls == 0 ==> y.server.count == 0)
  }

  lemma LinkedSnoc(socks: seq<N.Socket>, s: N.Socket)
    ensures Linked(socks + [s]) == Linked(socks) + if s.linked then 1 else 0
  {
    assert (socks + [s])[..|socks|] == socks;
  }

  lemma {:induction false} LinkedUpdate(socks: seq<N.Socket>, k: nat, s: N.Socket)
    requires k < |socks|
    ensures Linked(socks[k := s]) ==
            Linked(socks) - (if socks[k].linked then 1 else 0) + if s.linked then 1 else 0
    decreases |socks|
  {
    var last := |socks| - 1;
    if k == last {
      assert socks[k := s][..last] == socks[..last];
    } else {
      assert socks[k := s][..last] == socks[..last][k := s];
      LinkedUpdate(socks[..last], k, s);
    }
  }

  lemma {:induction false} LinkedZero(socks: seq<N.Socket>)
    ensures Linked(socks) == 0 <==> forall k :: 0 <= k < |socks| ==> !socks[k].linked
  {
    if socks != [] {
      var last := |socks| - 1;
      LinkedZero(socks[..last]);
      if Linked(socks) == 0 {
        forall k | 0 <= k < |socks|
          ensures !socks[k].linked
        {
          if k < last { assert socks[..last][k] == socks[k]; }
        }
      } else if !socks[last].linked {
        var k :| 0 <= k < last && socks[..last][k].linked;
        assert socks[k].linked;
      }
    }
  }

  /** A socket that gave up its server never points to one again. */
  lemma LinkIsFinal(s: N.Socket, i: N.Input)
    requires N.Inv(s) && N.Enabled(s, i)
    ensures N.Inv(N.Step(s, i)) && (N.Step(s, i).linked ==> s.linked)
  {
    hide N.Step;
    N.StepInv(s, i);
  }

  lemma OnInv(y: System, k: nat, si: N.Input)
    requires Inv(y) && Enabled(y, On(k, si))
    ensures Inv(Step(y, On(k, si)))
  {
    hide N.Step, N.Inv;
    LinkIsFinal(y.socks[k], si);
    LinkedUpdate(y.socks, k, N.Step(y.socks[k], si));
  }

  lemma StepInv(y: System, i: Input)
    requires Inv(y) && Enabled(y, i)
    ensures Inv(Step(y, i))
  {
    hide N.Inv, N.Incoming, N.Client, Linked;
    match i
    case Accept =>
      N.NewSockets(0, y.server.allowHalfOpen);
      LinkedSnoc(y.socks, N.Incoming(y.server.allowHalfOpen));
    case Connect(hwm, allowHalfOpen) =>
      N.NewSockets(hwm, allowHalfOpen);
      LinkedSnoc(y.socks, N.Client(hwm, allowHalfOpen));
    case On(k, si) => OnInv(y, k, si);
    case _ =>
  }

  /** The input destroys a live accepted socket. */
  predicate Releases(y: System, i: Input)
    requires Enabled(y, i)
  {
    i.On? && y.socks[i.k].accepted && !y.socks[i.k].destroyed && N.Step(y.socks[i.k], i.i).destroyed
  }

  /**
   Everything that an input changes in the server: a failed listen() leaves a closed handle
   held; the count follows accepted and destroyed sockets; and 'close' is scheduled by a
   close() or by the end of an accepted socket that leaves neither handle nor socket.
   */
  lemma ServerMoves(y: System, i: Input)
    requires Inv(y) && Enabled(y, i)
    ensures var v, v' := y.server, Step(y, i).server;
            && (v'.handle <==> i.Listen? || (v.handle && !i.CloseServer?))
            && (v'.listening <==> if i.Listen? then i.ok else v.listening && !i.CloseServer?)
            && v'.allowHalfOpen == v.allowHalfOpen
            && v'.count == v.count + (if i.Accept? then 1 else 0) - (if Releases(y, i) then 1 else 0)
            && v'.closeCalls == (if i.Listen? then 0 else if i.CloseServer? then v.closeCalls + 1 else v.closeCalls)
            && v'.scheduled == (if i.Listen? then 0
                                else if (i.CloseServer? || Releases(y, i)) && !v'.handle && v'.count == 0
                                then v.scheduled + 1
                                else v.scheduled)
  {
    hide N.Inv, N.Step, N.Incoming, N.Client, Linked;
    StepInv(y, i);
    LinkedZero(y.socks);
    if i.On? {
      assert N.Inv(y.socks[i.k]);
      LinkIsFinal(y.socks[i.k], i.i);
      LinkFollows(y.socks[i.k]);
      LinkFollows(N.Step(y.socks[i.k], i.i));
      assert N.Keeps(y.socks[i.k], N.Step(y.socks[i.k], i.i));
    }
  }

  lemma LinkFollows(s: N.Socket)
    requires N.Inv(s)
    ensures s.linked <==> s.accepted && !s.destroyed
  {
  }

  /** A connection adds a live socket that has the server's choice; no other socket is touched. */
  lemma SocketsMove(y: System, i: Input)
    requires Enabled(y, i)
    ensures var old', new' := y.socks, Step(y, i).socks;
            && |new'| == |old'| + (if i.Accept? || i.Connect? then 1 else 0)
            && (forall k :: 0 <= k < |old'| && !(i.On? && i.k == k) ==> new'[k] == old'[k])
            && (i.On? ==> new'[i.k] == N.Step(old'[i.k], i.i))
            && (i.Accept? ==> var s := new'[|old'|];
                              s.accepted && s.linked && !s.destroyed && s.connected
                              && s.allowHalfOpen == y.server.allowHalfOpen)
            && (i.Connect? ==> var s := new'[|old'|];
                               !s.accepted && !s.linked && s.connecting && s.allowHalfOpen == i.allowHalfOpen)
  {
    hide N.Step, W.Step;
  }

  /** The count is the number of live accepted sockets, in every state of every run. */
  lemma {:induction false} RunInv(y: System, run: seq<Input>)
    requires Inv(y) && Allowed(y, run)
    ensures Inv(Run(y, run)) && Run(y, run).server.count == Linked(Run(y, run).socks) >= 0
    decreases |run|
  {
    if run != [] {
      StepInv(y, run[0]);
      RunInv(Step(y, run[0]), run[1..]);
    }
  }

  /**
   'close' is on its way exactly when close() was called and every accepted socket
   is destroyed, and it is emitted at most as often as close() was called.
   */
  lemma CloseExactlyWhenDrained(allowHalfOpen: bool, run: seq<Input>)
    requires Allowed(Init(allowHalfOpen), run)
    ensures var y := Run(Init(allowHalfOpen), run);
            && 0 <= y.server.count
            && y.server.scheduled <= y.server.closeCalls
            && (y.server.scheduled > 0 <==>
                  && y.server.closeCalls > 0
                  && forall k :: 0 <= k < |y.socks| && y.socks[k].accepted ==> y.socks[k].destroyed)
  {
    var y := Run(Init(allowHalfOpen), run);
    RunInv(Init(allowHalfOpen), run);
    LinkedZero(y.socks);
    forall k | 0 <= k < |y.socks|
      ensures y.socks[k].linked <==> y.socks[k].accepted && !y.socks[k].destroyed
    {
      assert N.Inv(y.socks[k]);
    }
  }

  // ------------------------------------------------------ a second 'close' event

  /** close() was called, and neither the handle nor any accepted socket is left. */
  predicate Drained(y: System) {
    y.server.closeCalls > 0 && !y.server.handle && y.server.count == 0
  }

  predicate NoListen(run: seq<Input>) {
    forall k :: 0 <= k < |run| ==> !run[k].Listen?
  }

  /** The run calls close() on a drained server, and listen() not after that. */
  predicate ClosesAgain(y: System, run: seq<Input>)
    requires Allowed(y, run)
    decreases |run|
  {
    run != [] &&
    ((run[0].CloseServer? && Drained(y) && NoListen(run[1..])) || ClosesAgain(Step(y, run[0]), run[1..]))
  }

  lemma StepSchedules(y: System, i: Input)
    requires Inv(y) && Enabled(y, i)
    ensures Step(y, i).server.scheduled > 1
       <==> (!i.Listen? && y.server.scheduled > 1) || (i.CloseServer? && Drained(y))
  {
    hide N.Step, N.Inv;
    LinkedZero(y.socks);
  }

  lemma NoListenCons(run: seq<Input>)
    requires run != []
    ensures NoListen(run) <==> !run[0].Listen? && NoListen(run[1..])
  {
    if !run[0].Listen? && NoListen(run[1..]) {
      forall k | 0 <= k < |run|
        ensures !run[k].Listen?
      {
        if k > 0 { assert run[k] == run[1..][k - 1]; }
      }
    }
  }

  /**
   More than one 'close' event is scheduled since the last listen() if and only if
   close() was called on a server that was already drained.
   */
  lemma {:induction false} ClosedAgain(y: System, run: seq<Input>)
    requires Inv(y) && Allowed(y, run)
    ensures Run(y, run).server.scheduled > 1
       <==> (y.server.scheduled > 1 && NoListen(run)) || ClosesAgain(y, run)
    decreases |run|
  {
    if run != [] {
      StepInv(y, run[0]);
      StepSchedules(y, run[0]);
      NoListenCons(run);
      ClosedAgain(Step(y, run[0]), run[1..]);
    }
  }

  /** From a new server: the event is scheduled twice or more exactly in such runs. */
  lemma CloseTwice(allowHalfOpen: bool, run: seq<Input>)
    requires Allowed(Init(allowHalfOpen), run)
    ensures Run(Init(allowHalfOpen), run).server.scheduled > 1 <==> ClosesAgain(Init(allowHalfOpen), run)
  {
    ClosedAgain(Init(allowHalfOpen), run);
  }

  /** listen() and two calls of close() are such a run. */
  lemma CloseTwiceIsReachable(allowHalfOpen: bool)
    ensures var run := [Listen(true), CloseServer, CloseServer];
            Allowed(Init(allowHalfOpen), run) && ClosesAgain(Init(allowHalfOpen), run)
  {
    var run := [Listen(true), CloseServer, CloseServer];
    assert run[1..] == [CloseServer, CloseServer];
    assert run[1..][1..] == [CloseServer];
    assert run[1..][1..][1..] == [];
  }

  // ------------------------------------------------------------ graceful close

  predicate Clean(y: System, run: seq<Input>)
    decreases |run|
  {
    run == [] ||
    (&& Enabled(y, run[0])
     && (run[0].On? ==> !(W.Window(y.socks[run[0].k].w) && T.Chunk(run[0].i).Some?))
     && Clean(Step(y, run[0]), run[1..]))
  }

  ghost predicate AllGraceful(y: System) {
    Inv(y) && forall k :: 0 <= k < |y.socks| ==> W.Graceful(y.socks[k].w)
  }

  lemma StepAllGraceful(y: System, i: Input)
    requires AllGraceful(y) && Clean(y, [i])
    ensures AllGraceful(Step(y, i))
  {
    hide N.Step, N.Inv, N.Incoming, N.Client, W.Graceful, Linked;
    StepInv(y, i);
    match i
    case Accept => N.NewSockets(0, y.server.allowHalfOpen);
    case Connect(hwm, allowHalfOpen) => N.NewSockets(hwm, allowHalfOpen);
    case On(k, si) =>
      assert N.Inv(y.socks[k]);
      T.StepGraceful(y.socks[k], si);
    case _ =>
  }

  /**
   In every state of every run without a write in a window, whatever the sockets and
   the server do meanwhile: no handle is closed twice, and none with data outstanding.
   */
  lemma {:induction false} EveryCloseIsGraceful(y: System, run: seq<Input>)
    requires AllGraceful(y) && Clean(y, run)
    ensures Allowed(y, run)
    ensures forall k :: 0 <= k < |Run(y, run).socks| ==> T.ClosedGracefully(Run(y, run).socks[k])
    decreases |run|
  {
    if run == [] {
      forall k | 0 <= k < |y.socks|
        ensures T.ClosedGracefully(y.socks[k])
      {
        assert N.Inv(y.socks[k]);
        T.GracefulClose(y.socks[k], []);
      }
    } else {
      assert Clean(y, [run[0]]) by { assert [run[0]][1..] == []; }
      StepAllGraceful(y, run[0]);
      EveryCloseIsGraceful(Step(y, run[0]), run[1..]);
    }
  }

  // ---------------------------------------------- a leaked socket pins the server

  predicate Spares(k: nat, run: seq<Input>) {
    forall j :: 0 <= j < |run| ==> run[j] != On(k, N.Destroy)
  }

  lemma PinnedNow(y: System, k: nat)
    requires Inv(y) && k < |y.socks| && y.socks[k].accepted && !y.socks[k].destroyed
    ensures y.server.scheduled == 0
  {
    LinkFollows(y.socks[k]);
    LinkedZero(y.socks);
  }

  /**
   The documentation promises that a closed server finally emits 'close'.  With
   one stuck accepted socket it never does, whatever else happens, unless that
   socket is destroyed explicitly.
   */
  lemma {:induction false} StuckSocketPinsServer(y: System, k: nat, run: seq<Input>)
    requires Inv(y) && k < |y.socks| && y.socks[k].accepted && T.Stuck(y.socks[k])
    requires Allowed(y, run) && Spares(k, run)
    ensures Run(y, run).server.scheduled == 0
    decreases |run|
  {
    hide N.Step, N.Inv, W.Step;
    if run == [] {
      PinnedNow(y, k);
    } else {
      StepInv(y, run[0]);
      SocketsMove(y, run[0]);
      if run[0].On? && run[0].k == k {
        assert run[0] != On(k, N.Destroy);
        T.StuckStep(y.socks[k], run[0].i);
        assert N.Keeps(y.socks[k], N.Step(y.socks[k], run[0].i));
      }
      StuckSocketPinsServer(Step(y, run[0]), k, run[1..]);
    }
  }
}
