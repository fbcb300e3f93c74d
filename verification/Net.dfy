/**
 Sockets and servers as the library implements them.  Each method is proved to
 take the step of NetSpec on the socket and of ServerSpec on its server.
 */
module Net {
  import opened Prelude
  import opened WritableStream
  import opened ReadableStream
  import W = WritableSpec
  import R = ReadableSpec
  import N = NetSpec
  import V = ServerSpec
  import NetEffects

  datatype ReadEvent = Chunk(data: seq<byte>) | EndOfFile | Failure

  class Server {
    const allowHalfOpen: bool
    var handle: bool
    var listening: bool
    var socketCount: int

    ghost var closeCalls: nat
    ghost var scheduled: nat

    ghost function View(): V.Server
      reads this
    {
      V.Server(allowHalfOpen, handle, listening, socketCount, closeCalls, scheduled)
    }

    constructor (allowHalfOpen: bool)
      ensures View() == V.Init(allowHalfOpen).server
    {
      this.allowHalfOpen := allowHalfOpen;
      handle, listening, socketCount, closeCalls, scheduled := false, false, 0, 0, 0;
    }

    /** Returns the error of bind or of listen; the handle is closed then, and still held. */
    method Listen(bindErr: int, listenErr: int) returns (err: int)
      modifies this
      ensures err == if bindErr != 0 then bindErr else listenErr
      ensures View() == V.ServerListen(old(View()), err == 0)
    {
      closeCalls, scheduled := 0, 0;
      if !handle {
        handle := true;
      }
      if bindErr != 0 {
        listening := false;
        return bindErr;
      }
      listening := listenErr == 0;
      return listenErr;
    }

    method Close()
      modifies this
      ensures View() == V.ServerClose(old(View()))
    {
      closeCalls := closeCalls + 1;
      if handle {
        handle, listening := false, false;
      }
      EmitCloseIfDrained();
    }

    method EmitCloseIfDrained()
      modifies `scheduled
      ensures View() == V.EmitCloseIfDrained(old(View()))
    {
      if handle || socketCount > 0 {
        return;
      }
      scheduled := scheduled + 1;
    }

    /** The listening handle delivered a connection. */
    method OnConnection() returns (socket: Socket)
      requires listening
      modifies this
      ensures fresh(socket) && fresh(socket.w) && fresh(socket.r)
      ensures socket.Valid() && socket.View() == N.Incoming(allowHalfOpen) && socket.server == this
      ensures View() == old(View()).(count := old(socketCount) + 1)
    {
      hide Writable.Valid, Readable.Valid, W.Step;
      socket := new Socket(None, allowHalfOpen, false, this);
      socket.w.ReadyToWrite();
      socketCount := socketCount + 1;
    }
  }

  class Socket {
    const w: Writable
    const r: Readable
    var connecting: bool
    var connected: bool
    var writable: bool
    var readable: bool
    var destroyed: bool
    const allowHalfOpen: bool
    var server: Server?
    var finishListeners: nat  // one-shot 'finish' listeners that call destroy()

    ghost const accepted: bool
    ghost var closes: nat
    ghost var shutdowns: nat

    ghost function View(): N.Socket
      reads this, w, r
    {
      N.Socket(w.View(), r.View(), connecting, connected, writable, readable, destroyed, allowHalfOpen,
               finishListeners, server != null, accepted, closes, shutdowns)
    }

    ghost predicate Valid()
      reads this, w, r
    {
      w.Valid() && r.Valid() && (w.ending || w.ended ==> !writable)
    }

    /** The effect of a step on the server that the socket pointed to before it. */
    twostate predicate ServerFollows(srv: Server?)
      reads this, srv
    {
      && (server == null || server == srv)
      && (srv != null ==> srv.View() == V.Released(old(srv.View()), true, server != null))
    }

    /** A connected socket for a server, or a client socket that has begun to connect. */
    constructor (hwm: Option<int>, allowHalfOpen: bool, connecting: bool, server: Server?)
      requires connecting <==> server == null
      ensures fresh(w) && fresh(r) && w.Valid() && r.Valid()
      ensures this.server == server
      ensures var size := if hwm.Some? then hwm.value else DEFAULT_HIGH_WATER_MARK;
              View() == N.Client(size, allowHalfOpen).(connecting := connecting,
                                                       connected := !connecting,
                                                       linked := server != null,
                                                       accepted := server != null)
    {
      hide Writable.Valid, Readable.Valid;
      w := new Writable(hwm);
      r := new Readable();
      this.connecting, connected := connecting, !connecting;
      writable, readable, destroyed := true, true, false;
      this.allowHalfOpen := allowHalfOpen;
      this.server := server;
      finishListeners := 0;
      accepted := server != null;
      closes, shutdowns := 0, 0;
    }

    method Write(req: W.WriteReq) returns (res: bool)
      requires Valid()
      modifies w
      ensures Valid() && View() == N.Step(old(View()), N.Write(req))
      ensures res <==> !old(w.ended) && !W.OwedDrain(w.log)
    {
      hide Writable.Valid, Readable.Valid, W.Step, W.OwedDrain;
      res := w.Write(req);
    }

    method End(last: Option<W.WriteReq>)
      requires Valid()
      modifies this, w
      ensures Valid() && View() == N.EndSocket(old(View()), last)
      ensures server == old(server)
    {
      hide R.Inv, W.Books, W.NoLostWakeup, W.Step, W.Reqs;
      w.End(last);
      writable := false;
    }

    method Destroy()
      requires Valid()
      modifies this, w, server
      ensures Valid() && View() == N.DestroySocket(old(View()))
      ensures ServerFollows(old(server))
    {
      hide Writable.Valid, Readable.Valid, W.Step;
      if destroyed {
        return;
      }
      if writable {
        End(None);
      }
      if w.ended {
        CloseHandle();
        destroyed := true;
      } else {
        finishListeners := finishListeners + 1;
      }
    }

    method DestroySoon()
      requires Valid()
      modifies this, w
      ensures Valid() && View() == N.DestroySocketSoon(old(View()))
      ensures server == old(server)
    {
      hide Writable.Valid, Readable.Valid, W.Step;
      if writable {
        End(None);
      }
      finishListeners := finishListeners + 1;
    }

    method CloseHandle()
      modifies this, server
      ensures View() == N.CloseHandle(old(View()))
      ensures ServerFollows(old(server))
    {
      closes := closes + 1;
      if server != null {
        server.socketCount := server.socketCount - 1;
        server.EmitCloseIfDrained();
        server := null;
      }
    }

    method MaybeDestroy()
      requires Valid()
      modifies this, w, server
      ensures Valid() && View() == N.MaybeDestroy(old(View()))
      ensures ServerFollows(old(server))
    {
      if !connecting && !writable && !readable {
        Destroy();
      }
    }

    /** The socket's own 'finish' listener. */
    method OnSocketFinish()
      requires Valid() && w.ended
      modifies this, w, server
      ensures Valid() && w.ended && w.View() == old(w.View())
      ensures View() == if !old(readable) || old(r.ended) then N.DestroySocket(old(View()))
                        else old(View()).(shutdowns := old(shutdowns) + if old(connected) then 1 else 0)
      ensures ServerFollows(old(server))
    {
      hide Writable.Valid, Readable.Valid, W.Step;
      if !readable || r.ended {
        Destroy();
      } else {
        shutdowns := shutdowns + if connected then 1 else 0;
      }
    }

    /** The wrapper that once() installs: it removes itself and calls destroy(). */
    method RunDestroyer(ghost s: N.Socket)
      requires Valid() && w.ended && finishListeners > 0
      requires View() == s.(destroyers := finishListeners)
      modifies this, w, server
      ensures Valid() && w.ended && destroyed
      ensures View() == N.DestroySocket(s).(destroyers := old(finishListeners) - 1)
      ensures s.destroyed ==> N.DestroySocket(s) == s && server == old(server)
      ensures ServerFollows(old(server))
    {
      hide Writable.Valid, Readable.Valid, W.Step, V.Released, Server.View;
      finishListeners := finishListeners - 1;
      Destroy();
    }

    /** emit('finish') calls the one-shot destroyers that were registered before. */
    method RunDestroyers()
      requires Valid() && w.ended
      modifies this, w, server
      ensures Valid()
      ensures View() == if old(finishListeners) > 0 then N.DestroySocket(old(View())).(destroyers := 0)
                        else old(View())
      ensures ServerFollows(old(server))
    {
      hide Valid, W.Step, N.DestroySocket, Writable.View, Readable.View;
      ghost var before, srv := View(), server;
      var listeners := finishListeners;
      var i := 0;
      while i < listeners
        invariant 0 <= i <= listeners && finishListeners == listeners - i
        invariant Valid() && w.ended
        invariant i == 0 ==> View() == before && unchanged(this) && (srv != null ==> unchanged(srv))
        invariant i > 0 ==> destroyed && View() == N.DestroySocket(before).(destroyers := listeners - i)
        invariant i > 0 ==> ServerFollows(srv)
      {
        ghost var s := if i == 0 then before else N.DestroySocket(before);
        RunDestroyer(s);
        i := i + 1;
      }
    }

    /** emit('finish') with the listeners in registration order. */
    method EmitFinish()
      requires Valid() && w.ended
      modifies this, w, server
      ensures Valid() && View() == N.OnFinish(old(View()))
      ensures ServerFollows(old(server))
    {
      hide Writable.Valid, Readable.Valid, W.Step;
      OnSocketFinish();
      RunDestroyers();
    }

    /** Runs the listeners if the writable half has emitted 'finish' as its last act. */
    method AfterWritable(wasEnded: bool, ghost s: N.Socket)
      requires Valid() && View() == s.(w := w.View())
      requires wasEnded == s.w.ended
      modifies this, w, server
      ensures Valid() && View() == N.WithW(s, old(w.View()))
      ensures ServerFollows(old(server))
    {
      hide Writable.Valid, Readable.Valid, N.OnFinish;
      if w.ended && !wasEnded {
        EmitFinish();
      }
    }

    /** The handle reports that the write in flight is done. */
    method OnWritten()
      requires Valid() && w.inflight.Some?
      modifies this, w, server
      ensures Valid() && View() == N.Step(old(View()), N.Ack)
      ensures ServerFollows(old(server))
    {
      hide Writable.Valid, Readable.Valid, W.Inv, W.Step, N.Step, N.WithW, N.OnFinish,
        N.DestroySocket, V.Released, Server.View;
      ghost var s := View();
      N.CallbacksReachW(s);
      var wasEnded := w.ended;
      w.OnWrite();
      AfterWritable(wasEnded, s);
    }

    /** The tick that end() left in the queue. */
    method OnTick()
      requires Valid() && w.ticks > 0
      modifies this, w, server
      ensures Valid() && View() == N.Step(old(View()), N.Tick)
      ensures ServerFollows(old(server))
    {
      hide Writable.Valid, Readable.Valid, W.Inv, W.Step, N.Step, N.WithW, N.OnFinish,
        N.DestroySocket, V.Released, Server.View;
      ghost var s := View();
      N.CallbacksReachW(s);
      var wasEnded := w.ended;
      w.OnTick();
      AfterWritable(wasEnded, s);
    }

    method OnShutdown()
      requires Valid() && shutdowns > 0
      modifies this, w, server
      ensures Valid() && View() == N.Step(old(View()), N.ShutdownDone)
      ensures ServerFollows(old(server))
    {
      hide Writable.Valid, Readable.Valid, W.Step, N.DestroySocket;
      shutdowns := shutdowns - 1;
      if r.ended {
        Destroy();
      }
    }

    /** connect() on a socket that already has its handle. */
    method Connect()
      requires Valid()
      modifies `connecting
      ensures Valid() && View() == N.Step(old(View()), N.Connect)
      ensures server == old(server)
    {
      hide Writable.Valid, Readable.Valid;
      if connecting || connected {
        return;
      }
      connecting := true;
    }

    method OpenWritable()
      requires Valid()
      modifies `connecting, `connected, w
      ensures Valid() && View() == old(View()).(connecting := false, connected := true, w := w.View())
      ensures w.View() == W.Step(old(w.View()), W.Ready)
    {
      hide Writable.Valid, Readable.Valid, W.Inv, W.Step;
      connecting := false;
      connected := true;
      w.ReadyToWrite();
    }

    method OnSocketConnect()
      requires Valid()
      modifies this, w, server
      ensures Valid()
      ensures View() == N.WithW(old(View()).(connecting := false, connected := true), W.Step(old(w.View()), W.Ready))
      ensures ServerFollows(old(server))
    {
      hide Writable.Valid, Readable.Valid, W.Inv, W.Step, N.WithW, N.OnFinish, N.DestroySocket;
      ghost var s := View().(connecting := false, connected := true);
      var wasEnded := w.ended;
      OpenWritable();
      AfterWritable(wasEnded, s);
    }

    method AfterConnect(status: int)
      requires Valid() && connecting
      modifies this, w, server
      ensures Valid()
      ensures View() == N.Step(old(View()), if status == 0 then N.ConnectOk else N.ConnectFail)
      ensures ServerFollows(old(server))
    {
      hide Writable.Valid, Readable.Valid, W.Step, N.WithW, N.DestroySocket;
      connecting := false;
      if destroyed {
        return;
      }
      if status == 0 {
        OnSocketConnect();
      } else {
        Destroy();
      }
    }

    method OnSocketEnd()
      requires Valid()
      modifies this, w, server
      ensures Valid() && View() == N.OnEnd(old(View()))
      ensures !allowHalfOpen ==> !writable && finishListeners > 0
      ensures allowHalfOpen && old(readable) ==> View() == old(View())
      ensures ServerFollows(old(server))
    {
      hide Writable.Valid, Readable.Valid, W.Step;
      MaybeDestroy();
      if !allowHalfOpen {
        DestroySoon();
      }
    }

    /** One operation on the readable half, followed by the socket's 'end' listener if it fired. */
    method Receive(op: R.Op)
      requires Valid()
      modifies this, w, r, server
      ensures Valid() && View() == N.WithR(old(View()), op)
      ensures ServerFollows(old(server))
    {
      hide Writable.Valid, Readable.Valid, W.Step, R.Exec;
      var wasEnded := r.endEmitted;
      r.Perform(op);
      if r.endEmitted && !wasEnded {
        OnSocketEnd();
      }
    }

    method OnReadEof()
      requires Valid() && connected && !r.ended && !destroyed
      modifies this, w, r, server
      ensures Valid() && View() == N.Step(old(View()), N.Eof)
      ensures ServerFollows(old(server))
    {
      hide Writable.Valid, R.Inv, W.Step, R.Exec, N.OnEnd, N.MaybeDestroy;
      Receive(R.PushEof);
      if r.length == 0 {
        readable := false;
        MaybeDestroy();
      }
    }

    method OnReadData(data: seq<byte>)
      requires Valid() && connected && !r.ended && !destroyed
      modifies this, w, r, server
      ensures Valid() && View() == N.Step(old(View()), N.Data(data))
      ensures ServerFollows(old(server))
    {
      hide Valid, W.Step, R.Exec, N.WithR;
      Receive(R.Push(data, []));
    }

    ghost function Seen(event: ReadEvent): N.Input {
      match event
      case Chunk(data) => N.Data(data)
      case EndOfFile => N.Eof
      case Failure => N.ReadError
    }

    /** What the handle reports to a connected socket that is neither at its end nor destroyed. */
    method OnRead(event: ReadEvent)
      requires Valid() && N.Enabled(View(), Seen(event))
      modifies this, w, r, server
      ensures Valid() && View() == N.Step(old(View()), Seen(event))
      ensures event.Chunk? ==> old(r.log) + [R.Accepted(event.data)] <= r.log
      ensures event.EndOfFile? ==> r.ended
      ensures event.Failure? ==> View() == old(View())
      ensures ServerFollows(old(server))
    {
      N.ReadErrorChangesNothing(View());
      if event.EndOfFile? { NetEffects.EofSeen(View()); }
      if event.Chunk? { NetEffects.DataTaken(View(), event.data); }
      hide Valid, N.Step;
      match event
      case Chunk(data) => OnReadData(data);
      case EndOfFile => OnReadEof();
      case Failure =>
    }
  }
}
