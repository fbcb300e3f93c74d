/**
 What each call of a readable stream does, read off the call: which bytes the stream
 takes, when it delivers them, and which events it emits.
 */
module ReadableEffects {
  import opened Prelude
  import opened ReadableSpec

  // ------------------------------------------------------------- single calls

  /** The history only grows. */
  lemma {:induction false} LogGrows(s: State, op: Op)
    ensures s.log <= Exec(s, op).log
    decreases op, 1
  {
    hide Flatten;
    match op
    case Push(chunk, onData) => EmitDataGrows(Emit(s, Accepted(chunk)), chunk, onData);
    case Resume(onData) => EmitDataGrows(TakeAll(s.(flowing := true)), Flatten(s.buffer), onData);
    case _ =>
  }

  lemma {:induction false} LogGrowsAll(s: State, ops: seq<Op>)
    ensures s.log <= ExecAll(s, ops).log
    decreases ops, 0
  {
    if ops != [] {
      LogGrows(s, ops[0]);
      LogGrowsAll(Exec(s, ops[0]), ops[1..]);
    }
  }

  lemma {:induction false} EmitDataGrows(s: State, data: seq<byte>, onData: seq<Op>)
    ensures s.log <= EmitData(s, data, onData).log
    ensures Length(s) == 0 ==> s.log + [Data(data)] <= EmitData(s, data, onData).log
    decreases onData, 2
  {
    LogGrowsAll(Emit(s, Data(data)), onData);
  }

  /**
   Until EOF every pushed chunk is taken: a flowing stream emits it at once, a paused one
   keeps it behind the bytes it has.  After EOF it is refused.
   */
  lemma PushTakes(s: State, chunk: seq<byte>, onData: seq<Op>)
    requires Inv(s)
    ensures var s' := Exec(s, Push(chunk, onData));
            if s.ended then s' == Emit(s, PushAfterEof)
            else if s.flowing then s.log + [Accepted(chunk), Data(chunk)] <= s'.log
            else && s'.log == s.log + [Accepted(chunk), Readable]
                 && Flatten(s'.buffer) == Flatten(s.buffer) + chunk && !s'.flowing && !s'.ended
  {
    hide Flatten, Orderly;
    if !s.ended {
      if s.flowing {
        EmitDataGrows(Emit(s, Accepted(chunk)), chunk, onData);
        assert s.log + [Accepted(chunk), Data(chunk)] == s.log + [Accepted(chunk)] + [Data(chunk)];
      } else {
        FlattenSnoc(s.buffer, chunk);
        assert s.log + [Accepted(chunk), Readable] == s.log + [Accepted(chunk)] + [Readable];
      }
    }
  }

  /** resume() emits all that is buffered as one chunk, then a due 'end'. */
  lemma ResumeReleases(s: State, onData: seq<Op>)
    requires Quiescent(s)
    ensures var s' := Exec(s, Resume(onData));
            if s.flowing then s' == s
            else if Length(s) == 0 then s' == s.(flowing := true)
            else s.log + [Data(Flatten(s.buffer))] <= s'.log
    ensures var s' := Exec(s, Resume([]));
            !s.flowing && Length(s) > 0 ==>
              && s'.log == s.log + [Data(Flatten(s.buffer))] + (if s.ended then [End] else [])
              && s'.flowing && s'.buffer == []
  {
    hide Books;
    if !s.flowing && Length(s) > 0 {
      var s1 := TakeAll(s.(flowing := true));
      assert s1.buffer == [] && Length(s1) == 0;
      EmitDataGrows(s1, Flatten(s.buffer), onData);
      var s2 := Emit(s1, Data(Flatten(s.buffer)));
      assert ExecAll(s2, []) == s2;
    }
  }

  /** pause() stops the flow and moves no byte. */
  lemma PauseStops(s: State)
    ensures var s' := Exec(s, Pause);
            s' == s.(flowing := false, log := s.log + if s.flowing then [Paused] else [])
  {
  }

  /**
   read(n) returns the whole buffer if `n` is absent or covers it, after a due 'end';
   it throws if `n` is a part of it; otherwise it does nothing.
   */
  lemma ReadReturns(s: State, n: Option<int>)
    requires Quiescent(s)
    ensures var s' := Exec(s, Read(n));
            if Length(s) > 0 && (n.None? || n.value >= Length(s)) then
              && s'.log == s.log + (if s.ended then [End] else []) + [Returned(Flatten(s.buffer))]
              && s' == s.(buffer := [], endEmitted := s.ended, log := s'.log)
            else if n.Some? && 0 < n.value < Length(s) then s' == s.(log := s.log + [Thrown(PartialRead)])
            else s' == s
  {
    hide Books;
    if Length(s) > 0 && (n.None? || n.value >= Length(s)) {
      assert TakeAll(s).buffer == [] && Length(TakeAll(s)) == 0;
      assert s.log + [] == s.log;
    }
  }

  /** push(null) marks the stream ended, and emits 'end' if nothing is buffered. */
  lemma EofEnds(s: State)
    requires Quiescent(s)
    ensures var s' := Exec(s, PushEof);
            && s'.log == s.log + [Eof] + (if Length(s) == 0 && !s.endEmitted then [End] else [])
            && s' == s.(ended := true, endEmitted := Length(s) == 0, log := s'.log)
  {
    hide Books;
  }

  // --------------------------------------------------------------- whole runs

  /** The operations that are performed in the course of `op`: itself, then those of its listener, if that is called. */
  function Performed(s: State, op: Op): (ops: seq<Op>)
    ensures ops != [] && ops[0] == op
    decreases op, 1
  {
    match op
    case Push(chunk, onData) =>
      [op] + if s.ended || !s.flowing then []
             else PerformedAll(Emit(Emit(s, Accepted(chunk)), Data(chunk)), onData)
    case Resume(onData) =>
      [op] + if s.flowing || Length(s) == 0 then []
             else PerformedAll(Emit(TakeAll(s.(flowing := true)), Data(Flatten(s.buffer))), onData)
    case _ => [op]
  }

  function PerformedAll(s: State, ops: seq<Op>): seq<Op>
    decreases ops, 0
  {
    if ops == [] then [] else Performed(s, ops[0]) + PerformedAll(Exec(s, ops[0]), ops[1..])
  }

  /** The bytes pushed before the first push(null). */
  function Pushed(ops: seq<Op>): seq<byte> {
    if ops == [] then []
    else
      match ops[0]
      case Push(chunk, _) => chunk + Pushed(ops[1..])
      case PushEof => []
      case _ => Pushed(ops[1..])
  }

  lemma {:induction false} PushedAppend(a: seq<Op>, b: seq<Op>)
    ensures Pushed(a + b) == Pushed(a) + if PushEof in a then [] else Pushed(b)
  {
    if a == [] {
      assert a + b == b;
    } else {
      assert (a + b)[1..] == a[1..] + b;
      PushedAppend(a[1..], b);
    }
  }

  /** What has come in by the end of a run, given the operations performed in it. */
  ghost predicate TookAll(s: State, s': State, ops: seq<Op>) {
    && BytesIn(s'.log) == BytesIn(s.log) + (if s.ended then [] else Pushed(ops))
    && (s'.ended <==> s.ended || PushEof in ops)
  }

  lemma TookBoth(s: State, s1: State, s2: State, a: seq<Op>, b: seq<Op>)
    requires TookAll(s, s1, a) && TookAll(s1, s2, b)
    ensures TookAll(s, s2, a + b)
  {
    hide BytesIn;
    PushedAppend(a, b);
    assert BytesIn(s.log) + Pushed(a) + [] == BytesIn(s.log) + Pushed(a);
  }

  lemma {:induction false} EmitTakes(s: State, data: seq<byte>, onData: seq<Op>)
    requires Length(s) == 0 && Inv(Emit(s, Data(data)))
    ensures TookAll(s, EmitData(s, data, onData), PerformedAll(Emit(s, Data(data)), onData))
    decreases onData, 2
  {
    hide BytesOut, Orderly;
    var s0 := Emit(s, Data(data));
    SnocLog(s.log, Data(data));
    RunTakes(s0, onData);
    SnocLog(ExecAll(s0, onData).log, End);
    ExecAllInv(s0, onData);
  }

  lemma {:induction false} StepTakes(s: State, op: Op)
    requires Inv(s)
    ensures TookAll(s, Exec(s, op), Performed(s, op))
    decreases op, 1
  {
    hide BytesIn, BytesOut, Orderly, Flatten;
    match op
    case Push(chunk, onData) => PushStepTakes(s, chunk, onData);
    case PushEof =>
      SnocLog(s.log, Eof);
      SnocLog(s.log + [Eof], End);
      PushedNone(op);
    case Pause => SnocLog(s.log, Paused); PushedNone(op);
    case Resume(onData) =>
      PushedNone(op);
      if !s.flowing && Length(s) > 0 {
        var s1 := TakeAll(s.(flowing := true));
        assert Length(s1) == 0 by { NothingLeft(s1); }
        DeliverInv(s, s1, Flatten(s.buffer));
        EmitTakes(s1, Flatten(s.buffer), onData);
        TookBoth(s, s1, Exec(s, op), [op], PerformedAll(Emit(s1, Data(Flatten(s.buffer))), onData));
      }
    case Read(n) =>
      SnocLog(s.log, Thrown(PartialRead));
      SnocLog(s.log, End);
      SnocLog(s.log, Returned(Flatten(s.buffer)));
      SnocLog(s.log + [End], Returned(Flatten(s.buffer)));
      PushedNone(op);
  }

  lemma NothingLeft(s: State)
    requires s.buffer == []
    ensures Length(s) == 0
  {
  }

  lemma PushedNone(op: Op)
    requires !op.Push?
    ensures Pushed([op]) == []
  {
  }

  lemma {:induction false} PushStepTakes(s: State, chunk: seq<byte>, onData: seq<Op>)
    requires Inv(s)
    ensures TookAll(s, Exec(s, Push(chunk, onData)), Performed(s, Push(chunk, onData)))
    decreases Push(chunk, onData), 0
  {
    hide BytesIn, BytesOut, Orderly, Flatten, EmitData, ExecAll;
    var op := Push(chunk, onData);
    PushedOne(chunk, onData);
    SnocLog(s.log, PushAfterEof);
    SnocLog(s.log, Accepted(chunk));
    if !s.ended && s.flowing {
      var s1 := Emit(s, Accepted(chunk));
      OrderlySnoc(s.log, Accepted(chunk));
      DeliverInv(s1, s1, chunk);
      EmitTakes(s1, chunk, onData);
      TookBoth(s, s1, Exec(s, op), [op], PerformedAll(Emit(s1, Data(chunk)), onData));
    } else {
      SnocLog(s.log + [Accepted(chunk)], Readable);
    }
  }

  lemma PushedOne(chunk: seq<byte>, onData: seq<Op>)
    ensures Pushed([Push(chunk, onData)]) == chunk
  {
    assert Pushed([Push(chunk, onData)][1..]) == [];
  }

  /** Every run takes exactly the bytes pushed before push(null), by whomever they are pushed. */
  lemma {:induction false} RunTakes(s: State, ops: seq<Op>)
    requires Inv(s)
    ensures TookAll(s, ExecAll(s, ops), PerformedAll(s, ops))
    decreases ops, 0
  {
    if ops != [] {
      StepTakes(s, ops[0]);
      ExecInv(s, ops[0]);
      RunTakes(Exec(s, ops[0]), ops[1..]);
      TookBoth(s, Exec(s, ops[0]), ExecAll(s, ops),
               Performed(s, ops[0]), PerformedAll(Exec(s, ops[0]), ops[1..]));
    }
  }

  /** A new stream, any run: the bytes that came out and those still buffered are the bytes pushed. */
  lemma EveryByte(ops: seq<Op>)
    ensures var s := ExecAll(Init, ops);
            BytesOut(s.log) + Flatten(s.buffer) == Pushed(PerformedAll(Init, ops))
  {
    hide ExecAll, PerformedAll, Pushed, Orderly;
    EveryRun(ops);
    RunTakes(Init, ops);
    var s := ExecAll(Init, ops);
    assert Inv(s) && BytesIn(Init.log) == [];
  }

  /** No listener calls back. */
  predicate Plain(ops: seq<Op>) {
    forall k :: 0 <= k < |ops| ==>
      (ops[k].Push? ==> ops[k].onData == []) && (ops[k].Resume? ==> ops[k].onData == [])
  }

  /** Then the operations performed are the ones of the run. */
  lemma {:induction false} PlainPerformed(s: State, ops: seq<Op>)
    requires Plain(ops)
    ensures PerformedAll(s, ops) == ops
    decreases |ops|
  {
    if ops != [] {
      PlainPerformed(Exec(s, ops[0]), ops[1..]);
      assert Performed(s, ops[0]) == [ops[0]];
      assert ops == [ops[0]] + ops[1..];
    }
  }
}
