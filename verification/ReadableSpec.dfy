/**
 The readable stream as an abstract machine.  A run is a list of operations in
 which every operation that can emit 'data' carries the operations that the
 'data' listener performs before it returns, to any depth: runs are trees.
 */
module ReadableSpec {
  import opened Prelude

  datatype Fault =
    | PartialRead            // read(n) with 0 < n < length: "not implemented"
    | BufferedWhileEmitting  // the assertion inside emitData
    | EndOnOpenStream        // "stream ended on non-EOF stream"

  datatype Event =
    | Accepted(chunk: seq<byte>)  // push() took the chunk
    | Data(chunk: seq<byte>)      // 'data' was emitted
    | Returned(chunk: seq<byte>)  // read() returned it to its caller
    | Eof                         // push(null)
    | End                         // 'end' was emitted
    | Readable
    | Paused
    | PushAfterEof
    | Thrown(fault: Fault)

  datatype State = State(
    buffer: seq<seq<byte>>,
    flowing: bool,
    ended: bool,
    endEmitted: bool,
    log: seq<Event>)

  datatype Op =
    | Push(chunk: seq<byte>, onData: seq<Op>)
    | PushEof
    | Pause
    | Resume(onData: seq<Op>)
    | Read(n: Option<int>)

  const Init := State([], false, false, false, [])

  function Length(s: State): nat {
    |Flatten(s.buffer)|
  }

  // ------------------------------------------------------------------ steps

  function Emit(s: State, e: Event): State {
    s.(log := s.log + [e])
  }

  function EmitEnd(s: State): State {
    if !s.ended then Emit(s, Thrown(EndOnOpenStream))
    else if s.endEmitted then s
    else Emit(s.(endEmitted := true), End)
  }

  /** Takes the whole buffer; a buffer without bytes stays as it is. */
  function TakeAll(s: State): State {
    if Length(s) == 0 then s else s.(buffer := [])
  }

  function Exec(s: State, op: Op): State
    decreases op, 1
  {
    match op
    case Push(chunk, onData) =>
      if s.ended then Emit(s, PushAfterEof)
      else if s.flowing then EmitData(Emit(s, Accepted(chunk)), chunk, onData)
      else Emit(Emit(s.(buffer := s.buffer + [chunk]), Accepted(chunk)), Readable)
    case PushEof =>
      var s1 := Emit(s.(ended := true), Eof);
      if Length(s1) == 0 then EmitEnd(s1) else s1
    case Pause =>
      if s.flowing then Emit(s.(flowing := false), Paused) else s
    case Resume(onData) =>
      if s.flowing then s
      else if Length(s) == 0 then s.(flowing := true)
      else EmitData(TakeAll(s.(flowing := true)), Flatten(s.buffer), onData)
    case Read(n) =>
      var len := Length(s);
      var wanted := if n.None? || n.value > len then len else if n.value < 0 then 0 else n.value;
      if 0 < wanted < len then Emit(s, Thrown(PartialRead))
      else
        var s1 := if wanted == 0 then s else TakeAll(s);
        var s2 := if s1.ended && Length(s1) == 0 then EmitEnd(s1) else s1;
        if wanted == 0 then s2 else Emit(s2, Returned(Flatten(s.buffer)))
  }

  function ExecAll(s: State, ops: seq<Op>): State
    decreases ops, 0
  {
    if ops == [] then s else ExecAll(Exec(s, ops[0]), ops[1..])
  }

  function EmitData(s: State, data: seq<byte>, onData: seq<Op>): State
    decreases onData, 2
  {
    if Length(s) > 0 then Emit(TakeAll(s), Thrown(BufferedWhileEmitting))
    else
      var s1 := ExecAll(Emit(s, Data(data)), onData);
      if s1.ended && Length(s1) == 0 then EmitEnd(s1) else s1
  }

  // -------------------------------------------------------------- histories

  function BytesIn(log: seq<Event>): seq<byte> {
    if log == [] then []
    else BytesIn(log[..|log| - 1]) + match log[|log| - 1] case Accepted(c) => c case _ => []
  }

  function BytesOut(log: seq<Event>): seq<byte> {
    if log == [] then []
    else
      BytesOut(log[..|log| - 1]) + match log[|log| - 1]
                                   case Data(c) => c
                                   case Returned(c) => c
                                   case _ => []
  }

  /**
   Nothing is taken after EOF; 'end' comes once; no data is emitted after it, and bytes
   are returned after it only by the call of read() that emitted it; no check fails.
   */
  ghost predicate Orderly(log: seq<Event>) {
    && (forall i, j :: 0 <= i < j < |log| && log[i] == Eof ==> !log[j].Accepted?)
    && (forall i, j :: 0 <= i < j < |log| && log[i] == End ==>
          !log[j].Data? && !log[j].End? && (log[j].Returned? ==> j == i + 1))
    && (forall i :: 0 <= i < |log| ==>
          log[i] != Thrown(BufferedWhileEmitting) && log[i] != Thrown(EndOnOpenStream))
  }

  /** Holds at every point of every run, inside listeners too. */
  ghost predicate Inv(s: State) {
    && (s.flowing ==> Length(s) == 0)
    && (s.endEmitted ==> s.ended && Length(s) == 0)
    && Books(s)
  }

  /** The history agrees with the state. */
  ghost predicate Books(s: State) {
    && BytesOut(s.log) + Flatten(s.buffer) == BytesIn(s.log)
    && (Eof in s.log <==> s.ended)
    && (End in s.log <==> s.endEmitted)
    && Orderly(s.log)
  }

  /** Holds whenever no emission is in progress. */
  ghost predicate Quiescent(s: State) {
    Inv(s) && (s.ended && Length(s) == 0 <==> s.endEmitted)
  }

  // ----------------------------------------------------------- preservation

  lemma SnocLog(log: seq<Event>, e: Event)
    ensures BytesIn(log + [e]) == BytesIn(log) + match e case Accepted(c) => c case _ => []
    ensures BytesOut(log + [e]) == BytesOut(log) + match e
                                                   case Data(c) => c
                                                   case Returned(c) => c
                                                   case _ => []
  {
    assert (log + [e])[..|log + [e]| - 1] == log;
  }

  lemma OrderlySnoc(log: seq<Event>, e: Event)
    requires Orderly(log)
    requires e.Accepted? ==> Eof !in log
    requires e.Data? || e.End? ==> End !in log
    requires e.Returned? ==> End !in log || (End !in log[..|log| - 1] && log[|log| - 1] == End)
    requires e != Thrown(BufferedWhileEmitting) && e != Thrown(EndOnOpenStream)
    ensures Orderly(log + [e])
  {
  }

  /** Events that carry no bytes and end nothing. */
  lemma NeutralInv(s: State, e: Event)
    requires Inv(s)
    requires e.Readable? || e.Paused? || e.PushAfterEof? || e == Thrown(PartialRead)
    ensures Inv(Emit(s, e))
  {
    SnocLog(s.log, e);
    OrderlySnoc(s.log, e);
  }

  lemma EmitEndInv(s: State)
    requires Inv(s) && s.ended && Length(s) == 0
    ensures Quiescent(EmitEnd(s))
  {
    if !s.endEmitted {
      SnocLog(s.log, End);
      OrderlySnoc(s.log, End);
    }
  }

  lemma EofInv(s: State)
    requires Inv(s)
    ensures Inv(Emit(s.(ended := true), Eof))
  {
    SnocLog(s.log, Eof);
    OrderlySnoc(s.log, Eof);
  }

  /** Bytes leave the stream as one chunk: the whole buffer, or a chunk that bypasses an empty one. */
  lemma DeliverInv(s: State, s1: State, data: seq<byte>)
    requires !s.endEmitted && !s1.endEmitted && s1.ended == s.ended
    requires Length(s1) == 0
    requires (Eof in s.log <==> s.ended) && End !in s.log && Orderly(s.log)
    requires BytesOut(s.log) + data == BytesIn(s.log)
    requires s1.log == s.log
    ensures Inv(Emit(s1, Data(data)))
  {
    SnocLog(s.log, Data(data));
    OrderlySnoc(s.log, Data(data));
  }

  lemma ReturnOpenInv(s: State)
    requires Inv(s) && Length(s) > 0 && !s.ended
    ensures Quiescent(Emit(s.(buffer := []), Returned(Flatten(s.buffer))))
  {
    hide BytesIn, BytesOut, Orderly;
    SnocLog(s.log, Returned(Flatten(s.buffer)));
    OrderlySnoc(s.log, Returned(Flatten(s.buffer)));
  }

  /** With EOF pending, read() emits 'end' before it returns the bytes it took. */
  lemma ReturnAtEofInv(s: State)
    requires Inv(s) && Length(s) > 0 && s.ended
    ensures Quiescent(Emit(Emit(s.(buffer := [], endEmitted := true), End), Returned(Flatten(s.buffer))))
  {
    hide BytesIn, BytesOut, Orderly;
    var log' := s.log + [End];
    SnocLog(s.log, End);
    OrderlySnoc(s.log, End);
    assert log'[..|s.log|] == s.log;
    SnocLog(log', Returned(Flatten(s.buffer)));
    OrderlySnoc(log', Returned(Flatten(s.buffer)));
    assert End in log' && Eof in log';
  }

  lemma BufferInv(s: State, chunk: seq<byte>)
    requires Inv(s) && !s.ended && !s.flowing
    ensures Inv(Emit(s.(buffer := s.buffer + [chunk]), Accepted(chunk)))
  {
    SnocLog(s.log, Accepted(chunk));
    OrderlySnoc(s.log, Accepted(chunk));
    FlattenSnoc(s.buffer, chunk);
  }

  lemma {:induction false} ReadInv(s: State, n: Option<int>)
    requires Inv(s)
    ensures Inv(Exec(s, Read(n)))
    ensures Quiescent(s) ==> Quiescent(Exec(s, Read(n)))
  {
    hide Books;
    var len := Length(s);
    var wanted := if n.None? || n.value > len then len else if n.value < 0 then 0 else n.value;
    if 0 < wanted < len {
      NeutralInv(s, Thrown(PartialRead));
    } else if wanted > 0 {
      if s.ended { ReturnAtEofInv(s); } else { ReturnOpenInv(s); }
    } else if s.ended && Length(s) == 0 {
      EmitEndInv(s);
    }
  }

  lemma {:induction false} EmitDataInv(s: State, data: seq<byte>, onData: seq<Op>)
    requires Length(s) == 0 && Inv(Emit(s, Data(data)))
    ensures Quiescent(EmitData(s, data, onData))
    decreases onData, 2
  {
    ExecAllInv(Emit(s, Data(data)), onData);
    var s1 := ExecAll(Emit(s, Data(data)), onData);
    if s1.ended && Length(s1) == 0 { EmitEndInv(s1); }
  }

  lemma {:induction false} ExecInv(s: State, op: Op)
    requires Inv(s)
    ensures Inv(Exec(s, op))
    ensures Quiescent(s) ==> Quiescent(Exec(s, op))
    decreases op, 1
  {
    hide BytesIn, BytesOut, Orderly, ExecAll;
    match op
    case Push(chunk, onData) =>
      if s.ended {
        NeutralInv(s, PushAfterEof);
      } else if s.flowing {
        var s1 := Emit(s, Accepted(chunk));
        SnocLog(s.log, Accepted(chunk));
        OrderlySnoc(s.log, Accepted(chunk));
        DeliverInv(s1, s1, chunk);
        EmitDataInv(s1, chunk, onData);
      } else {
        BufferInv(s, chunk);
        NeutralInv(Emit(s.(buffer := s.buffer + [chunk]), Accepted(chunk)), Readable);
      }
    case PushEof =>
      EofInv(s);
      var s1 := Emit(s.(ended := true), Eof);
      if Length(s1) == 0 { EmitEndInv(s1); }
    case Pause =>
      if s.flowing { NeutralInv(s.(flowing := false), Paused); }
    case Resume(onData) =>
      if !s.flowing && Length(s) > 0 {
        var s1 := TakeAll(s.(flowing := true));
        DeliverInv(s, s1, Flatten(s.buffer));
        EmitDataInv(s1, Flatten(s.buffer), onData);
      }
    case Read(n) => ReadInv(s, n);
  }

  lemma {:induction false} ExecAllInv(s: State, ops: seq<Op>)
    requires Inv(s)
    ensures Inv(ExecAll(s, ops))
    ensures Quiescent(s) ==> Quiescent(ExecAll(s, ops))
    decreases ops, 0
  {
    if ops != [] {
      ExecInv(s, ops[0]);
      ExecAllInv(Exec(s, ops[0]), ops[1..]);
    }
  }

  /**
   Every run, with any listener behaviour: each accepted byte comes out once and
   in order, 'end' is emitted once, exactly when EOF was seen and the buffer is
   empty, no data is emitted after it, and the two internal checks never fail.
   */
  lemma EveryRun(ops: seq<Op>)
    ensures Quiescent(ExecAll(Init, ops))
  {
    ExecAllInv(Init, ops);
  }

  // ------------------------------------------------------------------- ends

  /** A read of part of the buffer throws and changes nothing else. */
  lemma PartialReadChangesNothing(s: State, n: int)
    requires 0 < n < Length(s)
    ensures Exec(s, Read(Some(n))) == Emit(s, Thrown(PartialRead))
    ensures Inv(s) ==> Inv(Exec(s, Read(Some(n))))
  {
    if Inv(s) { NeutralInv(s, Thrown(PartialRead)); }
  }

  /**
   With EOF behind buffered bytes, one resume or one full read releases them and
   'end'.  A resume does it in that order; a read emits 'end' before it returns them.
   */
  lemma ReleaseEnd(s: State, n: Option<int>)
    requires Quiescent(s) && s.ended && Length(s) > 0
    requires n.Some? ==> n.value >= Length(s)
    ensures Exec(s, Resume([])).log == s.log + [Data(Flatten(s.buffer)), End]
    ensures Exec(s, Read(n)).log == s.log + [End, Returned(Flatten(s.buffer))]
  {
    hide Books, Exec;
    ResumeAtEof(s);
    ReadAtEof(s, n);
  }

  lemma ResumeAtEof(s: State)
    requires s.ended && Length(s) > 0 && !s.flowing && !s.endEmitted
    ensures Exec(s, Resume([])).log == s.log + [Data(Flatten(s.buffer)), End]
  {
    var bytes := Flatten(s.buffer);
    var s1 := TakeAll(s.(flowing := true));
    assert s1.buffer == [] && Length(s1) == 0;
    var s2 := Emit(s1, Data(bytes));
    assert ExecAll(s2, []) == s2;
    assert EmitData(s1, bytes, []) == Emit(s2.(endEmitted := true), End);
    assert s.log + [Data(bytes)] + [End] == s.log + [Data(bytes), End];
  }

  lemma ReadAtEof(s: State, n: Option<int>)
    requires s.ended && Length(s) > 0 && !s.endEmitted
    requires n.Some? ==> n.value >= Length(s)
    ensures Exec(s, Read(n)).log == s.log + [End, Returned(Flatten(s.buffer))]
  {
    var s1 := TakeAll(s);
    assert s1.buffer == [] && Length(s1) == 0;
    assert s.log + [End] + [Returned(Flatten(s.buffer))] == s.log + [End, Returned(Flatten(s.buffer))];
  }

  /** A chunk pushed to a paused stream, then EOF, are such a situation. */
  lemma EofBehindBytes(chunk: seq<byte>)
    requires chunk != []
    ensures var s := Exec(Exec(Init, Push(chunk, [])), PushEof);
            Quiescent(s) && s.ended && Length(s) > 0
  {
    ExecInv(Init, Push(chunk, []));
    ExecInv(Exec(Init, Push(chunk, [])), PushEof);
    FlattenSnoc([], chunk);
  }

  // ------------------------------------------------- bytes delivered after 'end'

  /** Some bytes reach an observer after 'end' did. */
  ghost predicate Late(log: seq<Event>) {
    exists i, j :: 0 <= i < j < |log| && log[i] == End && (log[j].Data? || log[j].Returned?)
  }

  /** The operation, or one that a listener performs during it, is a full read() with EOF pending. */
  predicate TakesRest(s: State, op: Op)
    decreases op, 1
  {
    match op
    case Push(chunk, onData) =>
      !s.ended && s.flowing && Length(s) == 0 &&
      AnyTakesRest(Emit(Emit(s, Accepted(chunk)), Data(chunk)), onData)
    case Resume(onData) =>
      !s.flowing && Length(s) > 0 &&
      AnyTakesRest(Emit(TakeAll(s.(flowing := true)), Data(Flatten(s.buffer))), onData)
    case Read(n) => s.ended && Length(s) > 0 && (n.None? || n.value >= Length(s))
    case _ => false
  }

  predicate AnyTakesRest(s: State, ops: seq<Op>)
    decreases ops, 0
  {
    ops != [] && (TakesRest(s, ops[0]) || AnyTakesRest(Exec(s, ops[0]), ops[1..]))
  }

  lemma LateSnoc(log: seq<Event>, e: Event)
    ensures Late(log + [e]) <==> Late(log) || (End in log && (e.Data? || e.Returned?))
  {
    var log' := log + [e];
    if i, j :| 0 <= i < j < |log| && log[i] == End && (log[j].Data? || log[j].Returned?) {
      assert log'[i] == End && log'[j] == log[j];
    }
    if End in log && (e.Data? || e.Returned?) {
      var i :| 0 <= i < |log| && log[i] == End;
      assert log'[i] == End && log'[|log|] == e;
    }
  }

  lemma LateEmitData(s: State, data: seq<byte>, onData: seq<Op>)
    requires Length(s) == 0 && !s.endEmitted && End !in s.log && Inv(Emit(s, Data(data)))
    ensures Late(EmitData(s, data, onData).log)
       <==> Late(s.log) || AnyTakesRest(Emit(s, Data(data)), onData)
    decreases onData, 2
  {
    var s0 := Emit(s, Data(data));
    LateSnoc(s.log, Data(data));
    LateAll(s0, onData);
    LateSnoc(ExecAll(s0, onData).log, End);
    ExecAllInv(s0, onData);
  }

  lemma LateRead(s: State, n: Option<int>)
    requires Inv(s)
    ensures Late(Exec(s, Read(n)).log) <==> Late(s.log) || TakesRest(s, Read(n))
  {
    LateSnoc(s.log, Thrown(PartialRead));
    LateSnoc(s.log, End);
    LateSnoc(s.log, Returned(Flatten(s.buffer)));
    LateSnoc(s.log + [End], Returned(Flatten(s.buffer)));
  }

  /** Bytes come after 'end' if and only if a full read() with EOF pending returns them. */
  lemma {:induction false} LateDelivery(s: State, op: Op)
    requires Inv(s)
    ensures Late(Exec(s, op).log) <==> Late(s.log) || TakesRest(s, op)
    decreases op, 1
  {
    match op
    case Push(chunk, onData) =>
      LateSnoc(s.log, PushAfterEof);
      LateSnoc(s.log, Accepted(chunk));
      LateSnoc(s.log + [Accepted(chunk)], Readable);
      if !s.ended && s.flowing {
        var s1 := Emit(s, Accepted(chunk));
        SnocLog(s.log, Accepted(chunk));
        OrderlySnoc(s.log, Accepted(chunk));
        DeliverInv(s1, s1, chunk);
        LateEmitData(s1, chunk, onData);
      }
    case PushEof =>
      LateSnoc(s.log, Eof);
      LateSnoc(s.log + [Eof], End);
    case Pause => LateSnoc(s.log, Paused);
    case Resume(onData) =>
      if !s.flowing && Length(s) > 0 {
        var s1 := TakeAll(s.(flowing := true));
        DeliverInv(s, s1, Flatten(s.buffer));
        LateEmitData(s1, Flatten(s.buffer), onData);
      }
    case Read(n) => LateRead(s, n);
  }

  /** The same over every run, listeners included. */
  lemma {:induction false} LateAll(s: State, ops: seq<Op>)
    requires Inv(s)
    ensures Late(ExecAll(s, ops).log) <==> Late(s.log) || AnyTakesRest(s, ops)
    decreases ops, 0
  {
    if ops != [] {
      LateDelivery(s, ops[0]);
      ExecInv(s, ops[0]);
      LateAll(Exec(s, ops[0]), ops[1..]);
    }
  }

  /** Whatever the listener does meanwhile, such a resume has emitted 'end' when it returns. */
  lemma ResumeEnds(s: State, onData: seq<Op>)
    requires Quiescent(s) && s.ended && Length(s) > 0
    ensures Exec(s, Resume(onData)).endEmitted
  {
    ExecInv(s, Resume(onData));
    var s1 := TakeAll(s.(flowing := true));
    DeliverInv(s, s1, Flatten(s.buffer));
    EndedStays(Emit(s1, Data(Flatten(s.buffer))), onData);
  }

  /** After EOF no operation puts bytes back. */
  lemma {:induction false} EndedStays(s: State, ops: seq<Op>)
    requires Inv(s) && s.ended && Length(s) == 0
    ensures ExecAll(s, ops).ended && Length(ExecAll(s, ops)) == 0
    decreases |ops|
  {
    if ops != [] {
      ExecInv(s, ops[0]);
      EndedStays(Exec(s, ops[0]), ops[1..]);
    }
  }
}
