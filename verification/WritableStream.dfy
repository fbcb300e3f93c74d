/**
 The writable stream as the library implements it: mutable counters and flags
 beside an array of requests.  Every method is proved to take the step of the
 abstract machine in WritableSpec.
 */
module WritableStream {
  import opened Prelude
  import opened WritableSpec
  import WritableEffects

  const DEFAULT_HIGH_WATER_MARK := 128

  class Writable {
    var buffer: seq<WriteReq>
    var length: int
    const highWaterMark: int
    var ready: bool
    var writing: bool
    var writingLength: int
    var needDrain: bool
    var ending: bool
    var ended: bool

    ghost var inflight: Option<WriteReq>  // the request the underlying stream works on
    ghost var ticks: nat                  // emitFinish callbacks in the process tick queue
    ghost var log: seq<Event>

    /** The redundant fields agree with the queue and the request in flight. */
    ghost predicate Coupled()
      reads this
    {
      && writing == inflight.Some?
      && writingLength == Size(Pending(inflight))
      && length == writingLength + Size(buffer)
    }

    ghost function View(): State
      reads this
    {
      State(highWaterMark, ready, inflight, buffer, needDrain, ending, ended, ticks, log)
    }

    ghost predicate Valid()
      reads this
    {
      Coupled() && Inv(View())
    }

    constructor (hwm: Option<int>)
      ensures Valid()
      ensures View() == Init(if hwm.Some? then hwm.value else DEFAULT_HIGH_WATER_MARK)
    {
      buffer, length := [], 0;
      highWaterMark := if hwm.Some? then hwm.value else DEFAULT_HIGH_WATER_MARK;
      ready, writing, writingLength := false, false, 0;
      needDrain, ending, ended := false, false, false;
      inflight, ticks, log := None, 0, [];
    }

    method Write(req: WriteReq) returns (res: bool)
      requires Valid()
      modifies this
      ensures Valid() && View() == Step(old(View()), Input.Write(req))
      ensures ending == old(ending) && ended == old(ended)
      ensures res <==> !old(ended) && !OwedDrain(log)
      ensures Reqs(log, IsAccepted) == old(Reqs(log, IsAccepted)) + if old(ended) then [] else [req]
    {
      hide Reqs, Finishes, OwedDrain, Size;
      StepInv(View(), Input.Write(req));
      WritableEffects.StepTakes(View(), Input.Write(req));
      res := false;
      if ended {
        log := log + [Rejected(req)];
      } else {
        res := WriteOrBuffer(req);
      }
    }

    method End(last: Option<WriteReq>)
      requires Valid()
      modifies this
      ensures Valid() && View() == Step(old(View()), Input.End(last))
      ensures ending && ended == old(ended)
      ensures Reqs(log, IsAccepted) == old(Reqs(log, IsAccepted))
                                       + if last.None? || old(ended) then [] else [last.value]
    {
      hide Reqs, Finishes, OwedDrain, Size;
      StepInv(View(), Input.End(last));
      WritableEffects.StepTakes(View(), Input.End(last));
      if last.Some? {
        var _ := Write(last.value);
      }
      if !ending {
        EndWritable();
      }
    }

    /** The concrete stream announces that it can take data. */
    method ReadyToWrite()
      requires Valid()
      modifies this
      ensures Valid() && View() == Step(old(View()), Ready)
      ensures ending == old(ending) && (old(ended) ==> ended) && (ended ==> ending)
    {
      hide Reqs, Finishes, OwedDrain, Size;
      StepInv(View(), Ready);
      ready := true;
      WriteBuffered();
    }

    /** The underlying stream calls back for the request in flight. */
    method OnWrite()
      requires Valid() && inflight.Some?
      modifies this
      ensures Valid() && View() == Step(old(View()), Ack)
      ensures ending == old(ending) && (old(ended) ==> ended) && (ended ==> ending)
    {
      hide Reqs, Finishes, OwedDrain, Size;
      StepInv(View(), Ack);
      length := length - writingLength;
      writing := false;
      writingLength := 0;
      log := log + [Acked(inflight.value)];
      inflight := None;
      TotalIs(View());
      WriteBuffered();
    }

    /** The callback that endWritable() left in the tick queue. */
    method OnTick()
      requires Valid() && ticks > 0
      modifies this
      ensures Valid() && View() == Step(old(View()), Tick)
      ensures ending == old(ending) && (old(ended) ==> ended) && (ended ==> ending)
    {
      hide Reqs, Finishes, OwedDrain, Size;
      StepInv(View(), Tick);
      ticks := ticks - 1;
      EmitFinish();
    }

    method WriteOrBuffer(req: WriteReq) returns (res: bool)
      requires Valid()
      modifies this
      ensures Coupled() && View() == Accept(old(View()), req)
      ensures res == !needDrain
    {
      TotalIs(View());
      SizeSnoc(buffer, req);
      log := log + [Accepted(req, !(needDrain || length + |req.chunk| >= highWaterMark))];
      length := length + |req.chunk|;
      if !ready || writing || |buffer| > 0 {
        buffer := buffer + [req];
      } else {
        var err := DoWrite(req);
        assert !err;
      }
      if length >= highWaterMark {
        needDrain := true;
      }
      res := !needDrain;
    }

    method WriteBuffered()
      requires writing == inflight.Some?
      requires Coupled()
      modifies this
      ensures Coupled() && View() == Pump(old(View()))
    {
      if !writing {
        if |buffer| == 0 {
          OnEmptyBuffer();
        } else {
          var req := buffer[0];
          buffer := buffer[1..];
          var err := DoWrite(req);
          assert !err;
        }
      }
    }

    /** Returns an error, and drops the request, if a write is already in flight. */
    method DoWrite(req: WriteReq) returns (err: bool)
      requires writing == inflight.Some?
      modifies `writing, `writingLength, `inflight, `log
      ensures err == old(writing)
      ensures err ==> View() == old(View()) && writing && writingLength == old(writingLength)
      ensures !err ==> && writing
                       && writingLength == |req.chunk| == Size(Pending(inflight))
                       && View() == Emit(old(View()).(inflight := Some(req)), Handed(req))
    {
      if writing {
        return true;
      }
      writing := true;
      writingLength := |req.chunk|;
      inflight := Some(req);
      log := log + [Handed(req)];
      assert Pending(inflight)[1..] == [];
      return false;
    }

    method OnEmptyBuffer()
      modifies this
      ensures View() == OnEmpty(old(View()))
      ensures unchanged(`length, `writing, `writingLength, `buffer, `inflight)
    {
      if ending {
        EmitFinish();
      } else if needDrain {
        EmitDrain();
      }
    }

    method EndWritable()
      requires Coupled() && !ending
      modifies this
      ensures unchanged(`length, `writing, `writingLength, `buffer, `inflight)
      ensures View() == old(View()).(ending := true,
                                     ticks := old(ticks) + if Idle(old(View())) then 1 else 0)
    {
      ending := true;
      if !writing && |buffer| == 0 {
        ticks := ticks + 1;
      }
    }

    method EmitDrain()
      modifies `needDrain, `log
      ensures View() == if old(needDrain) then Emit(old(View()).(needDrain := false), Drain) else old(View())
    {
      if needDrain {
        needDrain := false;
        log := log + [Drain];
      }
    }

    method EmitFinish()
      modifies `ended, `log
      ensures View() == WritableSpec.EmitFinish(old(View()))
    {
      if !ended {
        ended := true;
        log := log + [Finish];
      }
    }
  }
}
