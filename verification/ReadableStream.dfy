/**
 The readable stream as the library implements it, with its running byte count.
 Every method is proved to take the step of the abstract machine in ReadableSpec,
 including what the 'data' listener does while an emission is in progress.
 */
module ReadableStream {
  import opened Prelude
  import opened ReadableSpec
  import ReadableEffects

  class Readable {
    var buffer: seq<seq<byte>>
    var length: nat
    var flowing: bool
    var ended: bool
    var endEmitted: bool

    ghost var log: seq<Event>

    ghost predicate Coupled()
      reads this
    {
      length == |Flatten(buffer)|
    }

    ghost function View(): State
      reads this
    {
      State(buffer, flowing, ended, endEmitted, log)
    }

    ghost predicate Valid()
      reads this
    {
      Coupled() && Inv(View())
    }

    constructor ()
      ensures Valid() && View() == Init
    {
      buffer, length, flowing, ended, endEmitted := [], 0, false, false, false;
      log := [];
    }

    /** One call by the owner or by a listener. */
    method Perform(op: Op)
      requires Valid()
      modifies this
      ensures Valid() && View() == Exec(old(View()), op)
      decreases op, 2
    {
      match op
      case Push(chunk, onData) => PushChunk(chunk, onData);
      case PushEof => OnEof();
      case Pause => PauseFlow();
      case Resume(onData) => ResumeFlow(onData);
      case Read(n) => var _ := ReadBytes(n);
    }

    method PerformAll(ops: seq<Op>)
      requires Valid()
      modifies this
      ensures Valid() && View() == ExecAll(old(View()), ops)
      decreases ops, 0
    {
      if ops != [] {
        Perform(ops[0]);
        PerformAll(ops[1..]);
      }
    }

    /** `read(n)`: the whole buffer, null, or an exception for a partial read. */
    method ReadBytes(n: Option<int>) returns (res: Option<seq<byte>>)
      requires Valid()
      modifies this
      ensures Valid() && View() == Exec(old(View()), Read(n))
      ensures res.Some? <==> old(length) > 0 && (n.None? || n.value >= old(length))
      ensures res.Some? ==> res.value == old(Flatten(buffer)) && buffer == []
      ensures res.None? ==> buffer == old(buffer)
    {
      hide BytesIn, BytesOut, Orderly;
      ghost var before := View();
      ReadInv(before, n);
      ghost var after := Exec(before, Read(n));
      var wanted := if n.None? || n.value > length then length
                    else if n.value < 0 then 0
                    else n.value;
      res := None;
      if wanted > 0 {
        var thrown;
        res, thrown := ReadBuffer(Some(wanted));
        if thrown {
          log := log + [Thrown(PartialRead)];
          assert View() == after;
          return None;
        }
      }
      if ended && length == 0 {
        EmitEnd();
      }
      if res.Some? {
        log := log + [Returned(res.value)];
      }
      assert View() == after;
    }

    method PauseFlow()
      requires Valid()
      modifies this
      ensures Valid() && View() == Exec(old(View()), Pause)
    {
      hide BytesIn, BytesOut, Orderly;
      ExecInv(View(), Pause);
      if flowing {
        flowing := false;
        log := log + [Paused];
      }
    }

    method ResumeFlow(onData: seq<Op>)
      requires Valid()
      modifies this
      ensures Valid() && View() == Exec(old(View()), Resume(onData))
      decreases onData, 2
    {
      hide BytesIn, BytesOut, Orderly;
      ghost var before := View();
      ExecInv(before, Resume(onData));
      if !flowing {
        flowing := true;
        if length > 0 {
          var data, thrown := ReadBuffer(None);
          DeliverInv(before, View(), data.value);
          EmitData(data.value, onData);
        }
      }
    }

    method PushChunk(chunk: seq<byte>, onData: seq<Op>)
      requires Valid()
      modifies this
      ensures Valid() && View() == Exec(old(View()), Push(chunk, onData))
      ensures !old(ended) ==> old(log) + [Accepted(chunk)] <= log
      ensures !old(ended) && !old(flowing) ==> Flatten(buffer) == old(Flatten(buffer)) + chunk
      decreases onData, 2
    {
      ghost var before := View();
      ReadableEffects.PushTakes(before, chunk, onData);
      ExecInv(before, Push(chunk, onData));
      if ended {
        log := log + [PushAfterEof];
      } else if flowing {
        log := log + [Accepted(chunk)];
        SnocLog(before.log, Accepted(chunk));
        OrderlySnoc(before.log, Accepted(chunk));
        DeliverInv(View(), View(), chunk);
        EmitData(chunk, onData);
      } else {
        FlattenSnoc(buffer, chunk);
        length := length + |chunk|;
        buffer := buffer + [chunk];
        log := log + [Accepted(chunk)] + [Event.Readable];
      }
    }

    method OnEof()
      requires Valid()
      modifies this
      ensures Valid() && View() == Exec(old(View()), PushEof)
    {
      hide BytesIn, BytesOut, Orderly;
      ExecInv(View(), PushEof);
      ended := true;
      log := log + [Eof];
      if length == 0 {
        EmitEnd();
      }
    }

    /** Without a count, or with a count of 0, everything; throws on a partial count. */
    method ReadBuffer(n: Option<nat>) returns (res: Option<seq<byte>>, thrown: bool)
      requires Coupled()
      modifies `buffer, `length
      ensures Coupled()
      ensures thrown <==> n.Some? && 0 < n.value < old(length)
      ensures thrown ==> res.None? && View() == old(View())
      ensures !thrown ==> View() == TakeAll(old(View()))
      ensures !thrown ==> res == if old(length) == 0 then None else Some(old(Flatten(buffer)))
    {
      var count := if n.None? || n.value == 0 then length else n.value;
      thrown := false;
      if |buffer| == 0 || length == 0 {
        res := None;
      } else if count >= length {
        res := Some(Flatten(buffer));
        buffer := [];
        length := 0;
      } else {
        res, thrown := None, true;
      }
    }

    method EmitEnd()
      modifies `endEmitted, `log
      ensures View() == ReadableSpec.EmitEnd(old(View()))
    {
      if !ended {
        log := log + [Thrown(EndOnOpenStream)];
      } else if !endEmitted {
        endEmitted := true;
        log := log + [End];
      }
    }

    method EmitData(data: seq<byte>, onData: seq<Op>)
      requires Coupled() && (length == 0 ==> Inv(ReadableSpec.Emit(View(), Data(data))))
      modifies this
      ensures Coupled() && View() == ReadableSpec.EmitData(old(View()), data, onData)
      decreases onData, 1
    {
      var rest, thrown := ReadBuffer(None);
      if rest.Some? {
        log := log + [Thrown(BufferedWhileEmitting)];
        return;
      }
      log := log + [Data(data)];
      PerformAll(onData);
      if ended && length == 0 {
        EmitEnd();
      }
    }
  }
}
