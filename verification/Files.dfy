/** Writing and reading whole files in pieces of at most 1023 bytes. */
module Files {
  import opened Prelude
  import opened Buffers

  const CHUNK := 1023

  /** What the file system does with one request: it throws, or it moves at least one and at most `most` bytes. */
  datatype Outcome = Throws | Moves(most: nat)

  /** The k-th request of a whole-file operation gets the k-th outcome. */
  type Schedule = nat -> Outcome

  ghost predicate NeverThrows(sched: Schedule) {
    forall k :: sched(k).Moves?
  }

  function Clamp(most: nat, available: nat): (n: nat)
    ensures n <= available && (available > 0 ==> n > 0)
  {
    if available == 0 then 0 else if most < 1 then 1 else if most > available then available else most
  }

  function Overwritten(content: seq<byte>, position: nat, part: seq<byte>): seq<byte>
    requires position <= |content|
  {
    var end := position + |part|;
    content[..position] + part + if end < |content| then content[end..] else []
  }

  /** Exactly the bytes at the position change, and the file grows only as far as they reach. */
  lemma OverwrittenMeaning(content: seq<byte>, position: nat, part: seq<byte>)
    requires position <= |content|
    ensures var now := Overwritten(content, position, part);
            var end := position + |part|;
            && |now| == (if end < |content| then |content| else end)
            && (forall k :: 0 <= k < |now| ==> now[k] == if position <= k < end then part[k - position] else content[k])
  {
  }

  class File {
    var content: seq<byte>

    constructor ()
      ensures content == []
    {
      content := [];
    }

    /** One write request of `count` bytes of `data` from `offset`, at a position in the file. */
    method WriteSync(data: array<byte>, offset: nat, count: nat, position: nat, outcome: Outcome)
      returns (n: nat, thrown: bool)
      requires position <= |content|
      modifies this
      ensures thrown ==> content == old(content)
      ensures thrown <==> outcome.Throws? || data.Length == 0 || offset >= data.Length || offset + count > data.Length
      ensures !thrown ==> n == Clamp(outcome.most, count)
      ensures !thrown ==> offset + n <= data.Length
      ensures !thrown ==> content == Overwritten(old(content), position, data[offset..offset + n])
    {
      n := 0;
      if outcome.Throws? || data.Length == 0 || offset >= data.Length || offset + count > data.Length {
        return 0, true;
      }
      n, thrown := Clamp(outcome.most, count), false;
      content := Overwritten(content, position, data[offset..offset + n]);
    }

    /** One read request of `count` bytes at the current position, into the front of a buffer. */
    method ReadSync(buffer: array<byte>, count: nat, position: nat, outcome: Outcome)
      returns (n: nat, thrown: bool)
      requires position <= |content| && 0 < count <= buffer.Length
      modifies buffer
      ensures thrown <==> outcome.Throws?
      ensures n <= buffer.Length && buffer[n..] == old(buffer[n..])
      ensures !thrown ==> n == Clamp(outcome.most, Min(count, |content| - position))
      ensures !thrown ==> position + n <= |content| && buffer[..n] == content[position..position + n]
    {
      if outcome.Throws? {
        return 0, true;
      }
      n, thrown := Clamp(outcome.most, Min(count, |content| - position)), false;
      forall i | 0 <= i < n { buffer[i] := content[position + i]; }
    }
  }

  /** `fs.writeFileSync`: an exception ends the loop and is swallowed. */
  method WriteFileSync(file: File, data: array<byte>, sched: Schedule) returns (bytesWritten: nat)
    modifies file
    ensures bytesWritten <= data.Length && file.content == data[..bytesWritten]
    ensures NeverThrows(sched) ==> bytesWritten == data.Length
    ensures bytesWritten < data.Length ==> exists k :: sched(k).Throws?
  {
    file.content := [];
    var len := data.Length;
    bytesWritten := 0;
    var calls := 0;
    while true
      invariant bytesWritten <= len && file.content == data[..bytesWritten]
      invariant bytesWritten == len ==> len == 0
      decreases len - bytesWritten
    {
      var tryN := if len - bytesWritten >= CHUNK + 1 then CHUNK else len - bytesWritten;
      var n, thrown := file.WriteSync(data, bytesWritten, tryN, bytesWritten, sched(calls));
      if thrown {
        assert len > 0 ==> sched(calls).Throws?;
        break;
      }
      assert data[..bytesWritten] + data[bytesWritten..bytesWritten + n] == data[..bytesWritten + n];
      calls := calls + 1;
      bytesWritten := bytesWritten + n;
      if bytesWritten == len {
        break;
      }
    }
  }

  /** One round of the reading loop: a request into a new buffer, of which the filled part is kept. */
  method ReadPiece(file: File, offset: nat, outcome: Outcome) returns (piece: array<byte>, thrown: bool)
    requires offset <= |file.content|
    ensures fresh(piece) && (thrown <==> outcome.Throws?)
    ensures !thrown ==> offset + piece.Length <= |file.content|
    ensures !thrown ==> piece[..] == file.content[offset..offset + piece.Length]
    ensures !thrown && piece.Length == 0 ==> offset == |file.content|
  {
    var buffer := new byte[CHUNK];
    var n;
    n, thrown := file.ReadSync(buffer, CHUNK, offset, outcome);
    if thrown {
      return buffer, true;
    }
    piece := Slice(buffer, Some(0), Some(n));
    assert piece[..] == buffer[..n];
  }

  /** `fs.readFileSync`: reads until end of file or an exception, which is swallowed. */
  method ReadFileSync(file: File, sched: Schedule) returns (all: array<byte>)
    ensures fresh(all) && all[..] <= file.content
    ensures NeverThrows(sched) ==> all[..] == file.content
    ensures all[..] < file.content ==> exists k :: sched(k).Throws?
  {
    hide Flatten, Contents;
    var buffers: seq<array<byte>> := [];
    var offset := 0;  // of the descriptor
    var calls := 0;
    ghost var failed := false;
    FlattenEmpty();
    while true
      invariant offset <= |file.content|
      invariant Flatten(Contents(buffers)) == file.content[..offset]
      decreases |file.content| - offset
    {
      var piece, thrown := ReadPiece(file, offset, sched(calls));
      if thrown {
        failed := true;
        break;
      }
      if piece.Length == 0 {
        break;
      }
      ContentsSnoc(buffers, piece);
      assert file.content[..offset] + piece[..] == file.content[..offset + piece.Length];
      buffers := buffers + [piece];
      offset := offset + piece.Length;
      calls := calls + 1;
    }
    assert failed ==> sched(calls).Throws?;
    all := Concat(buffers);
    assert !failed ==> file.content[..offset] == file.content;
  }

  lemma ContentsSnoc(buffers: seq<array<byte>>, piece: array<byte>)
    ensures Flatten(Contents(buffers + [piece])) == Flatten(Contents(buffers)) + piece[..]
  {
    assert (buffers + [piece])[..|buffers|] == buffers;
    FlattenSnoc(Contents(buffers), piece[..]);
  }

  /**
   Writing a file and reading it back, under any two schedules of short writes and
   short reads: without exceptions the data itself, otherwise a prefix of it.
   */
  method WriteThenRead(data: array<byte>, writing: Schedule, reading: Schedule) returns (back: array<byte>)
    ensures back[..] <= data[..]
    ensures NeverThrows(writing) && NeverThrows(reading) ==> back[..] == data[..]
    ensures back[..] < data[..] ==> exists k :: writing(k).Throws? || reading(k).Throws?
  {
    var file := new File();
    var n := WriteFileSync(file, data, writing);
    back := ReadFileSync(file, reading);
    assert data[..data.Length] == data[..];
  }
}
