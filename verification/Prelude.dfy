/** Small definitions shared by every module of the model. */
module Prelude {

  datatype Option<+T> = None | Some(value: T)

  // An octet of a stream, a header or a file.
  newtype byte = b: int | 0 <= b < 256

  /** The concatenation of a list of chunks, in order. */
  function Flatten<T>(chunks: seq<seq<T>>): seq<T> {
    if chunks == [] then [] else chunks[0] + Flatten(chunks[1..])
  }

  lemma {:induction false} FlattenAppend<T>(a: seq<seq<T>>, b: seq<seq<T>>)
    ensures Flatten(a + b) == Flatten(a) + Flatten(b)
  {
    if a == [] {
      assert a + b == b;
    } else {
      assert (a + b)[1..] == a[1..] + b;
      FlattenAppend(a[1..], b);
    }
  }

  lemma FlattenSnoc<T>(a: seq<seq<T>>, chunk: seq<T>)
    ensures Flatten(a + [chunk]) == Flatten(a) + chunk
  {
    FlattenAppend(a, [chunk]);
    assert Flatten([chunk]) == chunk + Flatten([chunk][1..]) == chunk;
  }
}
