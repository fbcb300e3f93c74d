/**
 HTTP header blocks as their sender means them: a list of names with values.
 The parser reports them in arbitrary fragments (header fields, section 3.2 of
 RFC 7230); fragments, tables and batches do not exist at this level.
 */
module HttpSpec {
  import opened Prelude
  import IotString

  type Str = seq<byte>

  datatype Header = Header(name: Str, value: Str)

  /** What appending the pieces one by one to a C string keeps of each of them. */
  function Kept(parts: seq<Str>): (kept: seq<Str>)
    ensures |kept| == |parts|
  {
    seq(|parts|, i requires 0 <= i < |parts| => IotString.Strncpy(parts[i]))
  }

  predicate NulFree(parts: seq<Str>) {
    forall i :: 0 <= i < |parts| ==> IotString.NUL !in parts[i]
  }

  /** One header as the parser delivers it: its name and its value in one or more pieces. */
  datatype Fragments = Fragments(name: seq<Str>, value: seq<Str>) {
    predicate Valid() {
      name != [] && value != []
    }

    function Whole(): Header {
      Header(Flatten(name), Flatten(value))
    }

    function Stored(): Fragments {
      Fragments(Kept(name), Kept(value))
    }
  }

  /** A message: the pieces of a request's URL or of a response's status text, and the headers. */
  datatype Message = Message(url: seq<Str>, status: seq<Str>, headers: seq<Fragments>) {
    predicate Valid() {
      forall k :: 0 <= k < |headers| ==> headers[k].Valid()
    }

    predicate HasUrl() {
      Flatten(url) != []
    }

    predicate NoNul() {
      NulFree(url) && NulFree(status) &&
      forall k :: 0 <= k < |headers| ==> NulFree(headers[k].name) && NulFree(headers[k].value)
    }

    /** The message as C strings hold it. */
    function Stored(): Message {
      Message(Kept(url), Kept(status), seq(|headers|, k requires 0 <= k < |headers| => headers[k].Stored()))
    }
  }

  lemma KeptWhole(parts: seq<Str>)
    ensures NulFree(parts) ==> Kept(parts) == parts
  {
    if NulFree(parts) {
      forall i | 0 <= i < |parts|
        ensures Kept(parts)[i] == parts[i]
      {
        IotString.StrncpyFaithful(parts[i]);
      }
    }
  }

  lemma {:induction false} KeptLength(parts: seq<Str>)
    ensures |Flatten(Kept(parts))| == |Flatten(parts)|
    decreases |parts|
  {
    if parts != [] {
      assert Kept(parts)[1..] == Kept(parts[1..]);
      KeptLength(parts[1..]);
    }
  }

  /** Without NULs a message is held as it is; with them it is still as long. */
  lemma StoredFacts(m: Message)
    ensures m.NoNul() ==> m.Stored() == m
    ensures m.Valid() ==> m.Stored().Valid()
    ensures m.HasUrl() <==> m.Stored().HasUrl()
  {
    KeptWhole(m.url);
    KeptWhole(m.status);
    KeptLength(m.url);
    if m.NoNul() {
      forall k | 0 <= k < |m.headers|
        ensures m.Stored().headers[k] == m.headers[k]
      {
        KeptWhole(m.headers[k].name);
        KeptWhole(m.headers[k].value);
      }
    }
  }

  function Block(fs: seq<Fragments>): (hs: seq<Header>)
    ensures |hs| == |fs|
  {
    seq(|fs|, i requires 0 <= i < |fs| => fs[i].Whole())
  }

  // ------------------------------------------------------- what was received

  /** The complete headers so far, and the name of one whose value has not begun. */
  datatype Received = Received(pairs: seq<Header>, partial: Option<Str>)

  function OnField(r: Received, at: Str): Received {
    r.(partial := Some(if r.partial.Some? then r.partial.value + at else at))
  }

  predicate ValueExpected(r: Received) {
    r.partial.Some? || r.pairs != []
  }

  function OnValue(r: Received, at: Str): Received
    requires ValueExpected(r)
  {
    if r.partial.Some? then Received(r.pairs + [Header(r.partial.value, at)], None)
    else
      var last := r.pairs[|r.pairs| - 1];
      r.(pairs := r.pairs[..|r.pairs| - 1] + [last.(value := last.value + at)])
  }

  function OnFields(r: Received, parts: seq<Str>): Received
    decreases |parts|
  {
    if parts == [] then r else OnFields(OnField(r, parts[0]), parts[1..])
  }

  function OnValues(r: Received, parts: seq<Str>): (r': Received)
    requires ValueExpected(r)
    ensures ValueExpected(r')
    decreases |parts|
  {
    if parts == [] then r else OnValues(OnValue(r, parts[0]), parts[1..])
  }

  lemma {:induction false} FieldsSnoc(r: Received, parts: seq<Str>, at: Str)
    ensures OnFields(r, parts + [at]) == OnField(OnFields(r, parts), at)
    decreases |parts|
  {
    if parts == [] {
      assert OnFields(OnField(r, at), [at][1..]) == OnField(r, at);
    } else {
      assert (parts + [at])[1..] == parts[1..] + [at];
      FieldsSnoc(OnField(r, parts[0]), parts[1..], at);
    }
  }

  lemma {:induction false} ValuesSnoc(r: Received, parts: seq<Str>, at: Str)
    requires ValueExpected(r)
    ensures OnValues(r, parts + [at]) == OnValue(OnValues(r, parts), at)
    decreases |parts|
  {
    if parts == [] {
      assert OnValues(OnValue(r, at), [at][1..]) == OnValue(r, at);
    } else {
      assert (parts + [at])[1..] == parts[1..] + [at];
      ValuesSnoc(OnValue(r, parts[0]), parts[1..], at);
    }
  }

  lemma {:induction false} FieldsJoin(r: Received, parts: seq<Str>)
    requires r.partial.Some?
    ensures OnFields(r, parts) == r.(partial := Some(r.partial.value + Flatten(parts)))
    decreases |parts|
  {
    if parts == [] {
      assert r.partial.value + [] == r.partial.value;
    } else {
      FieldsJoin(OnField(r, parts[0]), parts[1..]);
      assert r.partial.value + parts[0] + Flatten(parts[1..]) == r.partial.value + Flatten(parts);
    }
  }

  lemma {:induction false} ValuesJoin(r: Received, before: seq<Header>, h: Header, parts: seq<Str>)
    requires r == Received(before + [h], None)
    ensures OnValues(r, parts) == Received(before + [h.(value := h.value + Flatten(parts))], None)
    decreases |parts|
  {
    if parts == [] {
      assert h.value + [] == h.value;
    } else {
      assert r.pairs[..|r.pairs| - 1] == before;
      var h' := h.(value := h.value + parts[0]);
      assert OnValue(r, parts[0]) == Received(before + [h'], None);
      ValuesJoin(OnValue(r, parts[0]), before, h', parts[1..]);
      assert h'.value + Flatten(parts[1..]) == h.value + Flatten(parts);
    }
  }

  /** However a header is cut up, it is received whole. */
  lemma HeaderReceived(pairs: seq<Header>, f: Fragments)
    requires f.Valid()
    ensures var named := OnFields(Received(pairs, None), f.name);
            && named.partial.Some?
            && OnValues(named, f.value) == Received(pairs + [Header(Flatten(f.name), Flatten(f.value))], None)
  {
    var r0 := Received(pairs, None);
    var r1 := OnField(r0, f.name[0]);
    FieldsJoin(r1, f.name[1..]);
    var named := OnFields(r0, f.name);
    assert named == Received(pairs, Some(Flatten(f.name)));
    var r2 := OnValue(named, f.value[0]);
    ValuesJoin(r2, pairs, Header(Flatten(f.name), f.value[0]), f.value[1..]);
  }

  // ------------------------------------------------------------ flat list, map

  /** The form in which headers cross from C to JavaScript: name, value, name, value, ... */
  function Flat(hs: seq<Header>): (s: seq<Str>)
    ensures |s| == 2 * |hs|
  {
    if hs == [] then [] else [hs[0].name, hs[0].value] + Flat(hs[1..])
  }

  lemma {:induction false} FlatAppend(a: seq<Header>, b: seq<Header>)
    ensures Flat(a + b) == Flat(a) + Flat(b)
  {
    if a == [] {
      assert a + b == b;
    } else {
      assert (a + b)[1..] == a[1..] + b;
      FlatAppend(a[1..], b);
    }
  }

  lemma {:induction false} FlatAt(hs: seq<Header>, k: nat)
    requires k < |hs|
    ensures Flat(hs)[2 * k] == hs[k].name && Flat(hs)[2 * k + 1] == hs[k].value
  {
    if k > 0 { FlatAt(hs[1..], k - 1); }
  }

  /** Every header is entered; a later one replaces an earlier one of the same name. */
  function LastWins(hs: seq<Header>): map<Str, Str> {
    if hs == [] then map[]
    else LastWins(hs[..|hs| - 1])[hs[|hs| - 1].name := hs[|hs| - 1].value]
  }

  lemma LastWinsNone()
    ensures LastWins([]) == map[]
  {
  }

  lemma LastWinsNext(hs: seq<Header>, k: nat)
    requires k < |hs|
    ensures LastWins(hs[..k + 1]) == LastWins(hs[..k])[hs[k].name := hs[k].value]
  {
    assert hs[..k + 1][..k] == hs[..k];
  }

  /** The map has exactly the names of the block, each with its last value. */
  lemma {:induction false} LastWinsMeaning(hs: seq<Header>)
    ensures forall name :: name in LastWins(hs) <==> exists i :: 0 <= i < |hs| && hs[i].name == name
    ensures forall i :: 0 <= i < |hs| && (forall j :: i < j < |hs| ==> hs[j].name != hs[i].name) ==>
              hs[i].name in LastWins(hs) && LastWins(hs)[hs[i].name] == hs[i].value
  {
    if hs != [] {
      var front, last := hs[..|hs| - 1], hs[|hs| - 1];
      LastWinsMeaning(front);
      forall name
        ensures name in LastWins(hs) <==> exists i :: 0 <= i < |hs| && hs[i].name == name
      {
        if name in LastWins(front) {
          var i :| 0 <= i < |front| && front[i].name == name;
          assert hs[i].name == name;
        }
        if i :| 0 <= i < |hs| && hs[i].name == name {
          if i < |front| { assert front[i].name == name; }
        }
      }
      forall i | 0 <= i < |hs| && (forall j :: i < j < |hs| ==> hs[j].name != hs[i].name)
        ensures hs[i].name in LastWins(hs) && LastWins(hs)[hs[i].name] == hs[i].value
      {
        if i < |front| {
          assert front[i] == hs[i] && last.name != hs[i].name;
          assert forall j :: i < j < |front| ==> front[j] == hs[j];
        }
      }
    }
  }

  // ------------------------------------------------- URLs over a connection

  /** A message with this many headers overflows the table, and the parser flushes. */
  predicate Overflows(m: Message, headerMax: nat) {
    |m.headers| >= headerMax
  }

  predicate NoneOverflows(ms: seq<Message>, k: nat, headerMax: nat)
    requires k <= |ms|
  {
    forall j :: 0 <= j < k ==> !Overflows(ms[j], headerMax)
  }

  /** After `k` messages: has any flush happened, and which URL text is left over in JavaScript? */
  function Carry(ms: seq<Message>, k: nat, headerMax: nat): (bool, Str)
    requires k <= |ms|
  {
    if k == 0 then (false, [])
    else
      var (flushed, text) := Carry(ms, k - 1, headerMax);
      if flushed || Overflows(ms[k - 1], headerMax) then (true, text + Flatten(ms[k - 1].url))
      else (false, [])
  }

  function DeliveredUrl(ms: seq<Message>, k: nat, headerMax: nat): Str
    requires k < |ms|
  {
    Carry(ms, k, headerMax).1 + Flatten(ms[k].url)
  }

  lemma {:induction false} CarryEmpty(ms: seq<Message>, k: nat, headerMax: nat)
    requires k <= |ms| && forall j :: 0 <= j < |ms| ==> ms[j].HasUrl()
    ensures Carry(ms, k, headerMax).0 <==> exists j :: 0 <= j < k && Overflows(ms[j], headerMax)
    ensures Carry(ms, k, headerMax).1 == [] <==> !Carry(ms, k, headerMax).0
  {
    if k > 0 {
      CarryEmpty(ms, k - 1, headerMax);
      assert ms[k - 1].HasUrl();
      if j :| 0 <= j < k && Overflows(ms[j], headerMax) {
        assert j == k - 1 || j < k - 1;
      }
    }
  }

  /**
   The flag that says "headers were flushed" and the URL collected in JavaScript
   outlive their message.  A message's URL arrives intact if and only if no
   earlier message on the connection overflowed the header table.
   */
  lemma UrlIntact(ms: seq<Message>, k: nat, headerMax: nat)
    requires k < |ms| && forall j :: 0 <= j < |ms| ==> ms[j].HasUrl()
    ensures DeliveredUrl(ms, k, headerMax) == Flatten(ms[k].url)
       <==> NoneOverflows(ms, k, headerMax)
  {
    CarryEmpty(ms, k, headerMax);
    var (flushed, text) := Carry(ms, k, headerMax);
    if text == [] {
      assert text + Flatten(ms[k].url) == Flatten(ms[k].url);
    } else {
      assert |DeliveredUrl(ms, k, headerMax)| > |Flatten(ms[k].url)|;
    }
  }

  /** The URLs of the messages from the i-th up to the k-th, joined. */
  function JoinedUrls(ms: seq<Message>, i: nat, k: nat): Str
    requires i <= k <= |ms|
    decreases k
  {
    if i == k then [] else JoinedUrls(ms, i, k - 1) + Flatten(ms[k - 1].url)
  }

  lemma {:induction false} CarryAfter(ms: seq<Message>, f: nat, k: nat, headerMax: nat)
    requires f < |ms| && k <= |ms| && Overflows(ms[f], headerMax) && NoneOverflows(ms, f, headerMax)
    ensures k <= f ==> Carry(ms, k, headerMax) == (false, [])
    ensures k > f ==> Carry(ms, k, headerMax) == (true, JoinedUrls(ms, f, k))
    decreases k
  {
    if k > 0 {
      CarryAfter(ms, f, k - 1, headerMax);
      if k - 1 == f {
        assert JoinedUrls(ms, f, f) == [];
      }
    }
  }

  /** From the first message that overflows the table on, a request gets all URLs since then, joined. */
  lemma UrlsPileUp(ms: seq<Message>, f: nat, k: nat, headerMax: nat)
    requires f <= k < |ms| && Overflows(ms[f], headerMax) && NoneOverflows(ms, f, headerMax)
    ensures DeliveredUrl(ms, k, headerMax) == JoinedUrls(ms, f, k + 1)
  {
    CarryAfter(ms, f, k, headerMax);
    if k == f { assert JoinedUrls(ms, f, f) == []; }
  }
}
