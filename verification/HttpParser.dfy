/**
 The HTTP parser callbacks: C code that reassembles fragments in a fixed table of
 strings and hands them to JavaScript in batches, and the JavaScript code that
 joins the batches again.  Batching does not show in the contracts.
 */
module HttpParser {
  import opened Prelude
  import opened HttpSpec
  import IotString

  /** A JavaScript object used as a list: indexed entries and a length, absent at first. */
  class ArrayLike {
    var elems: map<nat, Str>
    var length: Option<nat>

    ghost predicate Valid()
      reads this
    {
      forall i :: 0 <= i < Len() ==> i in elems
    }

    function Len(): nat
      reads this
    {
      if length.Some? then length.value else 0
    }

    ghost function Contents(): (s: seq<Str>)
      requires Valid()
      reads this
      ensures |s| == Len()
    {
      seq(Len(), i requires 0 <= i < Len() && Valid() reads this => elems[i])
    }

    constructor ()
      ensures Valid() && Contents() == []
    {
      elems, length := map[], None;
    }
  }

  class IncomingMessage {
    var headers: map<Str, Str>
    var url: Str
    var statusMessage: Str

    constructor ()
      ensures headers == map[] && url == statusMessage == []
    {
      headers, url, statusMessage := map[], [], [];
    }

    /** The flat list `list` holds the headers `hs`; they replace headers the message already has. */
    method AddHeaders(list: ArrayLike, ghost hs: seq<Header>)
      requires list.Valid() && list.Contents() == Flat(hs)
      modifies `headers
      ensures headers == old(headers) + LastWins(hs)
    {
      hide LastWins, Flat;
      var i := 0;
      LastWinsNone();
      assert hs[..0] == [];
      while i < list.Len()
        invariant i % 2 == 0 && i <= list.Len()
        invariant headers == old(headers) + LastWins(hs[..i / 2])
      {
        ghost var k := i / 2;
        FlatAt(hs, k);
        assert list.elems[i] == list.Contents()[i] && list.elems[i + 1] == list.Contents()[i + 1];
        LastWinsNext(hs, k);
        headers := headers[list.elems[i] := list.elems[i + 1]];
        i := i + 2;
      }
      assert hs[..i / 2] == hs;
    }
  }

  method AddHeader(dest: ArrayLike, src: ArrayLike)
    requires dest != src && dest.Valid() && src.Valid()
    modifies dest
    ensures dest.Valid() && dest.Contents() == old(dest.Contents()) + src.Contents()
  {
    ghost var before := dest.Contents();
    if dest.Len() == 0 {
      dest.length := Some(0);
    }
    var i, base := 0, dest.Len();
    while i < src.Len()
      invariant 0 <= i <= src.Len() && dest.Len() == base && dest.length.Some?
      invariant src.Valid() && src.Contents() == old(src.Contents())
      invariant forall j :: 0 <= j < base ==> j in dest.elems && dest.elems[j] == before[j]
      invariant forall j :: base <= j < base + i ==> j in dest.elems && dest.elems[j] == src.elems[j - base]
    {
      dest.elems := dest.elems[dest.Len() + i := src.elems[i]];
      i := i + 1;
    }
    dest.length := Some(dest.Len() + src.Len());
    ghost var joined := before + src.Contents();
    assert dest.Valid() && dest.Len() == |joined|;
    assert forall j :: 0 <= j < |joined| ==> dest.Contents()[j] == joined[j];
  }

  /** The wrapped C parser together with the JavaScript properties of its object. */
  class HttpParserWrap {
    const headerMax: nat
    const isRequest: bool

    // C side
    var url: Str
    var statusMsg: Str
    const fields: array<Str>
    const values: array<Str>
    var nFields: nat
    var nValues: nat
    var flushed: bool

    // JavaScript side
    var jsHeaders: ArrayLike
    var jsUrl: Str

    ghost var delivered: seq<Header>  // headers of the current message already in JavaScript

    ghost predicate Valid()
      reads this, fields, values, jsHeaders
    {
      && headerMax >= 2
      && fields != values && fields.Length == values.Length == headerMax
      && nValues <= nFields <= nValues + 1 && nFields < headerMax
      && jsHeaders.Valid() && jsHeaders.Contents() == Flat(delivered)
      && (!flushed ==> delivered == [] && jsUrl == [])
      && (nFields == 0 ==> delivered == [])
    }

    ghost function Table(n: nat): (hs: seq<Header>)
      requires n <= fields.Length && n <= values.Length
      reads fields, values
      ensures |hs| == n
    {
      seq(n, i requires 0 <= i < n && n <= fields.Length && n <= values.Length
               reads fields, values => Header(fields[i], values[i]))
    }

    /** What the sender's headers look like so far, wherever their parts are kept. */
    ghost function View(): Received
      requires Valid()
      reads this, fields, values, jsHeaders
    {
      Received(delivered + Table(nValues), if nFields > nValues then Some(fields[nValues]) else None)
    }

    ghost predicate Idle()
      requires Valid()
      reads this, fields, values, jsHeaders
    {
      View() == Received([], None)
    }

    constructor (headerMax: nat, isRequest: bool)
      requires headerMax >= 2
      ensures Valid() && Idle() && !flushed && url == statusMsg == jsUrl == []
      ensures this.headerMax == headerMax && this.isRequest == isRequest
      ensures fresh(fields) && fresh(values) && fresh(jsHeaders)
    {
      this.headerMax, this.isRequest := headerMax, isRequest;
      url, statusMsg := [], [];
      fields := new Str[headerMax](_ => []);
      values := new Str[headerMax](_ => []);
      nFields, nValues, flushed := 0, 0, false;
      jsHeaders := new ArrayLike();
      jsUrl, delivered := [], [];
    }

    method OnMessageBegin()
      requires Valid()
      modifies `url, `statusMsg
      ensures Valid() && url == statusMsg == []
    {
      url, statusMsg := [], [];
    }

    method OnUrl(at: Str)
      requires Valid()
      modifies `url
      ensures Valid() && url == old(url) + IotString.Strncpy(at)
    {
      url := url + IotString.Strncpy(at);
    }

    method OnStatus(at: Str)
      requires Valid()
      modifies `statusMsg
      ensures Valid() && statusMsg == old(statusMsg) + IotString.Strncpy(at)
    {
      statusMsg := statusMsg + IotString.Strncpy(at);
    }

    method OnHeaderField(at: Str)
      requires Valid()
      modifies this, fields, jsHeaders
      ensures Valid() && View() == OnField(old(View()), IotString.Strncpy(at))
      ensures if isRequest then jsUrl + url == old(jsUrl + url) else jsUrl == old(jsUrl)
      ensures statusMsg == old(statusMsg)
      ensures flushed <==> old(flushed) || (old(View()).partial.None? && |old(View()).pairs| == headerMax - 1)
      ensures jsHeaders == old(jsHeaders)
    {
      hide Flat, ArrayLike.Valid, ArrayLike.Contents, IotString.Strncpy;
      ghost var before := View();
      var piece := IotString.Strncpy(at);
      if nFields == nValues {
        nFields := nFields + 1;
        if nFields == headerMax {
          Flush();
          nFields, nValues := 1, 0;
        }
        fields[nFields - 1] := [];
      }
      assert nFields == nValues + 1;
      fields[nFields - 1] := fields[nFields - 1] + piece;
      assert View().pairs == before.pairs;
      assert [] + piece == piece;
    }

    method OnHeaderValue(at: Str)
      requires Valid() && ValueExpected(View())
      modifies this, values
      ensures Valid() && View() == OnValue(old(View()), IotString.Strncpy(at))
      ensures jsUrl == old(jsUrl) && url == old(url) && statusMsg == old(statusMsg) && flushed == old(flushed)
      ensures jsHeaders == old(jsHeaders)
    {
      hide Flat, ArrayLike.Valid, ArrayLike.Contents, IotString.Strncpy;
      ghost var before := View();
      var piece := IotString.Strncpy(at);
      if nFields != nValues {
        nValues := nValues + 1;
        values[nValues - 1] := [];
      }
      assert nFields == nValues;
      values[nValues - 1] := values[nValues - 1] + piece;
      assert [] + piece == piece;
      ghost var last := Header(fields[nValues - 1], values[nValues - 1]);
      assert Table(nValues) == Table(nValues - 1) + [last];
      assert View().pairs == OnValue(before, piece).pairs;
    }

    /** A fresh list of the complete headers in the table. */
    method MakeHeader() returns (list: ArrayLike)
      requires nValues <= fields.Length && nValues <= values.Length
      ensures fresh(list) && list.Valid() && list.Contents() == Flat(Table(nValues))
    {
      list := new ArrayLike();
      list.length := Some(nValues * 2);
      var i := 0;
      ghost var hs := Table(nValues);
      hide Flat;
      while i < nValues
        invariant 0 <= i <= nValues && list.length == Some(nValues * 2)
        invariant forall j :: 0 <= j < 2 * i ==> j in list.elems && list.elems[j] == Flat(hs)[j]
      {
        FlatAt(hs, i);
        list.elems := list.elems[i * 2 := fields[i]];
        list.elems := list.elems[i * 2 + 1 := values[i]];
        i := i + 1;
      }
      hide Table;
      assert list.Valid();
      assert forall j :: 0 <= j < |list.Contents()| ==> list.Contents()[j] == Flat(hs)[j];
    }

    /** Hands the table and the URL to JavaScript. */
    method Flush()
      requires headerMax >= 2 && fields.Length == values.Length == headerMax && nValues <= headerMax
      requires jsHeaders.Valid() && jsHeaders.Contents() == Flat(delivered)
      modifies `url, `jsUrl, `delivered, `flushed, jsHeaders
      ensures jsHeaders.Valid() && jsHeaders.Contents() == Flat(delivered)
      ensures delivered == old(delivered) + Table(nValues)
      ensures flushed && url == []
      ensures jsUrl == if isRequest then old(jsUrl + url) else old(jsUrl)
    {
      hide Flat, ArrayLike.Valid, ArrayLike.Contents, Table;
      var list := MakeHeader();
      var sent := if isRequest && url != [] then Some(url) else None;
      FlatAppend(delivered, Table(nValues));
      delivered := delivered + Table(nValues);
      OnHeaders(list, sent);
      assert url == [] ==> jsUrl + url == jsUrl;
      url := [];
      flushed := true;
    }

    /** JavaScript: a batch of headers arrived. */
    method OnHeaders(list: ArrayLike, sent: Option<Str>)
      requires list != jsHeaders && list.Valid() && jsHeaders.Valid()
      modifies `jsUrl, jsHeaders
      ensures jsHeaders.Valid() && jsHeaders.Contents() == old(jsHeaders.Contents()) + list.Contents()
      ensures jsUrl == if sent.Some? then old(jsUrl) + sent.value else old(jsUrl)
    {
      AddHeader(jsHeaders, list);
      if sent.Some? {
        jsUrl := jsUrl + sent.value;
      }
    }

    method OnHeadersComplete() returns (incoming: IncomingMessage)
      requires Valid()
      requires isRequest && !flushed ==> url != []
      modifies this, jsHeaders
      ensures Valid() && Idle() && flushed == old(flushed)
      ensures fresh(incoming) && incoming.headers == LastWins(old(View()).pairs)
      ensures incoming.url == if isRequest then old(jsUrl + url) else old(jsUrl)
      ensures incoming.statusMessage == if isRequest then [] else old(statusMsg)
      ensures jsUrl == if isRequest && flushed then old(jsUrl + url) else old(jsUrl)
      ensures jsHeaders == old(jsHeaders) || fresh(jsHeaders)
    {
      hide Flat, LastWins, ArrayLike.Valid, ArrayLike.Contents;
      ghost var pairs := View().pairs;
      var headers: Option<ArrayLike> := None;
      var infoUrl: Option<Str> := None;
      if flushed {
        Flush();
      } else {
        var list := MakeHeader();
        headers := Some(list);
        if isRequest {
          assert url != [];
          infoUrl := Some(url);
        }
        assert [] + Table(nValues) == Table(nValues);
        assert [] + url == url;
      }
      nFields, nValues := 0, 0;
      var infoStatus := if isRequest then None else Some(statusMsg);
      incoming := ParserOnHeadersComplete(headers, infoUrl, infoStatus, pairs);
      assert Table(nValues) == [];
    }

    /** JavaScript: the header part is over; `headers` is missing if batches came before. */
    method ParserOnHeadersComplete(headers: Option<ArrayLike>, infoUrl: Option<Str>, infoStatus: Option<Str>,
                                   ghost hs: seq<Header>)
      returns (incoming: IncomingMessage)
      requires jsHeaders.Valid() && jsHeaders.Contents() == Flat(delivered)
      requires headers.Some? ==> headers.value.Valid() && headers.value.Contents() == Flat(hs)
      requires headers.None? ==> delivered == hs
      requires infoUrl.Some? ==> infoUrl.value != []
      modifies `jsHeaders, `delivered
      ensures fresh(incoming) && incoming.headers == LastWins(hs)
      ensures incoming.url == if infoUrl.Some? then infoUrl.value else jsUrl
      ensures incoming.statusMessage == if infoStatus.Some? then infoStatus.value else []
      ensures jsHeaders.Valid() && jsHeaders.Contents() == Flat(delivered)
      ensures if headers.Some? then jsHeaders == old(jsHeaders) && delivered == old(delivered)
              else fresh(jsHeaders) && delivered == []
    {
      hide Flat, LastWins, ArrayLike.Valid, ArrayLike.Contents;
      var theUrl := if infoUrl.Some? && infoUrl.value != [] then infoUrl.value else jsUrl;
      var list;
      if headers.Some? {
        list := headers.value;
      } else {
        list := jsHeaders;
        jsHeaders := new ArrayLike();
        delivered := [];
      }
      incoming := new IncomingMessage();
      incoming.url := theUrl;
      incoming.AddHeaders(list, hs);
      if infoStatus.Some? {
        incoming.statusMessage := infoStatus.value;
      }
    }

    // ---------------------------------------------------------- whole messages

    method DeliverUrl(parts: seq<Str>)
      requires Valid()
      modifies `url
      ensures Valid() && url == old(url) + Flatten(Kept(parts))
    {
      hide Flatten;
      PiecesNone();
      var i := 0;
      while i < |parts|
        invariant 0 <= i <= |parts| && Valid()
        invariant url == old(url) + Flatten(Kept(parts[..i]))
      {
        PiecesNext(parts, i);
        OnUrl(parts[i]);
        i := i + 1;
      }
      assert parts[..i] == parts;
    }

    method DeliverStatus(parts: seq<Str>)
      requires Valid()
      modifies `statusMsg
      ensures Valid() && statusMsg == old(statusMsg) + Flatten(Kept(parts))
    {
      hide Flatten;
      PiecesNone();
      var i := 0;
      while i < |parts|
        invariant 0 <= i <= |parts| && Valid()
        invariant statusMsg == old(statusMsg) + Flatten(Kept(parts[..i]))
      {
        PiecesNext(parts, i);
        OnStatus(parts[i]);
        i := i + 1;
      }
      assert parts[..i] == parts;
    }

    /** All the callbacks of one header. */
    method DeliverHeader(f: Fragments)
      requires Valid() && f.Valid() && View().partial.None?
      modifies this, fields, values, jsHeaders
      ensures Valid() && View() == Received(old(View()).pairs + [f.Stored().Whole()], None)
      ensures if isRequest then jsUrl + url == old(jsUrl + url) else jsUrl == old(jsUrl)
      ensures statusMsg == old(statusMsg)
      ensures flushed <==> old(flushed) || |old(View()).pairs| == headerMax - 1
      ensures jsHeaders == old(jsHeaders)
    {
      hide Valid, View, OnField, OnValue, OnFields, OnValues, Flatten;
      ghost var r0 := View();
      HeaderReceived(r0.pairs, f.Stored());
      DeliverName(f.name);
      DeliverValue(f.value);
    }

    method DeliverName(parts: seq<Str>)
      requires Valid() && parts != [] && View().partial.None?
      modifies this, fields, jsHeaders
      ensures Valid() && View() == OnFields(old(View()), Kept(parts)) && View().partial.Some?
      ensures if isRequest then jsUrl + url == old(jsUrl + url) else jsUrl == old(jsUrl)
      ensures statusMsg == old(statusMsg)
      ensures flushed <==> old(flushed) || |old(View()).pairs| == headerMax - 1
      ensures jsHeaders == old(jsHeaders)
    {
      hide Valid, View, IotString.Strncpy;
      ghost var r0 := View();
      ghost var kept := Kept(parts);
      var i := 0;
      while i < |parts|
        invariant 0 <= i <= |parts| && Valid() && jsHeaders == old(jsHeaders)
        invariant View() == OnFields(r0, kept[..i])
        invariant i > 0 ==> View().partial.Some?
        invariant if isRequest then jsUrl + url == old(jsUrl + url) else jsUrl == old(jsUrl)
        invariant statusMsg == old(statusMsg)
        invariant flushed <==> old(flushed) || (i > 0 && |r0.pairs| == headerMax - 1)
      {
        FieldsSnoc(r0, kept[..i], kept[i]);
        assert kept[..i + 1] == kept[..i] + [kept[i]];
        OnHeaderField(parts[i]);
        i := i + 1;
      }
      assert kept[..i] == kept;
    }

    method DeliverValue(parts: seq<Str>)
      requires Valid() && ValueExpected(View())
      modifies this, values
      ensures Valid() && View() == OnValues(old(View()), Kept(parts))
      ensures jsUrl == old(jsUrl) && url == old(url) && statusMsg == old(statusMsg) && flushed == old(flushed)
      ensures jsHeaders == old(jsHeaders)
    {
      hide Valid, View, IotString.Strncpy;
      ghost var r0 := View();
      ghost var kept := Kept(parts);
      var i := 0;
      while i < |parts|
        invariant 0 <= i <= |parts| && Valid()
        invariant View() == OnValues(r0, kept[..i])
        invariant jsUrl == old(jsUrl) && url == old(url) && statusMsg == old(statusMsg)
        invariant flushed == old(flushed) && jsHeaders == old(jsHeaders)
      {
        ValuesSnoc(r0, kept[..i], kept[i]);
        assert kept[..i + 1] == kept[..i] + [kept[i]];
        OnHeaderValue(parts[i]);
        i := i + 1;
      }
      assert kept[..i] == kept;
    }

    method DeliverAll(m: Message)
      requires Valid() && Idle() && m.Valid()
      modifies this, fields, values, jsHeaders
      ensures Valid() && View() == Received(Block(m.Stored().headers), None)
      ensures if isRequest then jsUrl + url == old(jsUrl + url) else jsUrl == old(jsUrl)
      ensures statusMsg == old(statusMsg)
      ensures flushed <==> old(flushed) || Overflows(m, headerMax)
      ensures jsHeaders == old(jsHeaders)
    {
      assert headerMax >= 2;
      hide Valid, View, Flatten, Fragments.Valid, Fragments.Stored;
      ghost var fs := m.Stored().headers;
      var k := 0;
      assert Block(fs[..0]) == [];
      while k < |m.headers|
        invariant 0 <= k <= |m.headers| && Valid() && jsHeaders == old(jsHeaders)
        invariant View() == Received(Block(fs[..k]), None)
        invariant if isRequest then jsUrl + url == old(jsUrl + url) else jsUrl == old(jsUrl)
        invariant statusMsg == old(statusMsg)
        invariant flushed <==> old(flushed) || k >= headerMax
      {
        assert Block(fs[..k + 1]) == Block(fs[..k]) + [fs[k].Whole()];
        DeliverHeader(m.headers[k]);
        k := k + 1;
      }
      assert fs[..k] == fs;
    }

    /**
     One message, in any fragmentation: its headers arrive as the last-wins map of the
     block; a request's URL arrives behind whatever JavaScript had left over, and a
     response's status text as it is.
     */
    method ParseMessage(m: Message) returns (incoming: IncomingMessage)
      requires Valid() && Idle() && m.Valid() && (isRequest ==> m.HasUrl())
      modifies this, fields, values, jsHeaders
      ensures Valid() && Idle() && fresh(incoming)
      ensures incoming.headers == LastWins(Block(m.Stored().headers))
      ensures isRequest ==> incoming.url == old(jsUrl) + Flatten(m.Stored().url)
      ensures !isRequest ==> incoming.statusMessage == Flatten(m.Stored().status)
      ensures flushed <==> old(flushed) || Overflows(m, headerMax)
      ensures isRequest ==> jsUrl == if flushed then old(jsUrl) + Flatten(m.Stored().url) else []
      ensures jsHeaders == old(jsHeaders) || fresh(jsHeaders)
    {
      StoredFacts(m);
      hide Flatten, Kept, LastWins, Block, Fragments.Stored, Fragments.Valid;
      ghost var theUrl, text := Flatten(m.Stored().url), Flatten(m.Stored().status);
      OnMessageBegin();
      if isRequest {
        DeliverUrl(m.url);
        assert url == [] + theUrl == theUrl;
      } else {
        DeliverStatus(m.status);
        assert statusMsg == [] + text == text;
      }
      ghost var carried := jsUrl;
      DeliverAll(m);
      if isRequest && !flushed {
        assert carried == [] && jsUrl == [];
        assert [] + url == url && [] + theUrl == theUrl;
      }
      incoming := OnHeadersComplete();
    }
  }

  lemma PiecesNone()
    ensures Flatten(Kept([])) == []
  {
  }

  lemma PiecesNext(parts: seq<Str>, i: nat)
    requires i < |parts|
    ensures Flatten(Kept(parts[..i + 1])) == Flatten(Kept(parts[..i])) + IotString.Strncpy(parts[i])
  {
    FlattenSnoc(Kept(parts[..i]), IotString.Strncpy(parts[i]));
    assert Kept(parts[..i + 1]) == Kept(parts[..i]) + [IotString.Strncpy(parts[i])];
  }

  /**
   However one block is cut up, and whatever the size of the table, two parsers
   deliver the same headers.
   */
  method ParseBoth(a: Message, b: Message, maxA: nat, maxB: nat, requestA: bool, requestB: bool)
    returns (first: map<Str, Str>, second: map<Str, Str>)
    requires maxA >= 2 && maxB >= 2
    requires a.Valid() && a.NoNul() && (requestA ==> a.HasUrl())
    requires b.Valid() && b.NoNul() && (requestB ==> b.HasUrl())
    ensures Block(a.headers) == Block(b.headers) ==> first == second
    ensures first == LastWins(Block(a.headers)) && second == LastWins(Block(b.headers))
  {
    first := ParseOne(a, maxA, requestA);
    second := ParseOne(b, maxB, requestB);
  }

  method ParseOne(m: Message, headerMax: nat, isRequest: bool) returns (headers: map<Str, Str>)
    requires headerMax >= 2 && m.Valid() && m.NoNul() && (isRequest ==> m.HasUrl())
    ensures headers == LastWins(Block(m.headers))
  {
    StoredFacts(m);
    hide HttpParserWrap.Valid, HttpParserWrap.Idle, LastWins, Block, Message.Valid, Message.NoNul, Message.Stored;
    var parser := new HttpParserWrap(headerMax, isRequest);
    var incoming := parser.ParseMessage(m);
    headers := incoming.headers;
  }

  datatype Parsed = Parsed(headers: map<Str, Str>, url: Str, status: Str)

  function StoredAll(ms: seq<Message>): (sms: seq<Message>)
    ensures |sms| == |ms|
  {
    seq(|ms|, k requires 0 <= k < |ms| => ms[k].Stored())
  }

  /** The k-th result of a connection, in terms of the messages as C strings hold them. */
  predicate IsResult(r: Parsed, sms: seq<Message>, k: nat, headerMax: nat, isRequest: bool)
    requires k < |sms|
  {
    && r.headers == LastWins(Block(sms[k].headers))
    && if isRequest then r.url == DeliveredUrl(sms, k, headerMax) else r.status == Flatten(sms[k].status)
  }

  /** All the messages of a connection, one after the other, through one parser. */
  method ParseAll(ms: seq<Message>, headerMax: nat, isRequest: bool) returns (results: seq<Parsed>)
    requires headerMax >= 2
    requires forall k :: 0 <= k < |ms| ==> ms[k].Valid() && (isRequest ==> ms[k].HasUrl())
    ensures |results| == |ms|
    ensures forall k :: 0 <= k < |ms| ==> IsResult(results[k], StoredAll(ms), k, headerMax, isRequest)
  {
    hide HttpParserWrap.Valid, HttpParserWrap.Idle, LastWins, Block, Flatten, Message.HasUrl, Message.Stored,
      Fragments.Valid, Overflows, IsResult;
    var parser := new HttpParserWrap(headerMax, isRequest);
    results := [];
    while |results| < |ms|
      invariant |results| <= |ms|
      invariant parser.Valid() && parser.Idle() && parser.isRequest == isRequest && parser.headerMax == headerMax
      invariant fresh(parser) && fresh(parser.fields) && fresh(parser.values) && fresh(parser.jsHeaders)
      invariant isRequest ==> (parser.flushed, parser.jsUrl) == Carry(StoredAll(ms), |results|, headerMax)
      invariant forall k :: 0 <= k < |results| ==> IsResult(results[k], StoredAll(ms), k, headerMax, isRequest)
      decreases |ms| - |results|
    {
      var r := ParseNext(parser, ms, |results|);
      results := results + [r];
    }
  }

  method ParseNext(parser: HttpParserWrap, ms: seq<Message>, k: nat) returns (r: Parsed)
    requires k < |ms| && parser.Valid() && parser.Idle()
    requires ms[k].Valid() && (parser.isRequest ==> ms[k].HasUrl())
    requires parser.isRequest ==> (parser.flushed, parser.jsUrl) == Carry(StoredAll(ms), k, parser.headerMax)
    modifies parser, parser.fields, parser.values, parser.jsHeaders
    ensures parser.Valid() && parser.Idle()
    ensures parser.jsHeaders == old(parser.jsHeaders) || fresh(parser.jsHeaders)
    ensures parser.isRequest ==> (parser.flushed, parser.jsUrl) == Carry(StoredAll(ms), k + 1, parser.headerMax)
    ensures IsResult(r, StoredAll(ms), k, parser.headerMax, parser.isRequest)
  {
    hide HttpParserWrap.Valid, HttpParserWrap.Idle, LastWins, Block, Flatten, Message.Stored, Message.Valid, Overflows;
    StoredOverflows(ms[k], parser.headerMax);
    var incoming := parser.ParseMessage(ms[k]);
    r := Parsed(incoming.headers, incoming.url, incoming.statusMessage);
  }

  /**
   A connection that carries several messages, all requests or all responses: every
   message has its own headers and status; a request has its own URL if and only if
   no earlier one overflowed the table, and otherwise all URLs since the first that did.
   */
  method ParseConnection(ms: seq<Message>, headerMax: nat, isRequest: bool) returns (results: seq<Parsed>)
    requires headerMax >= 2
    requires forall k :: 0 <= k < |ms| ==> ms[k].Valid() && (isRequest ==> ms[k].HasUrl())
    ensures |results| == |ms|
    ensures forall k :: 0 <= k < |ms| ==> results[k].headers == LastWins(Block(StoredAll(ms)[k].headers))
    ensures isRequest ==> forall k :: 0 <= k < |ms| ==>
              (results[k].url == Flatten(StoredAll(ms)[k].url) <==> NoneOverflows(ms, k, headerMax))
    ensures isRequest ==> forall f, k :: 0 <= f <= k < |ms| && FirstOverflow(ms, f, headerMax) ==>
              results[k].url == JoinedUrls(StoredAll(ms), f, k + 1)
    ensures forall k :: 0 <= k < |ms| && !isRequest ==> results[k].status == Flatten(StoredAll(ms)[k].status)
    ensures forall k :: 0 <= k < |ms| && ms[k].NoNul() ==> StoredAll(ms)[k] == ms[k]
  {
    results := ParseAll(ms, headerMax, isRequest);
    hide LastWins, Block, Flatten, Message.Stored, Message.NoNul, Message.HasUrl, DeliveredUrl,
      JoinedUrls, FirstOverflow;
    ghost var sms := StoredAll(ms);
    forall k | 0 <= k < |ms|
      ensures ms[k].NoNul() ==> sms[k] == ms[k]
      ensures isRequest ==> sms[k].HasUrl()
      ensures Overflows(sms[k], headerMax) <==> Overflows(ms[k], headerMax)
    {
      StoredFacts(ms[k]);
      StoredOverflows(ms[k], headerMax);
    }
    if isRequest {
      UrlsArrive(ms, sms, headerMax);
    }
  }

  /** The first message that overflows the table. */
  predicate FirstOverflow(ms: seq<Message>, f: nat, headerMax: nat)
    requires f < |ms|
  {
    Overflows(ms[f], headerMax) && NoneOverflows(ms, f, headerMax)
  }

  lemma UrlsArrive(ms: seq<Message>, sms: seq<Message>, headerMax: nat)
    requires |sms| == |ms|
    requires forall k :: 0 <= k < |ms| ==> sms[k].HasUrl()
    requires forall k :: 0 <= k < |ms| ==> (Overflows(sms[k], headerMax) <==> Overflows(ms[k], headerMax))
    ensures forall k :: 0 <= k < |ms| ==>
              (DeliveredUrl(sms, k, headerMax) == Flatten(sms[k].url) <==> NoneOverflows(ms, k, headerMax))
    ensures forall f, k :: 0 <= f <= k < |ms| && FirstOverflow(ms, f, headerMax) ==>
              DeliveredUrl(sms, k, headerMax) == JoinedUrls(sms, f, k + 1)
  {
    hide Flatten, Message.HasUrl, DeliveredUrl, Overflows;
    forall k | 0 <= k < |ms|
      ensures DeliveredUrl(sms, k, headerMax) == Flatten(sms[k].url) <==> NoneOverflows(ms, k, headerMax)
    {
      UrlIntact(sms, k, headerMax);
    }
    forall f, k | 0 <= f <= k < |ms| && FirstOverflow(ms, f, headerMax)
      ensures DeliveredUrl(sms, k, headerMax) == JoinedUrls(sms, f, k + 1)
    {
      UrlsPileUp(sms, f, k, headerMax);
    }
  }

  lemma StoredOverflows(m: Message, headerMax: nat)
    ensures Overflows(m.Stored(), headerMax) <==> Overflows(m, headerMax)
  {
  }
}
