/**
 Loading of built-in modules as a function of the cache, and the theorem that joins
 it to the build: what a binary may require at run time is always in its table.
 */
module LoaderSpec {
  import opened Graph
  import Build

  const NATIVE: Name := "native"
  const SKIP: set<Name> := {"native"}

  function Body(body: Edges, id: Name): seq<Name> {
    if id in body then body[id] else []
  }

  /**
   The cache after `require(id)`, and whether it returned; it does not if "Unknown
   native module" was thrown.  The entry is made before the module is compiled, and a
   module that failed stays in the cache.  `body` lists what each module requires
   while it is loaded.
   */
  function Require(table: set<Name>, body: Edges, cache: set<Name>, id: Name): (r: (set<Name>, bool))
    ensures cache <= r.0
    decreases table - cache, 0
  {
    if id == NATIVE || id in cache then (cache, true)
    else if id !in table then (cache + {id}, false)
    else RequireAll(table, body, cache + {id}, Body(body, id))
  }

  /** One require() after the other, until one throws. */
  function RequireAll(table: set<Name>, body: Edges, cache: set<Name>, ids: seq<Name>): (r: (set<Name>, bool))
    ensures cache <= r.0
    decreases table - cache, |ids|
  {
    if ids == [] then (cache, true)
    else
      var (cache', ok) := Require(table, body, cache, ids[0]);
      if ok then RequireAll(table, body, cache', ids[1..]) else (cache', false)
  }

  // ------------------------------------------------------- what a load achieves

  /** `n` was loaded successfully: it is in the table, and all it requires is loaded. */
  predicate Complete(table: set<Name>, body: Edges, cache: set<Name>, n: Name) {
    n in table && forall d :: d in Body(body, n) ==> d in cache || d in SKIP
  }

  /** The entries made by one load. */
  ghost predicate Loaded(table: set<Name>, body: Edges, before: set<Name>, after: set<Name>, from: Name, ok: bool) {
    && (from in SKIP ==> after == before)
    && (forall n :: n in after - before ==> Reach(body, SKIP, {from}, n))
    && (ok ==> from in after || from in SKIP)
    && (ok ==> forall n :: n in after - before ==> Complete(table, body, after, n))
    && (!ok ==> exists n :: n in after - before && n !in table)
  }

  lemma {:induction false} RequireLoads(table: set<Name>, body: Edges, cache: set<Name>, id: Name)
    ensures var (after, ok) := Require(table, body, cache, id);
            Loaded(table, body, cache, after, id, ok)
    decreases table - cache, 0
  {
    hide Reach;
    ReachSelf(body, SKIP, {id}, id);
    if id != NATIVE && id !in cache && id in table {
      RequireAllLoads(table, body, cache + {id}, id, Body(body, id));
    }
  }

  lemma {:induction false} RequireAllLoads(table: set<Name>, body: Edges, cache: set<Name>, from: Name, ids: seq<Name>)
    requires forall d :: d in ids ==> d in Body(body, from)
    ensures var (after, ok) := RequireAll(table, body, cache, ids);
            && (forall n :: n in after - cache ==> Reach(body, SKIP, {from}, n))
            && (ok ==> forall d :: d in ids ==> d in after || d in SKIP)
            && (ok ==> forall n :: n in after - cache ==> Complete(table, body, after, n))
            && (!ok ==> exists n :: n in after - cache && n !in table)
    decreases table - cache, |ids|
  {
    hide Reach;
    if ids != [] {
      var id := ids[0];
      assert id in ids;
      RequireLoads(table, body, cache, id);
      var (mid, ok) := Require(table, body, cache, id);
      forall n | n in mid - cache
        ensures Reach(body, SKIP, {from}, n)
      {
        ReachVia(body, SKIP, from, id, n);
      }
      if ok {
        assert forall d :: d in ids[1..] ==> d in ids;
        RequireAllLoads(table, body, mid, from, ids[1..]);
        assert ids == [id] + ids[1..];
        var (after, fine) := RequireAll(table, body, cache, ids);
        if fine { CompleteStays(table, body, cache, mid, after); }
      }
    }
  }

  lemma CompleteStays(table: set<Name>, body: Edges, cache: set<Name>, mid: set<Name>, after: set<Name>)
    requires mid <= after
    requires forall n :: n in mid - cache ==> Complete(table, body, mid, n)
    requires forall n :: n in after - mid ==> Complete(table, body, after, n)
    ensures forall n :: n in after - cache ==> Complete(table, body, after, n)
  {
    forall n | n in after - cache
      ensures Complete(table, body, after, n)
    {
      assert n in mid - cache || n in after - mid;
    }
  }

  /**
   From an empty cache: the load succeeds if and only if everything reachable is in
   the table, and then it loads exactly the reachable modules.
   */
  lemma FirstRequire(table: set<Name>, body: Edges, id: Name)
    requires id != NATIVE
    ensures var (after, ok) := Require(table, body, {}, id);
            && (ok <==> forall n :: Reach(body, SKIP, {id}, n) ==> n in table)
            && (ok ==> forall n :: n in after <==> Reach(body, SKIP, {id}, n))
  {
    hide Reach, Require;
    RequireLoads(table, body, {}, id);
    var (after, ok) := Require(table, body, {}, id);
    assert after - {} == after;
    if ok {
      forall a, b | a in after && Edge(body, SKIP, a, b)
        ensures b in after
      {
        assert Complete(table, body, after, a) && b in Body(body, a);
      }
      ReachLeast(body, SKIP, {id}, after);
    } else {
      var n :| n in after && n !in table;
      assert Reach(body, SKIP, {id}, n);
    }
  }

  // -------------------------------------------------------------- whole sessions

  datatype Call = Call(caller: Name, id: Name)

  /** The cache after a list of calls; a call that throws does not stop the others. */
  function After(table: set<Name>, body: Edges, cache: set<Name>, calls: seq<Call>): set<Name>
    decreases |calls|
  {
    if calls == [] then cache
    else After(table, body, Require(table, body, cache, calls[0].id).0, calls[1..])
  }

  function Results(table: set<Name>, body: Edges, cache: set<Name>, calls: seq<Call>): (rs: seq<bool>)
    ensures |rs| == |calls|
    decreases |calls|
  {
    if calls == [] then []
    else
      var (cache', ok) := Require(table, body, cache, calls[0].id);
      [ok] + Results(table, body, cache', calls[1..])
  }

  /** Each call gets the result of a require() in the cache that the calls before it left. */
  lemma {:induction false} ResultsAt(table: set<Name>, body: Edges, cache: set<Name>, calls: seq<Call>, k: nat)
    requires k < |calls|
    ensures var before := After(table, body, cache, calls[..k]);
            && Results(table, body, cache, calls)[k] == Require(table, body, before, calls[k].id).1
            && After(table, body, cache, calls[..k + 1]) == Require(table, body, before, calls[k].id).0
    decreases |calls|
  {
    hide Require;
    var cache' := Require(table, body, cache, calls[0].id).0;
    if k > 0 {
      ResultsAt(table, body, cache', calls[1..], k - 1);
      assert calls[..k][1..] == calls[1..][..k - 1] && calls[..k + 1][1..] == calls[1..][..k];
    } else {
      assert calls[..1][1..] == [];
    }
  }

  /** A name that the text of `caller` requires; `iotjs.js` requires mandatory modules only. */
  predicate InText(c: Build.Config, files: Build.Files, caller: Name, id: Name) {
    if caller == "iotjs" then id in c.always || id in SKIP
    else caller in files && id in files[caller].deps
  }

  /** While they are loaded, modules require only what their text names. */
  ghost predicate FollowsText(body: Edges, c: Build.Config, files: Build.Files) {
    forall n, d :: n in body && d in body[n] ==> InText(c, files, n, d)
  }

  /**
   The calls of a running system: by `iotjs.js` and by loaded modules, of names in
   their text; and by `module`, on behalf of user code, of any name in the table.
   */
  predicate MayCall(table: set<Name>, c: Build.Config, files: Build.Files, cache: set<Name>, call: Call) {
    || (InText(c, files, call.caller, call.id) && (call.caller == "iotjs" || call.caller in cache))
    || (call.caller == "module" && "module" in cache && call.id in table)
  }

  predicate Session(table: set<Name>, body: Edges, c: Build.Config, files: Build.Files,
                    cache: set<Name>, calls: seq<Call>)
    decreases |calls|
  {
    calls == [] ||
    (&& MayCall(table, c, files, cache, calls[0])
     && Session(table, body, c, files, Require(table, body, cache, calls[0].id).0, calls[1..]))
  }

  // ----------------------------------------------------------- from build to run

  /** The names that the build puts in the table. */
  ghost predicate IsTable(table: set<Name>, seeds: set<Name>, files: Build.Files) {
    forall n :: n in table <==> n != NATIVE && (n == "iotjs" || Build.Scanned(seeds, files, n))
  }

  ghost predicate ClosedTable(table: set<Name>, body: Edges) {
    forall n, d :: n in table && d in Body(body, n) ==> d in table || d in SKIP
  }

  lemma InTextInTable(o: Build.Options, c: Build.Config, files: Build.Files, table: set<Name>, n: Name, d: Name)
    requires Build.Consistent(o, c) && Build.Buildable(Build.Seeds(o, c), Build.Excluded(o, c), files)
    requires IsTable(table, Build.Seeds(o, c), files)
    requires n in table && InText(c, files, n, d)
    ensures d in table || d in SKIP
  {
    hide Reach;
    var seeds := Build.Seeds(o, c);
    if d !in SKIP && d != "iotjs" {
      if n == "iotjs" {
        Build.ExcludedStayOut(o, c, files, d);
      } else {
        assert Edge(Build.Deps(files), Build.SPECIAL, n, d);
        ReachEdge(Build.Deps(files), Build.SPECIAL, seeds, n, d);
        assert Build.Scanned(seeds, files, d);
      }
    }
  }

  /** What the build produces is closed under everything its modules may require. */
  lemma BuildIsClosed(o: Build.Options, c: Build.Config, files: Build.Files, table: set<Name>, body: Edges)
    requires Build.Consistent(o, c) && Build.Buildable(Build.Seeds(o, c), Build.Excluded(o, c), files)
    requires IsTable(table, Build.Seeds(o, c), files)
    requires FollowsText(body, c, files)
    ensures ClosedTable(table, body)
  {
    forall n, d | n in table && d in Body(body, n)
      ensures d in table || d in SKIP
    {
      InTextInTable(o, c, files, table, n, d);
    }
  }

  /** A closed table never misses a module. */
  lemma ClosedNeverFails(table: set<Name>, body: Edges, cache: set<Name>, id: Name)
    requires ClosedTable(table, body) && cache <= table && (id in table || id in SKIP)
    ensures var (after, ok) := Require(table, body, cache, id);
            ok && after <= table && (id in after || id in SKIP)
  {
    hide Reach;
    RequireLoads(table, body, cache, id);
    if id in table {
      forall a, b | a in table && Edge(body, SKIP, a, b)
        ensures b in table
      {
        assert b in Body(body, a);
      }
      ReachLeast(body, SKIP, {id}, table);
    }
  }

  /**
   Build, then run: in a binary made from a successful analysis, whatever its modules
   require while they are loaded, every call of every session returns; nothing outside
   the table is ever compiled, and every module asked for is loaded.
   */
  lemma {:induction false} BuildToRuntime(o: Build.Options, c: Build.Config, files: Build.Files, table: set<Name>,
                                          body: Edges, cache: set<Name>, calls: seq<Call>)
    requires Build.Consistent(o, c) && Build.Buildable(Build.Seeds(o, c), Build.Excluded(o, c), files)
    requires IsTable(table, Build.Seeds(o, c), files) && FollowsText(body, c, files)
    requires cache <= table && Session(table, body, c, files, cache, calls)
    ensures forall k :: 0 <= k < |calls| ==> Results(table, body, cache, calls)[k]
    ensures After(table, body, cache, calls) <= table
    ensures forall k :: 0 <= k < |calls| ==>
              calls[k].id in After(table, body, cache, calls) || calls[k].id in SKIP
    decreases |calls|
  {
    hide Build.Consistent, Build.Buildable, Build.Seeds, IsTable, FollowsText, ClosedTable, Require, InText;
    if calls != [] {
      var call := calls[0];
      assert "iotjs" in table by { IotjsInTable(table, Build.Seeds(o, c), files); }
      if InText(c, files, call.caller, call.id) && (call.caller == "iotjs" || call.caller in cache) {
        InTextInTable(o, c, files, table, call.caller, call.id);
      }
      BuildIsClosed(o, c, files, table, body);
      ClosedNeverFails(table, body, cache, call.id);
      var (cache', ok) := Require(table, body, cache, call.id);
      BuildToRuntime(o, c, files, table, body, cache', calls[1..]);
      AfterGrows(table, body, cache', calls[1..]);
      forall k | 0 <= k < |calls|
        ensures calls[k].id in After(table, body, cache, calls) || calls[k].id in SKIP
      {
        if k > 0 { assert calls[k] == calls[1..][k - 1]; }
      }
    }
  }

  lemma IotjsInTable(table: set<Name>, seeds: set<Name>, files: Build.Files)
    requires IsTable(table, seeds, files)
    ensures "iotjs" in table
  {
    var name: Name := "iotjs";
    assert name in table <==> name != NATIVE && (name == "iotjs" || Build.Scanned(seeds, files, name));
  }

  lemma {:induction false} AfterGrows(table: set<Name>, body: Edges, cache: set<Name>, calls: seq<Call>)
    ensures cache <= After(table, body, cache, calls)
    decreases |calls|
  {
    if calls != [] {
      AfterGrows(table, body, Require(table, body, cache, calls[0].id).0, calls[1..]);
    }
  }
}
