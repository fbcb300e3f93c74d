/** The runtime loader of built-in modules as the library implements it. */
module Loader {
  import opened Graph
  import opened LoaderSpec
  import Build

  class Native {
    const natives: seq<Name>  // the table of sources compiled into the binary
    const body: Edges         // what each module requires while it is being loaded
    var cache: set<Name>

    ghost var compiled: seq<Name>  // every call of compile(), in order

    /** Every module in the cache was compiled, exactly once. */
    ghost predicate Valid()
      reads this
    {
      && (forall n :: n in cache <==> n in compiled)
      && (forall i, j :: 0 <= i < j < |compiled| ==> compiled[i] != compiled[j])
    }

    ghost function Table(): set<Name> {
      Build.Set(natives)
    }

    constructor (natives: seq<Name>, body: Edges)
      ensures Valid() && cache == {}
      ensures this.natives == natives && this.body == body
    {
      this.natives, this.body := natives, body;
      cache, compiled := {}, [];
    }

    /** `Native.require`; `ok` is false when it throws. */
    method Require(id: Name) returns (ok: bool)
      requires Valid()
      modifies this
      ensures Valid() && old(compiled) <= compiled
      ensures (cache, ok) == LoaderSpec.Require(Table(), body, old(cache), id)
      decreases Table() - cache, 1
    {
      if id == NATIVE {
        return true;
      }
      if id in cache {
        return true;
      }
      ghost var before := cache;
      cache := cache + {id};
      compiled := compiled + [id];
      ok := Compile(id, before);
    }

    /** Runs the source of a module that has just been entered in the cache. */
    method Compile(id: Name, ghost before: set<Name>) returns (ok: bool)
      requires Valid() && id !in before && cache == before + {id}
      modifies this
      ensures Valid() && old(compiled) <= compiled
      ensures (cache, ok) == if id in Table() then RequireAll(Table(), body, old(cache), Body(body, id))
                             else (old(cache), false)
      decreases Table() - before, 0
    {
      var found := CompileNativePtr(id);
      if !found {
        return false;
      }
      var deps := Body(body, id);
      for i := 0 to |deps|
        invariant Valid() && old(compiled) <= compiled && before + {id} <= cache
        invariant RequireAll(Table(), body, old(cache), deps) == RequireAll(Table(), body, cache, deps[i..])
      {
        ok := Require(deps[i]);
        if !ok {
          return false;
        }
        assert deps[i..][1..] == deps[i + 1..];
      }
      return true;
    }

    /** Looks the name up in the table. */
    method CompileNativePtr(id: Name) returns (found: bool)
      ensures found <==> id in Table()
    {
      var i := 0;
      while i < |natives|
        invariant 0 <= i <= |natives| && id !in natives[..i]
      {
        if natives[i] == id {
          return true;
        }
        i := i + 1;
      }
      assert natives[..i] == natives;
      return false;
    }

    /** One call after the other, by whatever modules make them. */
    method Serve(calls: seq<Call>) returns (results: seq<bool>)
      requires Valid()
      modifies this
      ensures Valid() && old(compiled) <= compiled
      ensures results == Results(Table(), body, old(cache), calls)
      ensures cache == After(Table(), body, old(cache), calls)
    {
      hide LoaderSpec.Require;
      results := [];
      assert calls[0..] == calls;
      for i := 0 to |calls|
        invariant Valid() && old(compiled) <= compiled
        invariant Results(Table(), body, old(cache), calls) == results + Results(Table(), body, cache, calls[i..])
        invariant After(Table(), body, old(cache), calls) == After(Table(), body, cache, calls[i..])
      {
        assert calls[i..][0] == calls[i] && calls[i..][1..] == calls[i + 1..];
        var ok := Require(calls[i].id);
        results := results + [ok];
      }
    }
  }

  /**
   The whole way from sources to a running system: analyse, put the modules found in
   the table in any order, and serve a session.
   */
  method BuildAndServe(o: Build.Options, c: Build.Config, files: Build.Files,
                       natives: seq<Name>, body: Edges, calls: seq<Call>)
    returns (built: Build.Result<Build.Modules>, native: Native, results: seq<bool>)
    ensures built.Ok? <==> Build.Consistent(o, c) && Build.Buildable(Build.Seeds(o, c), Build.Excluded(o, c), files)
    ensures fresh(native) && native.Valid() && native.natives == natives
    ensures results == Results(Build.Set(natives), body, {}, calls)
    ensures native.cache == After(Build.Set(natives), body, {}, calls)
    ensures built.Ok? && Build.Set(natives) == built.value.js && FollowsText(body, c, files) &&
            Session(built.value.js, body, c, files, {}, calls) ==>
              && (forall k :: 0 <= k < |calls| ==> results[k])
              && (forall k :: 0 <= k < |calls| ==> calls[k].id in native.compiled || calls[k].id in SKIP)
              && (forall n :: n in native.compiled ==> n in built.value.js)
  {
    hide Build.Consistent, Build.Buildable, FollowsText, Session, Build.Scanned;
    built := Build.AnalyzeModuleDependency(o, c, files);
    native := new Native(natives, body);
    results := native.Serve(calls);
    if built.Ok? && Build.Set(natives) == built.value.js && FollowsText(body, c, files) &&
       Session(built.value.js, body, c, files, {}, calls) {
      BuildToRuntime(o, c, files, built.value.js, body, {}, calls);
    }
  }
}
