/** The build script's choice of the modules that go into the binary. */
module Build {
  import opened Graph

  /** A JavaScript source, reduced to the names its text requires and the native bindings it names. */
  datatype Source = Source(deps: seq<Name>, bindings: seq<Name>)

  type Files = map<Name, Source>

  datatype Config = Config(always: seq<Name>, optional: seq<Name>, exclude: seq<Name>)

  datatype Options = Options(includeModule: seq<Name>, excludeModule: seq<Name>, minimal: bool)

  datatype Error =
    | AlreadyIncluded(name: Name)
    | AlreadyExcluded(name: Name)
    | CannotExcludeMandatory(name: Name)
    | NothingToExclude(name: Name)
    | RequiredButExcluded(name: Name, requiredBy: Name)
    | MissingFile(name: Name)

  datatype Result<+T> = Ok(value: T) | Err(error: Error)

  datatype Modules = Modules(js: set<Name>, native: set<Name>)

  const SPECIAL: set<Name> := {"iotjs", "native"}

  // ----------------------------------------------------------- specification

  function Set(names: seq<Name>): set<Name> {
    set n | n in names
  }

  predicate Distinct(names: seq<Name>) {
    forall i, j :: 0 <= i < j < |names| ==> names[i] != names[j]
  }

  predicate NoClash(base: seq<Name>, more: seq<Name>) {
    Distinct(more) && forall i :: 0 <= i < |more| ==> more[i] !in base
  }

  function Included(o: Options, c: Config): seq<Name> {
    o.includeModule + c.always + if o.minimal then [] else c.optional
  }

  function Excluded(o: Options, c: Config): seq<Name> {
    o.excludeModule + c.exclude
  }

  /** The command line and the configuration fit together. */
  ghost predicate Consistent(o: Options, c: Config) {
    && NoClash(o.includeModule, c.always)
    && (!o.minimal ==> NoClash(o.includeModule + c.always, c.optional))
    && NoClash(o.excludeModule, c.exclude)
    && Distinct(Excluded(o, c))
    && Set(Excluded(o, c)) <= Set(Included(o, c))
    && Set(Excluded(o, c)) !! Set(c.always)
  }

  predicate Repeated(names: seq<Name>, n: Name) {
    exists i, j :: 0 <= i < j < |names| && names[i] == names[j] == n
  }

  /** Appending `more` to `base` meets `n` a second time. */
  predicate Clash(base: seq<Name>, more: seq<Name>, n: Name) {
    (n in base && n in more) || Repeated(more, n)
  }

  /** The name that an error of the first part carries is at fault, for the reason the error gives. */
  ghost predicate AtFault(e: Error, o: Options, c: Config) {
    match e
    case AlreadyIncluded(n) =>
      || Clash(o.includeModule, c.always, n)
      || (!o.minimal && Clash(o.includeModule + c.always, c.optional, n))
    case AlreadyExcluded(n) => Clash(o.excludeModule, c.exclude, n)
    case CannotExcludeMandatory(n) => n in Excluded(o, c) && n in c.always
    case NothingToExclude(n) =>
      n in Excluded(o, c) && (n !in Included(o, c) || Repeated(Excluded(o, c), n))
    case _ => false
  }

  function Seeds(o: Options, c: Config): set<Name> {
    Set(Included(o, c)) - Set(Excluded(o, c))
  }

  function Deps(files: Files): Edges {
    map n | n in files :: files[n].deps
  }

  /** The modules whose sources are read. */
  ghost predicate Scanned(seeds: set<Name>, files: Files, n: Name) {
    Reach(Deps(files), SPECIAL, seeds, n)
  }

  /** Every source that is read exists and requires nothing that was excluded. */
  ghost predicate Buildable(seeds: set<Name>, excluded: seq<Name>, files: Files) {
    forall n :: Scanned(seeds, files, n) ==>
      n in files && forall d :: d in files[n].deps ==> d !in excluded
  }

  /** An error of the scan names a source that is really reached and really at fault. */
  ghost predicate Obstacle(e: Error, seeds: set<Name>, excluded: seq<Name>, files: Files) {
    match e
    case MissingFile(n) => Scanned(seeds, files, n) && n !in files
    case RequiredButExcluded(d, n) =>
      Scanned(seeds, files, n) && n in files && d in files[n].deps && d in excluded
    case _ => false
  }

  // ------------------------------------------------------------------ script

  method AppendNames(base: seq<Name>, more: seq<Name>) returns (r: seq<Name>, clash: seq<Name>)
    ensures NoClash(base, more) ==> clash == [] && r == base + more
    ensures !NoClash(base, more) ==> clash != [] && Clash(base, more, clash[0])
  {
    r, clash := base, [];
    for i := 0 to |more|
      invariant r == base + more[..i]
      invariant NoClash(base, more[..i])
    {
      if more[i] in r {
        clash := [more[i]];
        if more[i] !in base {
          var j :| 0 <= j < i && more[..i][j] == more[i];
          assert more[j] == more[i];
          assert Repeated(more, more[i]);
        }
        return;
      }
      assert more[..i + 1] == more[..i] + [more[i]];
      r := r + [more[i]];
    }
    assert more[..|more|] == more;
  }

  method InitialQueue(o: Options, c: Config) returns (r: Result<set<Name>>)
    ensures r.Ok? <==> Consistent(o, c)
    ensures r.Ok? ==> r.value == Seeds(o, c)
    ensures r.Ok? ==> forall n :: n in r.value <==>
                        && (n in o.includeModule || n in c.always || (!o.minimal && n in c.optional))
                        && n !in o.excludeModule && n !in c.exclude
    ensures r.Err? ==> AtFault(r.error, o, c)
  {
    var wanted, clash := AppendNames(o.includeModule, c.always);
    if clash != [] { return Err(AlreadyIncluded(clash[0])); }
    if !o.minimal {
      wanted, clash := AppendNames(wanted, c.optional);
      if clash != [] { return Err(AlreadyIncluded(clash[0])); }
    }
    var exclude;
    exclude, clash := AppendNames(o.excludeModule, c.exclude);
    if clash != [] { return Err(AlreadyExcluded(clash[0])); }
    assert wanted == Included(o, c) && exclude == Excluded(o, c);

    r := RemoveExcluded(wanted, exclude, c.always);
  }

  method RemoveExcluded(wanted: seq<Name>, exclude: seq<Name>, always: seq<Name>) returns (r: Result<set<Name>>)
    ensures r.Ok? <==> Distinct(exclude) && Set(exclude) <= Set(wanted) && Set(exclude) !! Set(always)
    ensures r.Ok? ==> r.value == Set(wanted) - Set(exclude)
    ensures r.Err? ==>
              match r.error
              case CannotExcludeMandatory(n) => n in exclude && n in always
              case NothingToExclude(n) => n in exclude && (n !in wanted || Repeated(exclude, n))
              case _ => false
  {
    var queue := Set(wanted);
    for i := 0 to |exclude|
      invariant queue == Set(wanted) - Set(exclude[..i])
      invariant Distinct(exclude[..i])
      invariant Set(exclude[..i]) <= Set(wanted) && Set(exclude[..i]) !! Set(always)
    {
      var name := exclude[i];
      assert name in Set(exclude);
      if name in always {
        assert name in Set(always);
        return Err(CannotExcludeMandatory(name));
      }
      if name !in queue {
        if name in Set(exclude[..i]) {
          var j :| 0 <= j < i && exclude[..i][j] == name;
          assert exclude[j] == exclude[i];
          assert Repeated(exclude, name);
        }
        return Err(NothingToExclude(name));
      }
      assert name !in Set(exclude[..i]);
      assert exclude[..i + 1] == exclude[..i] + [name];
      assert Set(exclude[..i + 1]) == Set(exclude[..i]) + {name};
      queue := queue - {name};
    }
    assert exclude[..|exclude|] == exclude;
    return Ok(queue);
  }

  /** Names that can ever enter the queue. */
  ghost function Universe(seeds: set<Name>, files: Files): set<Name> {
    seeds + set n, d | n in files && d in files[n].deps :: d
  }

  /** Scanning one source: its new names join the queue, unless one of them is excluded. */
  method ScanDeps(deps: seq<Name>, js: set<Name>, before: set<Name>, excluded: seq<Name>)
    returns (queue: set<Name>, bad: seq<Name>)
    ensures bad == [] ==> queue == before + (Set(deps) - js) && Set(deps) !! Set(excluded)
    ensures bad != [] ==> bad[0] in deps && bad[0] in excluded
  {
    queue, bad := before, [];
    for i := 0 to |deps|
      invariant queue == before + (Set(deps[..i]) - js) && Set(deps[..i]) !! Set(excluded)
    {
      if deps[i] in excluded {
        return queue, [deps[i]];
      }
      assert deps[..i + 1] == deps[..i] + [deps[i]];
      assert Set(deps[..i + 1]) == Set(deps[..i]) + {deps[i]};
      if deps[i] !in js {
        queue := queue + {deps[i]};
      }
    }
    assert deps[..|deps|] == deps;
  }

  /** What the worklist knows when `queue` is left and the sources of `scanned` were read. */
  ghost predicate Progress(seeds: set<Name>, excluded: seq<Name>, files: Files, queue: set<Name>, scanned: set<Name>) {
    && queue !! scanned && queue <= Universe(seeds, files) && seeds <= queue + scanned
    && (forall n :: n in queue + scanned ==> Scanned(seeds, files, n))
    && (forall n :: n in scanned ==> n in files && Set(files[n].deps) !! Set(excluded))
    && (forall n :: n in scanned ==> Set(files[n].deps) <= queue + scanned + SPECIAL)
  }

  lemma Begin(seeds: set<Name>, excluded: seq<Name>, files: Files)
    ensures Progress(seeds, excluded, files, seeds, {})
  {
    forall n | n in seeds
      ensures Scanned(seeds, files, n)
    {
      ReachSelf(Deps(files), SPECIAL, seeds, n);
    }
  }

  lemma Advance(seeds: set<Name>, excluded: seq<Name>, files: Files,
                queue: set<Name>, scanned: set<Name>, item: Name)
    requires Progress(seeds, excluded, files, queue, scanned)
    requires item in queue && item in files && Set(files[item].deps) !! Set(excluded)
    ensures Progress(seeds, excluded, files,
                     queue - {item} + (Set(files[item].deps) - (scanned + SPECIAL + {item})), scanned + {item})
  {
    hide Reach;
    var added := Set(files[item].deps) - (scanned + SPECIAL + {item});
    forall d | d in added
      ensures Scanned(seeds, files, d) && d in Universe(seeds, files)
    {
      ReachEdge(Deps(files), SPECIAL, seeds, item, d);
    }
  }

  lemma Complete(seeds: set<Name>, excluded: seq<Name>, files: Files, scanned: set<Name>)
    requires Progress(seeds, excluded, files, {}, scanned)
    ensures forall n :: Scanned(seeds, files, n) <==> n in scanned
    ensures Buildable(seeds, excluded, files)
  {
    hide Reach;
    forall a, b | a in scanned && Edge(Deps(files), SPECIAL, a, b)
      ensures b in scanned
    {
      assert b in Set(files[a].deps);
    }
    ReachLeast(Deps(files), SPECIAL, seeds, scanned);
    forall n, d | n in scanned && d in files[n].deps
      ensures d !in excluded
    {
      assert d in Set(files[n].deps);
      assert d in excluded ==> d in Set(excluded);
    }
  }

  /**
   The worklist: terminates for every finite set of sources, in whatever order
   names are popped, and ends with the least set that contains the seeds and is
   closed under the requirements of the sources read.
   */
  method Analyze(seeds: set<Name>, excluded: seq<Name>, files: Files) returns (r: Result<Modules>)
    ensures r.Ok? <==> Buildable(seeds, excluded, files)
    ensures r.Ok? ==> forall n :: Scanned(seeds, files, n) ==>
                        n in files && forall d :: d in files[n].deps ==> d !in excluded
    ensures r.Err? ==> Obstacle(r.error, seeds, excluded, files)
    ensures r.Ok? ==> forall n :: n in r.value.js <==>
                        n != "native" && (n == "iotjs" || Scanned(seeds, files, n))
    ensures r.Ok? ==> forall b :: b in r.value.native <==>
                        b == "process" || exists n :: Scanned(seeds, files, n) && n in files && b in files[n].bindings
  {
    hide Reach, Scanned, Universe;
    var queue, js, native := seeds, SPECIAL, {"process"};
    ghost var scanned: set<Name> := {};
    Begin(seeds, excluded, files);
    while queue != {}
      invariant js == scanned + SPECIAL
      invariant Progress(seeds, excluded, files, queue, scanned)
      invariant forall b :: b in native <==> b == "process" || exists n :: n in scanned && b in files[n].bindings
      decreases Universe(seeds, files) - scanned
    {
      var item :| item in queue;
      ghost var before := queue;
      assert Scanned(seeds, files, item);
      queue := queue - {item};
      js := js + {item};
      if item !in files {
        return Err(MissingFile(item));
      }
      var bad;
      queue, bad := ScanDeps(files[item].deps, js, queue, excluded);
      if bad != [] {
        return Err(RequiredButExcluded(bad[0], item));
      }
      Advance(seeds, excluded, files, before, scanned, item);
      scanned := scanned + {item};
      native := native + Set(files[item].bindings);
    }
    Complete(seeds, excluded, files, scanned);
    js := js - {"native"};
    return Ok(Modules(js, native));
  }

  method AnalyzeModuleDependency(o: Options, c: Config, files: Files) returns (r: Result<Modules>)
    ensures r.Ok? <==> Consistent(o, c) && Buildable(Seeds(o, c), Excluded(o, c), files)
    ensures r.Ok? ==> forall n :: n in r.value.js <==>
                        n != "native" && (n == "iotjs" || Scanned(Seeds(o, c), files, n))
    ensures r.Ok? ==> forall b :: b in r.value.native <==>
                        || b == "process"
                        || exists n :: Scanned(Seeds(o, c), files, n) && n in files && b in files[n].bindings
    ensures r.Err? ==> AtFault(r.error, o, c) || Obstacle(r.error, Seeds(o, c), Excluded(o, c), files)
  {
    var queue := InitialQueue(o, c);
    if queue.Err? { return Err(queue.error); }
    r := Analyze(queue.value, Excluded(o, c), files);
  }

  // -------------------------------------------------------------- properties

  /** An error of the first part is reported only for arguments that do not fit together. */
  lemma FaultMeansInconsistent(e: Error, o: Options, c: Config)
    requires AtFault(e, o, c)
    ensures !Consistent(o, c)
  {
    match e
    case CannotExcludeMandatory(n) => assert n in Set(Excluded(o, c)) && n in Set(c.always);
    case NothingToExclude(n) => assert n in Set(Excluded(o, c));
    case _ =>
  }

  /** An error of the scan is reported only if the sources cannot be built. */
  lemma ObstacleMeansUnbuildable(e: Error, seeds: set<Name>, excluded: seq<Name>, files: Files)
    requires Obstacle(e, seeds, excluded, files)
    ensures !Buildable(seeds, excluded, files)
  {
    hide Scanned;
  }

  lemma {:induction false} DistinctIsOnce(names: seq<Name>)
    ensures Distinct(names) <==> forall n :: multiset(names)[n] <= 1
  {
    if names != [] {
      var rest, last := names[..|names| - 1], names[|names| - 1];
      assert names == rest + [last];
      DistinctIsOnce(rest);
      if Distinct(names) {
        assert last !in rest;
      } else if Distinct(rest) {
        assert last in rest;
        assert multiset(names)[last] >= 2;
      } else {
        var n :| multiset(rest)[n] > 1;
        assert multiset(names)[n] > 1;
      }
    }
  }

  /** What the arguments say of one name. */
  predicate FitsName(o: Options, c: Config, n: Name) {
    && multiset(c.always)[n] <= 1 && !(n in c.always && n in o.includeModule)
    && (!o.minimal ==> && multiset(c.optional)[n] <= 1
                       && !(n in c.optional && (n in o.includeModule || n in c.always)))
    && multiset(c.exclude)[n] <= 1 && multiset(o.excludeModule)[n] <= 1
    && !(n in c.exclude && n in o.excludeModule)
    && (n in c.exclude || n in o.excludeModule ==>
          && (n in o.includeModule || n in c.always || (!o.minimal && n in c.optional))
          && n !in c.always)
  }

  /**
   The arguments fit together exactly if, for every name: no list of the configuration has
   it twice, or has what the command line or an earlier list asked for; and what is
   excluded, by the command line once or by the configuration, is included and not mandatory.
   */
  lemma ConsistentMeans(o: Options, c: Config)
    ensures Consistent(o, c) <==> forall n :: FitsName(o, c, n)
  {
    DistinctIsOnce(c.always);
    DistinctIsOnce(c.optional);
    DistinctIsOnce(c.exclude);
    DistinctIsOnce(o.excludeModule);
    if Consistent(o, c) {
      EachFits(o, c);
    } else {
      assert !(forall n :: FitsName(o, c, n)) by {
        if forall n :: FitsName(o, c, n) { AllFit(o, c); }
      }
    }
  }

  lemma EachFits(o: Options, c: Config)
    requires Consistent(o, c)
    ensures forall n :: FitsName(o, c, n)
  {
    DistinctIsOnce(c.always);
    DistinctIsOnce(c.optional);
    DistinctIsOnce(c.exclude);
    DistinctIsOnce(Excluded(o, c));
    assert multiset(Excluded(o, c)) == multiset(o.excludeModule) + multiset(c.exclude);
    forall n
      ensures FitsName(o, c, n)
    {
      assert multiset(Excluded(o, c))[n] <= 1;
      assert n in Excluded(o, c) <==> n in Set(Excluded(o, c));
      assert n in Included(o, c) <==> n in Set(Included(o, c));
      assert n in c.always <==> n in Set(c.always);
    }
  }

  lemma AllFit(o: Options, c: Config)
    requires forall n :: FitsName(o, c, n)
    ensures Consistent(o, c)
  {
    assert forall n :: FitsName(o, c, n) ==> multiset(c.always)[n] <= 1 && multiset(c.exclude)[n] <= 1;
    DistinctIsOnce(c.always);
    DistinctIsOnce(c.optional);
    DistinctIsOnce(c.exclude);
    DistinctIsOnce(Excluded(o, c));
    assert multiset(Excluded(o, c)) == multiset(o.excludeModule) + multiset(c.exclude);
    forall n
      ensures multiset(Excluded(o, c))[n] <= 1
    {
      assert FitsName(o, c, n);
      assert n in o.excludeModule <==> multiset(o.excludeModule)[n] > 0;
    }
    forall n | n in Excluded(o, c)
      ensures n in Included(o, c) && n !in c.always
    {
      assert FitsName(o, c, n);
    }
    NoClashes(o, c);
  }

  lemma NoClashes(o: Options, c: Config)
    requires forall n :: FitsName(o, c, n)
    requires Distinct(c.always) && Distinct(c.exclude)
    ensures NoClash(o.includeModule, c.always) && NoClash(o.excludeModule, c.exclude)
    ensures !o.minimal ==> NoClash(o.includeModule + c.always, c.optional)
  {
    forall i | 0 <= i < |c.always| ensures c.always[i] !in o.includeModule {
      assert FitsName(o, c, c.always[i]);
    }
    forall i | 0 <= i < |c.exclude| ensures c.exclude[i] !in o.excludeModule {
      assert FitsName(o, c, c.exclude[i]);
    }
    if !o.minimal {
      DistinctIsOnce(c.optional);
      assert forall n :: FitsName(o, c, n) ==> multiset(c.optional)[n] <= 1;
      forall i | 0 <= i < |c.optional| ensures c.optional[i] !in o.includeModule + c.always {
        assert FitsName(o, c, c.optional[i]);
      }
    }
  }

  /** Every module asked for, mandatory, or, in a build that is not minimal, optional is in unless excluded. */
  lemma WantedIsScanned(o: Options, c: Config, files: Files, n: Name)
    requires n in o.includeModule || n in c.always || (!o.minimal && n in c.optional)
    requires n !in o.excludeModule && n !in c.exclude
    ensures Scanned(Seeds(o, c), files, n)
  {
    assert n in Set(Included(o, c)) && n !in Set(Excluded(o, c));
    ReachSelf(Deps(files), SPECIAL, Seeds(o, c), n);
  }

  /** No source that was read had been excluded, and every mandatory module is in. */
  lemma ExcludedStayOut(o: Options, c: Config, files: Files, n: Name)
    requires Consistent(o, c) && Buildable(Seeds(o, c), Excluded(o, c), files)
    ensures Scanned(Seeds(o, c), files, n) ==> n !in o.excludeModule && n !in c.exclude
    ensures n in c.always ==> Scanned(Seeds(o, c), files, n)
  {
    var g, seeds := Deps(files), Seeds(o, c);
    if Scanned(seeds, files, n) {
      var p :| IsPath(g, SPECIAL, p) && p[0] in seeds && p[|p| - 1] == n;
      if |p| > 1 {
        var q := p[..|p| - 1];
        assert IsPath(g, SPECIAL, q) && q[0] in seeds;
        var a := q[|q| - 1];
        assert Scanned(seeds, files, a);
        assert Edge(g, SPECIAL, p[|p| - 2], p[|p| - 1]);
      }
    }
    if n in c.always {
      assert n in Set(Included(o, c));
      assert n in Set(c.always);
      ReachSelf(g, SPECIAL, seeds, n);
    }
  }
}
