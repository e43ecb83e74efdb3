/** process_override as a whole (init_suite.py): the overrides of tests, and then the clusters of
    every test, from the config that is popped off it. */
module OverrideRun {
  import opened Options
  import opened MergeTrees
  import opened OverrideValues
  import opened MergeHeap
  import opened ProcessOverride
  import opened Sharing
  import opened ClusterOverrides

  /** test["test"].pop("config", {}) */
  function ConfigOf(test: Tree): Tree {
    if test.Dict? && "config" in test.entries then test.entries["config"] else Dict(map[])
  }

  /** What is under "clusters" can be stored into. */
  predicate Fits(test: Tree) { test.Dict? && "clusters" in test.entries ==> test.entries["clusters"].Dict? }

  predicate AllFit(tests: seq<Tree>) { forall t :: 0 <= t < |tests| ==> Fits(tests[t]) }

  // ----- popping one config ------------------------------------------------

  /** The popped config; d is the dict made for the default. */
  ghost function ConfigShape(s: Shape, d: PyDict): Shape
    requires s.SDict?
  {
    if "config" in s.entries then s.entries["config"] else SDict(d, map[])
  }

  ghost function RestShape(s: Shape): Shape
    requires s.SDict?
  {
    SDict(s.dict, s.entries - {"config"})
  }

  /** The clusters that the test has already. */
  ghost function ClustersOf(s: Shape): map<string, Val>
    requires s.SDict?
  {
    if "clusters" in s.entries && s.entries["clusters"].SDict? then
      var kid := s.entries["clusters"]; map n | n in kid.entries :: Top(kid.entries[n])
    else map[]
  }

  lemma PopShapes(s: Shape, d: PyDict)
    requires s.SDict? && Sep(s) && d !in Foot(s)
    ensures Sep(ConfigShape(s, d)) && Sep(RestShape(s)) && Foot(RestShape(s)) !! Foot(ConfigShape(s, d))
    ensures Foot(ConfigShape(s, d)) <= Foot(s) + {d} && Foot(RestShape(s)) <= Foot(s)
    ensures Erase(ConfigShape(s, d)) == ConfigOf(Erase(s))
  {
    var rest := RestShape(s).entries;
    assert forall k <- rest :: k in s.entries && rest[k] == s.entries[k] && Foot(rest[k]) <= Foot(s);
    assert s.dict in Foot(s);
    if "config" !in s.entries { assert Erase(SDict(d, map[])).entries == map[]; }
  }

  /** The test's clusters; nothing when they cannot be stored into. */
  function OwnClusters(test: PyDict): Option<map<string, Val>>
    reads test
    reads if "clusters" in test.entries && test.entries["clusters"].DictRef?
          then {test.entries["clusters"].dict as object} else {}
  {
    if "clusters" !in test.entries then Some(map[])
    else if test.entries["clusters"].DictRef? then Some(test.entries["clusters"].dict.entries)
    else None
  }

  lemma OwnClustersRead(test: PyDict, s: Shape)
    requires s.SDict? && s.dict == test && InHeap(s)
    ensures OwnClusters(test) == if Fits(Erase(s)) then Some(ClustersOf(s)) else None
  {
    if "clusters" in s.entries {
      assert test.entries["clusters"] == Top(s.entries["clusters"]) && InHeap(s.entries["clusters"]);
      if s.entries["clusters"].SDict? { assert test.entries["clusters"].dict.entries == ClustersOf(s); }
    }
  }

  method PopConfig(test: PyDict, ghost s: Shape, ghost kept: set<Shape>) returns (config: Val, ghost d: PyDict)
    requires s.SDict? && s.dict == test && InHeap(s) && Sep(s)
    requires forall t <- kept :: InHeap(t) && test !in Foot(t)
    modifies test
    ensures fresh(d) && config == Top(ConfigShape(s, d)) && InHeap(ConfigShape(s, d)) && InHeap(RestShape(s))
    ensures forall t <- kept :: InHeap(t)
  {
    ghost var kids := set k | k in s.entries :: s.entries[k];
    forall t | t in kept + kids
      ensures InHeap(t) && test !in Foot(t) && forall o <- Foot(t) :: allocated(o)
    {
      InHeapIsAllocated(t);
    }
    var missing := new PyDict(map[]);
    d := missing;
    config := if "config" in test.entries then test.entries["config"] else DictRef(missing);
    test.entries := test.entries - {"config"};
    forall t | t in kept + kids ensures InHeap(t) { Framed(t); }
    assert forall k <- s.entries :: s.entries[k] in kids;
  }

  // ----- popping all of them -----------------------------------------------

  ghost predicate Dicts(ts: seq<Shape>) { forall i :: 0 <= i < |ts| ==> ts[i].SDict? }

  /** The dicts made for the defaults are new, and one per test. */
  ghost predicate Defaults(ts: seq<Shape>, ds: seq<PyDict>) {
    && (forall i :: 0 <= i < |ds| ==> ds[i] !in Feet(ts))
    && (forall i, j :: 0 <= i < j < |ds| ==> ds[i] != ds[j])
  }

  ghost predicate Among(ds: seq<PyDict>, news: set<object>) { forall d <- ds :: d in news }

  lemma AmongMore(ds: seq<PyDict>, news: set<object>, d: PyDict)
    requires Among(ds, news)
    ensures Among(ds + [d], news + {d})
  {
  }

  ghost function ConfigShapes(ts: seq<Shape>, ds: seq<PyDict>): (cs: seq<Shape>)
    requires Dicts(ts) && |ds| <= |ts|
    ensures |cs| == |ds|
  {
    seq(|ds|, i requires 0 <= i < |ds| => ConfigShape(ts[i], ds[i]))
  }

  ghost function RestShapes(ts: seq<Shape>): (rs: seq<Shape>)
    requires Dicts(ts)
    ensures |rs| == |ts|
  {
    seq(|ts|, i requires 0 <= i < |ts| => RestShape(ts[i]))
  }

  ghost predicate AllSep(ts: seq<Shape>) { forall i :: 0 <= i < |ts| ==> Sep(ts[i]) }

  lemma PopAt(ts: seq<Shape>, ds: seq<PyDict>, i: nat)
    requires Dicts(ts) && AllSep(ts) && Defaults(ts, ds) && i < |ds| <= |ts|
    ensures Sep(ConfigShape(ts[i], ds[i])) && Sep(RestShape(ts[i]))
    ensures Foot(RestShape(ts[i])) !! Foot(ConfigShape(ts[i], ds[i]))
    ensures Foot(ConfigShape(ts[i], ds[i])) <= Foot(ts[i]) + {ds[i]} && Foot(RestShape(ts[i])) <= Foot(ts[i])
    ensures Foot(ts[i]) <= Feet(ts) && ds[i] !in Feet(ts)
    ensures Erase(ConfigShape(ts[i], ds[i])) == ConfigOf(Erase(ts[i]))
  {
    assert Foot(ts[i]) <= Feet(ts);
    PopShapes(ts[i], ds[i]);
  }

  lemma TwoPopped(ts: seq<Shape>, ds: seq<PyDict>, i: nat, j: nat)
    requires Dicts(ts) && AllSep(ts) && Disjoint(ts) && Defaults(ts, ds)
    requires i < |ds| <= |ts| && j < |ds| && i != j
    ensures Foot(ConfigShape(ts[i], ds[i])) !! Foot(ConfigShape(ts[j], ds[j]))
    ensures Foot(RestShape(ts[i])) !! Foot(ConfigShape(ts[j], ds[j]))
  {
    PopAt(ts, ds, i);
    PopAt(ts, ds, j);
    assert Foot(ts[i]) !! Foot(ts[j]) && ds[i] != ds[j];
  }

  lemma ConfigsApart(ts: seq<Shape>, ds: seq<PyDict>)
    requires Dicts(ts) && AllSep(ts) && Disjoint(ts) && Defaults(ts, ds) && |ds| == |ts|
    ensures Disjoint(ConfigShapes(ts, ds)) && AllSep(ConfigShapes(ts, ds))
  {
    var cs := ConfigShapes(ts, ds);
    forall i | 0 <= i < |ts| ensures Sep(cs[i]) { PopAt(ts, ds, i); }
    forall i, j | 0 <= i < j < |ts| ensures Foot(cs[i]) !! Foot(cs[j]) { TwoPopped(ts, ds, i, j); }
  }

  lemma ConfigsWithin(ts: seq<Shape>, ds: seq<PyDict>, area: set<object>)
    requires Dicts(ts) && AllSep(ts) && Defaults(ts, ds) && |ds| == |ts|
    requires Feet(ts) <= area && Among(ds, area)
    ensures Feet(ConfigShapes(ts, ds)) <= area
  {
    forall i | 0 <= i < |ts| ensures Foot(ConfigShapes(ts, ds)[i]) <= area { PopAt(ts, ds, i); }
  }

  lemma RestKept(ts: seq<Shape>, ds: seq<PyDict>, i: nat)
    requires Dicts(ts) && AllSep(ts) && Disjoint(ts) && Defaults(ts, ds) && |ds| == |ts| > i
    ensures Foot(RestShape(ts[i])) !! Feet(ConfigShapes(ts, ds))
  {
    var cs := ConfigShapes(ts, ds);
    forall j | 0 <= j < |ts| ensures Foot(RestShape(ts[i])) !! Foot(cs[j]) {
      if i == j { PopAt(ts, ds, i); } else { TwoPopped(ts, ds, i, j); }
    }
  }

  /** After the first n tests: their configs and what is left of them are in the heap. */
  ghost predicate Popped(ts: seq<Shape>, ds: seq<PyDict>, n: nat, configs: seq<Val>, befores: seq<map<string, Val>>,
                         held: set<Shape>)
    requires Dicts(ts)
    reads set s, o | s in held && o in Foot(s) :: o
  {
    && n == |ds| == |configs| == |befores| <= |ts| && Defaults(ts, ds)
    && (forall i :: 0 <= i < n ==> PoppedAt(ts[i], ds[i], configs[i], befores[i], held))
    && forall s <- held :: InHeap(s)
  }

  ghost predicate PoppedAt(s: Shape, d: PyDict, config: Val, before: map<string, Val>, held: set<Shape>)
    requires s.SDict?
  {
    && config == Top(ConfigShape(s, d)) && before == ClustersOf(s)
    && ConfigShape(s, d) in held && RestShape(s) in held
  }

  /** Nothing that is held has an object of a test still to come. */
  ghost predicate Clear(held: set<Shape>, ts: seq<Shape>, n: nat) {
    forall s, j | s in held && n <= j < |ts| :: Foot(s) !! Foot(ts[j])
  }

  lemma TestReady(tests: seq<Val>, ts: seq<Shape>, held: set<Shape>, i: nat)
    requires Tests(tests, ts) && Dicts(ts) && i < |ts| && Clear(held, ts, i) && forall s <- Rest(ts, i) :: InHeap(s)
    ensures tests[i] == DictRef(ts[i].dict) && InHeap(ts[i]) && Sep(ts[i])
    ensures forall s <- held + Rest(ts, i + 1) :: ts[i].dict !in Foot(s)
  {
    assert ts[i].dict in Foot(ts[i]) && ts[i] in Rest(ts, i);
    forall s | s in held + Rest(ts, i + 1) ensures ts[i].dict !in Foot(s) {
      assert Foot(s) !! Foot(ts[i]);
    }
  }

  lemma PoppedMore(ts: seq<Shape>, ds: seq<PyDict>, n: nat, configs: seq<Val>, befores: seq<map<string, Val>>,
                   held: set<Shape>, d: PyDict, config: Val, before: map<string, Val>)
    requires Dicts(ts) && n == |ds| == |configs| == |befores| < |ts| && Defaults(ts, ds)
    requires forall i :: 0 <= i < n ==> PoppedAt(ts[i], ds[i], configs[i], befores[i], held)
    requires d !in Feet(ts) && d !in ds && config == Top(ConfigShape(ts[n], d)) && before == ClustersOf(ts[n])
    requires forall s <- held + {ConfigShape(ts[n], d), RestShape(ts[n])} :: InHeap(s)
    ensures Popped(ts, ds + [d], n + 1, configs + [config], befores + [before],
                   held + {ConfigShape(ts[n], d), RestShape(ts[n])})
  {
    var held', ds' := held + {ConfigShape(ts[n], d), RestShape(ts[n])}, ds + [d];
    var configs', befores' := configs + [config], befores + [before];
    forall i | 0 <= i < n + 1 ensures PoppedAt(ts[i], ds'[i], configs'[i], befores'[i], held') {
      if i < n { assert PoppedAt(ts[i], ds[i], configs[i], befores[i], held); }
    }
  }

  lemma PoppedOutside(ts: seq<Shape>, n: nat, j: nat, d: PyDict)
    requires Dicts(ts) && AllSep(ts) && Disjoint(ts) && n < j < |ts| && d !in Feet(ts)
    ensures Foot(ConfigShape(ts[n], d)) !! Foot(ts[j]) && Foot(RestShape(ts[n])) !! Foot(ts[j])
  {
    assert Foot(ts[n]) <= Feet(ts) && Foot(ts[j]) <= Feet(ts) && Foot(ts[n]) !! Foot(ts[j]);
    PopShapes(ts[n], d);
  }

  lemma ClearMore(held: set<Shape>, ts: seq<Shape>, n: nat, d: PyDict)
    requires Dicts(ts) && AllSep(ts) && Disjoint(ts) && n < |ts| && Clear(held, ts, n) && d !in Feet(ts)
    ensures Clear(held + {ConfigShape(ts[n], d), RestShape(ts[n])}, ts, n + 1)
  {
    var config, rest := ConfigShape(ts[n], d), RestShape(ts[n]);
    forall s, j | s in held + {config, rest} && n + 1 <= j < |ts| ensures Foot(s) !! Foot(ts[j]) {
      if s !in held { PoppedOutside(ts, n, j, d); }
    }
  }

  /** The state before test n. */
  ghost predicate Popping(tests: seq<Val>, ts: seq<Shape>, ds: seq<PyDict>, n: nat, configs: seq<Val>,
                          befores: seq<map<string, Val>>, held: set<Shape>)
    requires Dicts(ts)
    reads Feet(ts) + set s, o | s in held && o in Foot(s) :: o
  {
    && Tests(tests, ts) && Popped(ts, ds, n, configs, befores, held) && Clear(held, ts, n)
    && forall s <- Rest(ts, n) :: InHeap(s)
  }

  method PopNext(tests: seq<Val>, i: nat, ghost ts: seq<Shape>, ghost ds: seq<PyDict>,
                 configs: seq<Val>, befores: seq<map<string, Val>>, ghost held: set<Shape>)
    returns (config: Val, own: Option<map<string, Val>>, ghost d: PyDict, ghost held': set<Shape>)
    requires Dicts(ts) && i < |ts| && Popping(tests, ts, ds, i, configs, befores, held)
    requires (forall o <- Feet(ts) :: allocated(o))
    modifies ts[i].dict
    ensures Popping(tests, ts, ds + [d], i + 1, configs + [config], befores + [ClustersOf(ts[i])], held')
    ensures held <= held'
    ensures own == (if Fits(Erase(ts[i])) then Some(ClustersOf(ts[i])) else None) && fresh(d)
  {
    TestReady(tests, ts, held, i);
    OwnClustersRead(tests[i].dict, ts[i]);
    own := OwnClusters(tests[i].dict);
    config, d := PopConfig(tests[i].dict, ts[i], held + Rest(ts, i + 1));
    PoppedMore(ts, ds, i, configs, befores, held, d, config, ClustersOf(ts[i]));
    ClearMore(held, ts, i, d);
    held' := held + {ConfigShape(ts[i], d), RestShape(ts[i])};
  }

  /** The config of every test is popped off it. */
  method PopConfigs(tests: seq<Val>, ghost ts: seq<Shape>, ghost kept: set<Shape>, ghost area: set<object>)
    returns (ok: bool, configs: seq<Val>, befores: seq<map<string, Val>>,
             ghost ds: seq<PyDict>, ghost held: set<Shape>, ghost news: set<object>)
    requires Dicts(ts) && Popping(tests, ts, [], 0, [], [], kept)
    requires area == Feet(ts) && forall o <- area :: allocated(o)
    modifies area
    ensures ok <==> forall i :: 0 <= i < |ts| ==> Fits(Erase(ts[i]))
    ensures ok ==> Popping(tests, ts, ds, |ts|, configs, befores, held) && kept <= held
    ensures Among(ds, news) && fresh(news)
  {
    configs, befores, ds, held, news := [], [], [], kept, {};
    for i := 0 to |tests|
      invariant Popping(tests, ts, ds, i, configs, befores, held) && kept <= held && Among(ds, news) && fresh(news)
      invariant forall j :: 0 <= j < i ==> Fits(Erase(ts[j]))
    {
      RootIn(ts, i);
      var config, own;
      ghost var d;
      config, own, d, held := PopNext(tests, i, ts, ds, configs, befores, held);
      if own.None? { return false, configs, befores, ds, held, news; }
      AmongMore(ds, news, d);
      configs, befores, ds, news := configs + [config], befores + [own.value], ds + [d], news + {d};
    }
    return true, configs, befores, ds, held, news;
  }

  lemma RootIn(ts: seq<Shape>, i: nat)
    requires Dicts(ts) && i < |ts|
    ensures ts[i].dict in Feet(ts)
  {
    assert ts[i].dict in Foot(ts[i]);
  }

  // ----- the whole function ------------------------------------------------

  ghost predicate AllQuiet(ts: seq<Tree>, os: seq<Tree>) {
    forall t :: 0 <= t < |ts| - 1 ==> AllUndisturbed(ConfigOf(ts[t]), os)
  }

  /** Every test has the clusters it had, and a fold of its config for each of the override file. */
  ghost predicate AllMade(ts: seq<Shape>, names: seq<string>, os: seq<Tree>,
                          made: seq<map<string, ClusterEntry>>, copies: seq<map<string, Shape>>)
    requires Dicts(ts) && |names| == |os|
  {
    |made| == |copies| == |ts| && forall t :: 0 <= t < |ts| ==> MadeFor(ts[t], names, os, made[t], copies[t])
  }

  ghost predicate MadeFor(s: Shape, names: seq<string>, os: seq<Tree>,
                          made: map<string, ClusterEntry>, copies: map<string, Shape>)
    requires s.SDict? && |names| == |os|
  {
    AllStored(ClustersOf(s), made, copies, Made(ConfigOf(Erase(s)), names, os))
  }

  /** What the popping leaves of the tests. */
  ghost function Rests(ts: seq<Shape>): set<Shape>
    requires Dicts(ts)
  {
    set t | 0 <= t < |ts| :: RestShape(ts[t])
  }

  lemma ConfigsErase(ts: seq<Shape>, ds: seq<PyDict>)
    requires Dicts(ts) && AllSep(ts) && Defaults(ts, ds) && |ds| == |ts|
    ensures forall t :: 0 <= t < |ts| ==> Erase(ConfigShapes(ts, ds)[t]) == ConfigOf(Erase(ts[t]))
  {
    forall t | 0 <= t < |ts| ensures Erase(ConfigShapes(ts, ds)[t]) == ConfigOf(Erase(ts[t])) { PopAt(ts, ds, t); }
  }

  /** With all configs popped, the loop over the tests can start. */
  lemma ConfigsReady(tests: seq<Val>, ts: seq<Shape>, ds: seq<PyDict>, configs: seq<Val>,
                     befores: seq<map<string, Val>>, held: set<Shape>, clusters: seq<Cluster>, os: seq<Shape>,
                     area: set<object>)
    requires Dicts(ts) && Popping(tests, ts, ds, |ts|, configs, befores, held)
    requires Overrides(clusters, os) && Feet(ts) <= area && Among(ds, area) && area !! Feet(os)
    requires AllQuiet(Trees(ts), Trees(os))
    ensures TestsStart(configs, befores, clusters, ConfigShapes(ts, ds), os) && Feet(ConfigShapes(ts, ds)) <= area
  {
    ConfigsApart(ts, ds);
    ConfigsWithin(ts, ds, area);
    ConfigsErase(ts, ds);
    forall t | 0 <= t < |ts| ensures configs[t] == Top(ConfigShapes(ts, ds)[t]) {
      assert PoppedAt(ts[t], ds[t], configs[t], befores[t], held);
    }
    forall t | 0 <= t < |ts| - 1 ensures Quiet(ConfigShapes(ts, ds)[t], os) {
      assert AllUndisturbed(ConfigOf(Trees(ts)[t]), Trees(os));
    }
  }

  lemma PoppedHeld(tests: seq<Val>, ts: seq<Shape>, ds: seq<PyDict>, configs: seq<Val>,
                   befores: seq<map<string, Val>>, held: set<Shape>, os: seq<Shape>)
    requires Dicts(ts) && Popping(tests, ts, ds, |ts|, configs, befores, held)
    requires Feet(ts) !! Feet(os) && Disjoint(ts) && Rest(os, 0) <= held
    ensures AllInHeap(ConfigShapes(ts, ds)) && AllInHeap(os)
    ensures Intact(Rests(ts), Feet(ConfigShapes(ts, ds)) + Feet(os))
  {
    forall t | 0 <= t < |ts| ensures InHeap(ConfigShapes(ts, ds)[t]) && InHeap(RestShape(ts[t])) {
      assert PoppedAt(ts[t], ds[t], configs[t], befores[t], held);
    }
    forall t | 0 <= t < |ts| ensures Foot(RestShape(ts[t])) !! Feet(ConfigShapes(ts, ds)) + Feet(os) {
      RestKept(ts, ds, t);
      PopAt(ts, ds, t);
    }
    RestInHeap(os);
  }

  lemma MadeAll(ts: seq<Shape>, ds: seq<PyDict>, configs: seq<Val>, befores: seq<map<string, Val>>,
                held: set<Shape>, names: seq<string>, trees: seq<Tree>,
                made: seq<map<string, ClusterEntry>>, copies: seq<map<string, Shape>>)
    requires Dicts(ts) && AllSep(ts) && Defaults(ts, ds) && |names| == |trees|
    requires |ts| == |ds| == |configs| == |befores| == |made|
    requires forall t :: 0 <= t < |ts| ==> PoppedAt(ts[t], ds[t], configs[t], befores[t], held)
    requires TestsMade(befores, made, copies, ConfigShapes(ts, ds), names, trees)
    ensures AllMade(ts, names, trees, made, copies)
  {
    ConfigsErase(ts, ds);
    forall t | 0 <= t < |ts| ensures MadeFor(ts[t], names, trees, made[t], copies[t]) {
      assert PoppedAt(ts[t], ds[t], configs[t], befores[t], held);
    }
  }

  /** Where the loop over the tests starts. */
  lemma BeforePopping(tests: seq<Val>, ts: seq<Shape>, os: seq<Shape>)
    requires Tests(tests, ts) && Dicts(ts) && AllInHeap(ts) && AllInHeap(os) && Feet(ts) !! Feet(os)
    ensures Popping(tests, ts, [], 0, [], [], Rest(os, 0))
  {
    RestInHeap(ts);
    RestInHeap(os);
    forall s, j | s in Rest(os, 0) && 0 <= j < |ts| ensures Foot(s) !! Foot(ts[j]) {
      assert Foot(ts[j]) <= Feet(ts) && Foot(s) <= Feet(os);
    }
  }

  method StoreClusters(configs: seq<Val>, befores: seq<map<string, Val>>, clusters: seq<Cluster>,
                       ghost cs: seq<Shape>, ghost os: seq<Shape>, ghost rests: set<Shape>, ghost area: set<object>)
    returns (made: seq<map<string, ClusterEntry>>, ghost copies: seq<map<string, Shape>>)
    requires TestsStart(configs, befores, clusters, cs, os) && AllInHeap(cs) && AllInHeap(os)
    requires area == Feet(cs) + Feet(os) && Intact(rests, area)
    modifies area
    ensures TestsMade(befores, made, copies, cs, Names(clusters), Trees(os)) && |made| == |configs|
    ensures Intact(rests, area)
  {
    forall s | s in rests ensures forall o <- Foot(s) :: allocated(o) { InHeapIsAllocated(s); }
    ghost var ends, held, news;
    made, copies, ends, held, news := ClustersOfTests(configs, befores, clusters, cs, os);
    forall s | s in rests ensures InHeap(s) { Framed(s); }
  }

  /** The configs are popped, and everything the popping allocates is new. */
  method PopAll(tests: seq<Val>, ghost ts: seq<Shape>, ghost os: seq<Shape>, ghost area: set<object>,
                ghost room: set<object>)
    returns (ok: bool, configs: seq<Val>, befores: seq<map<string, Val>>,
             ghost ds: seq<PyDict>, ghost held: set<Shape>, ghost wide: set<object>)
    requires Tests(tests, ts) && Dicts(ts) && AllInHeap(ts) && AllInHeap(os)
    requires area == Feet(ts) && room == Feet(os) && area !! room
    modifies area
    ensures ok <==> AllFit(Trees(ts))
    ensures ok ==> Popping(tests, ts, ds, |ts|, configs, befores, held) && Rest(os, 0) <= held
    ensures Among(ds, wide) && area <= wide && wide !! room && fresh(wide - area)
  {
    BeforePopping(tests, ts, os);
    FeetAllocated(ts);
    FeetAllocated(os);
    ghost var news;
    ok, configs, befores, ds, held, news := PopConfigs(tests, ts, Rest(os, 0), area);
    assert forall t :: 0 <= t < |ts| ==> Erase(ts[t]) == Trees(ts)[t];
    assert news !! room;
    wide := area + news;
    assert forall d <- ds :: d in wide;
  }

  /** The loop over the tests. */
  method RunClusters(tests: seq<Val>, clusters: seq<Cluster>, ghost ts: seq<Shape>, ghost os: seq<Shape>,
                     ghost area: set<object>, ghost room: set<object>)
    returns (ok: bool, made: seq<map<string, ClusterEntry>>, ghost copies: seq<map<string, Shape>>)
    requires Tests(tests, ts) && Dicts(ts) && AllInHeap(ts) && Overrides(clusters, os) && AllInHeap(os)
    requires area == Feet(ts) && room == Feet(os) && area !! room && AllQuiet(Trees(ts), Trees(os))
    modifies area + room
    ensures ok <==> AllFit(Trees(ts))
    ensures ok ==> AllMade(ts, Names(clusters), Trees(os), made, copies) && Intact(Rests(ts), room)
  {
    var configs, befores;
    ghost var ds, held, wide;
    ok, configs, befores, ds, held, wide := PopAll(tests, ts, os, area, room);
    if !ok { return false, [], []; }
    ConfigsReady(tests, ts, ds, configs, befores, held, clusters, os, wide);
    PoppedHeld(tests, ts, ds, configs, befores, held, os);
    ghost var cs := ConfigShapes(ts, ds);
    made, copies := StoreClusters(configs, befores, clusters, cs, os, Rests(ts), Feet(cs) + Feet(os));
    MadeAll(ts, ds, configs, befores, held, Names(clusters), Trees(os), made, copies);
  }

  ghost predicate SuiteReady(tests: seq<Val>, overrides: seq<TestOverride>, clusters: seq<Cluster>,
                             ts: seq<Shape>, os: seq<Shape>, cos: seq<Shape>)
    reads Feet(ts) + Feet(os) + Feet(cos)
  {
    && Tests(tests, ts) && Dicts(ts) && AllInHeap(ts) && TestOverrides(overrides, os) && AllInHeap(os)
    && Overrides(clusters, cos) && AllInHeap(cos)
    && Feet(ts) !! Feet(os) && Feet(ts) + Feet(os) !! Feet(cos)
  }

  lemma KeptApart(cos: seq<Shape>, area: set<object>)
    requires AllInHeap(cos) && area !! Feet(cos)
    ensures Intact(Rest(cos, 0), area)
  {
    RestInHeap(cos);
    assert forall s <- Rest(cos, 0) :: Foot(s) <= Feet(cos);
  }

  lemma StillDicts(tests: seq<Val>, ts: seq<Shape>, cur: seq<Shape>)
    requires Tests(tests, ts) && Dicts(ts) && Tests(tests, cur)
    ensures Dicts(cur)
  {
    forall i | 0 <= i < |cur| ensures cur[i].SDict? { assert Top(cur[i]) == Top(ts[i]); }
  }

  /** The tests after the first loop; none when an index is out of range. */
  ghost function Folds(ts: seq<Shape>, overrides: seq<TestOverride>, os: seq<Shape>): Option<seq<Tree>>
    requires |overrides| == |os|
  {
    Overridden(Trees(ts), Indices(overrides), Trees(os))
  }

  /** The first loop keeps what shares nothing with the tests and their overrides. */
  method FirstLoop(tests: seq<Val>, overrides: seq<TestOverride>, ghost ts: seq<Shape>, ghost os: seq<Shape>,
                   ghost kept: set<Shape>, ghost area: set<object>)
    returns (ok: bool, ghost cur: seq<Shape>)
    requires Tests(tests, ts) && AllInHeap(ts) && TestOverrides(overrides, os) && AllInHeap(os)
    requires Feet(ts) !! Feet(os) && area == Feet(ts) + Feet(os) && Intact(kept, area)
    modifies area
    ensures ok <==> Folds(ts, overrides, os).Some?
    ensures ok ==> Tests(tests, cur) && AllInHeap(cur) && Folds(ts, overrides, os) == Some(Trees(cur))
    ensures Feet(cur) <= area && Intact(kept, area)
  {
    RestInHeap(ts);
    RestInHeap(os);
    forall s | s in kept ensures forall o <- Foot(s) :: allocated(o) { InHeapIsAllocated(s); }
    ok, cur := OverrideTests(tests, overrides, ts, os);
    forall s | s in kept ensures InHeap(s) { Framed(s); }
    RestInHeap(cur);
  }

  /** Both loops. The function raises if and only if an override's index is out of range or
      something that is not a dict is under a test's "clusters"; else every test is the fold of
      the overrides addressed to it, and each of its clusters has the fold of the config that
      this fold has. */
  method Process(tests: seq<Val>, overrides: seq<TestOverride>, clusters: seq<Cluster>,
                 ghost ts: seq<Shape>, ghost os: seq<Shape>, ghost cos: seq<Shape>)
    returns (ok: bool, made: seq<map<string, ClusterEntry>>, ghost cur: seq<Shape>,
             ghost copies: seq<map<string, Shape>>)
    requires SuiteReady(tests, overrides, clusters, ts, os, cos)
    requires Folds(ts, overrides, os).Some? ==> AllQuiet(Folds(ts, overrides, os).value, Trees(cos))
    modifies Feet(ts) + Feet(os) + Feet(cos)
    ensures ok <==> Folds(ts, overrides, os).Some? && (clusters == [] || AllFit(Folds(ts, overrides, os).value))
    ensures ok ==> Tests(tests, cur) && Dicts(cur) && Folds(ts, overrides, os) == Some(Trees(cur))
    ensures ok && clusters == [] ==> AllInHeap(cur)
    ensures ok && clusters != [] ==>
              AllMade(cur, Names(clusters), Trees(cos), made, copies) && Intact(Rests(cur), Feet(cos))
  {
    made, copies := [], [];
    KeptApart(cos, Feet(ts) + Feet(os));
    ok, cur := FirstLoop(tests, overrides, ts, os, Rest(cos, 0), Feet(ts) + Feet(os));
    if ok && clusters != [] {
      StillDicts(tests, ts, cur);
      RestInHeap(cos);
      ok, made, copies := RunClusters(tests, clusters, cur, cos, Feet(cur), Feet(cos));
    }
  }
}
