/** The cluster loop of process_override (init_suite.py): one deep copy of the test's config per
    cluster, taken while that config goes on being merged into, and what is left of the
    overrides for the next test. */
module ClusterOverrides {
  import opened Options
  import opened MergeTrees
  import opened OverrideValues
  import opened MergeHeap
  import opened DeepCopies
  import opened ProcessOverride
  import opened Sharing
  import opened SharedShapes
  import opened SharedTies

  // ----- the override file's clusters --------------------------------------

  /** An entry of the override file's cluster list; no config for a bare name. */
  datatype Cluster = Cluster(name: string, config: Option<Val>)

  ghost predicate Describes(s: Shape, v: Option<Val>) {
    match v case Some(x) => x == Top(s) && Sep(s) case None => s == SLeaf(0)
  }

  function Names(clusters: seq<Cluster>): (names: seq<string>) {
    seq(|clusters|, i requires 0 <= i < |clusters| => clusters[i].name)
  }

  ghost predicate Overrides(clusters: seq<Cluster>, os: seq<Shape>) {
    && |clusters| == |os| && Disjoint(os)
    && forall i :: 0 <= i < |os| ==> Describes(os[i], clusters[i].config)
  }

  ghost predicate AllInHeap(ss: seq<Shape>)
    reads Feet(ss)
  {
    forall i :: 0 <= i < |ss| ==> InHeap(ss[i])
  }

  predicate TruthyVal(v: Val)
    reads if v.ListRef? then {v.list as object} else if v.DictRef? then {v.dict as object} else {}
  {
    match v case Scalar(n) => n != 0 case ListRef(l) => l.items != [] case DictRef(d) => d.entries != map[]
  }

  lemma TruthyAgree(v: Val, s: Shape)
    requires v == Top(s) && InHeap(s)
    ensures TruthyVal(v) == Truthy(Erase(s))
  {
    if s.SDict? {
      assert s.dict.entries == map[] <==> s.dict.entries.Keys == {};
      assert Erase(s).entries == map[] <==> Erase(s).entries.Keys == {};
    }
  }

  // ----- an override through the loop --------------------------------------

  /** Override j before turn i: cur is the config, s the override's shape by now. */
  ghost predicate Tracks(c: Tree, os: seq<Shape>, j: nat, i: nat, cur: Shape, s: Shape)
    requires j < i <= |os|
  {
    && Sep(s) && Top(s) == Top(os[j]) && Aligned(cur, s) && Foot(s) <= Feet(os[j..i])
    && After(c, Trees(os), j, i) == State(TieS(cur, s), Erase(s))
    && (Undisturbed(c, Trees(os), j, i) ==> s == os[j])
  }

  lemma TrackStart(c: Tree, os: seq<Shape>, i: nat, cur: Shape)
    requires i < |os| && Apart(cur, os[i]) && Erase(cur) == Folded(c, Trees(os)[..i])
    ensures Tracks(c, os, i, i + 1, InPlace(cur, os[i]), os[i])
  {
    FoldedKeepsKind(c, Trees(os)[..i]);
    assert os[i..i + 1] == [] + [os[i]];
    FeetOfMore([], os[i]);
    assert Mergeable(c, Trees(os)[i]) == Mergeable(Erase(cur), Erase(os[i]));
    if Mergeable(Erase(cur), Erase(os[i])) {
      MergeAligned(cur, os[i]);
      MergeTie(cur, os[i]);
    } else {
      DisjointAligned(cur, os[i]);
      DisjointTie(cur, os[i]);
    }
  }

  lemma TrackStep(c: Tree, os: seq<Shape>, j: nat, i: nat, cur: Shape, s: Shape)
    requires j < i < |os| && Tracks(c, os, j, i, cur, s) && Fresh3(cur, s, os[i])
    requires Erase(cur) == Folded(c, Trees(os)[..i])
    ensures Tracks(c, os, j, i + 1, InPlace(cur, os[i]), Stepped(cur, s, os[i]))
  {
    var d := os[i];
    FoldedKeepsKind(c, Trees(os)[..i]);
    assert Mergeable(c, Trees(os)[i]) == Mergeable(Erase(cur), Erase(d));
    SteppedWithin(os, j, i, cur, s);
    RootAligned(cur, s, d);
    if Mergeable(Erase(cur), Erase(d)) {
      SteppedErases(cur, s, d);
      SteppedTie(cur, s, d);
      if Undisturbed(c, Trees(os), j, i + 1) { UntouchedKeeps(cur, s, d); }
    } else {
      NoEffectKeeps(cur, s, d);
    }
  }

  lemma SteppedWithin(os: seq<Shape>, j: nat, i: nat, cur: Shape, s: Shape)
    requires j < i < |os| && Sep(s) && Sep(os[i]) && Foot(os[i]) !! Foot(s) && Foot(s) <= Feet(os[j..i])
    ensures var s' := Stepped(cur, s, os[i]); Sep(s') && Top(s') == Top(s) && Foot(s') <= Feet(os[j..i + 1])
  {
    SteppedFoot(cur, s, os[i]);
    SteppedSep(cur, s, os[i]);
    assert os[j..i + 1] == os[j..i] + [os[i]];
    FeetOfMore(os[j..i], os[i]);
  }

  lemma FeetOfMore(ss: seq<Shape>, s: Shape)
    ensures Feet(ss + [s]) == Feet(ss) + Foot(s)
  {
    var all := ss + [s];
    assert forall i :: 0 <= i < |ss| ==> all[i] == ss[i];
    assert all[|ss|] == s;
    forall o | o in Feet(all) ensures o in Feet(ss) + Foot(s) {
      var i :| 0 <= i < |all| && o in Foot(all[i]);
      if i < |ss| { assert o in Foot(ss[i]); }
    }
    forall o | o in Feet(ss) ensures o in Feet(all) {
      var i :| 0 <= i < |ss| && o in Foot(ss[i]);
      assert o in Foot(all[i]);
    }
  }

  /** All overrides before turn i: those of earlier turns as they are by now. */
  ghost predicate Now(c: Tree, os: seq<Shape>, i: nat, cur: Shape, now: seq<Shape>)
    requires i <= |os|
  {
    && |now| == |os|
    && (forall j :: 0 <= j < i ==> Tracks(c, os, j, i, cur, now[j]))
    && (forall j :: i <= j < |os| ==> now[j] == os[j])
  }

  ghost function NextNow(os: seq<Shape>, i: nat, cur: Shape, now: seq<Shape>): seq<Shape>
    requires i < |os| == |now|
  {
    seq(|now|, j requires 0 <= j < |now| => if j < i then Stepped(cur, now[j], os[i]) else now[j])
  }

  /** The config before turn i. */
  ghost predicate Along(c: Tree, os: seq<Shape>, i: nat, cur: Shape)
    requires i <= |os|
  {
    && Sep(cur) && Erase(cur) == Folded(c, Trees(os)[..i])
    && forall j :: i <= j < |os| ==> Foot(os[j]) !! Foot(cur)
  }

  lemma AlongStep(c: Tree, os: seq<Shape>, i: nat, cur: Shape)
    requires i < |os| && Along(c, os, i, cur) && Disjoint(os) && Sep(os[i])
    ensures Along(c, os, i + 1, InPlace(cur, os[i]))
  {
    InPlaceFoot(cur, os[i]);
    assert Trees(os)[..i + 1][..i] == Trees(os)[..i];
  }

  /** What the turn's merge needs to know of the earlier overrides. */
  lemma EarlierFresh(c: Tree, os: seq<Shape>, i: nat, cur: Shape, now: seq<Shape>, j: nat)
    requires j < i < |os| && Disjoint(os) && Along(c, os, i, cur) && Now(c, os, i, cur, now) && Sep(os[i])
    ensures Aligned(cur, now[j]) && Fresh3(cur, now[j], os[i])
  {
    assert Tracks(c, os, j, i, cur, now[j]);
    forall o | o in Foot(now[j]) ensures o !in Foot(os[i]) {
      var k :| 0 <= k < |os[j..i]| && o in Foot(os[j..i][k]);
      assert o in Foot(os[j + k]);
    }
  }

  lemma NowStep(c: Tree, os: seq<Shape>, i: nat, cur: Shape, now: seq<Shape>)
    requires i < |os| && Disjoint(os) && Along(c, os, i, cur) && Now(c, os, i, cur, now) && Sep(os[i])
    ensures Now(c, os, i + 1, InPlace(cur, os[i]), NextNow(os, i, cur, now))
  {
    var now', cur' := NextNow(os, i, cur, now), InPlace(cur, os[i]);
    forall j | 0 <= j < i + 1 ensures Tracks(c, os, j, i + 1, cur', now'[j]) {
      if j < i {
        EarlierFresh(c, os, i, cur, now, j);
        TrackStep(c, os, j, i, cur, now[j]);
      } else {
        TrackStart(c, os, i, cur);
      }
    }
  }

  // ----- one turn on the heap ----------------------------------------------

  /** Overrides that the merge of b into the config a may write to. */
  ghost predicate MayShare(a: Shape, b: Shape, shared: set<Shape>)
    reads set s, o | s in shared && o in Foot(s) :: o
  {
    forall s <- shared :: InHeap(s) && Aligned(a, s) && Fresh3(a, s, b)
  }

  /** The same in the heap after the merge, which wrote to w only. */
  ghost predicate Shared(a: Shape, b: Shape, shared: set<Shape>, w: set<object>)
    reads (Foot(a) + set s, o | s in shared && o in Foot(s) :: o) - w
  {
    HeldOutside(a, w) && forall s <- shared :: HeldOutside(s, w) && Aligned(a, s) && Fresh3(a, s, b)
  }

  lemma BeforeMerge(a: Shape, b: Shape, shared: set<Shape>)
    requires InHeap(a) && MayShare(a, b, shared)
    ensures Shared(a, b, shared, Writes(a, b))
    ensures forall s, o | s in shared && o in Foot(s) :: allocated(o)
  {
    HeldIsHeldOutside(a, Writes(a, b));
    forall s | s in shared ensures HeldOutside(s, Writes(a, b)) && forall o <- Foot(s) :: allocated(o) {
      HeldIsHeldOutside(s, Writes(a, b));
      InHeapIsAllocated(s);
    }
  }

  lemma AfterMerge(a: Shape, b: Shape, shared: set<Shape>)
    requires Shared(a, b, shared, Writes(a, b)) && InHeap(InPlace(a, b))
    ensures forall s <- shared :: InHeap(Stepped(a, s, b))
  {
    forall s | s in shared ensures InHeap(Stepped(a, s, b)) { SteppedInHeap(a, s, b, Writes(a, b)); }
  }

  /** merge_dicts with its result thrown away, followed through the overrides that share
      objects with the config. */
  method MergeShared(config: Val, addition: Val, ghost a: Shape, ghost b: Shape,
                     ghost shared: set<Shape>, ghost kept: set<Shape>)
    requires Held(config, a) && Held(addition, b) && Foot(a) !! Foot(b)
    requires MayShare(a, b, shared) && forall t <- kept :: InHeap(t) && Foot(t) !! Foot(a)
    modifies Writes(a, b)
    ensures Held(config, InPlace(a, b)) && InHeap(b)
    ensures forall s <- shared :: InHeap(Stepped(a, s, b))
    ensures forall t <- kept :: InHeap(t)
  {
    InPlaceFoot(a, b);
    WritesInFoot(a, b);
    BeforeMerge(a, b, shared);
    InHeapIsAllocated(a);
    var _ := MergeKeeping(config, addition, a, b, kept);
    AfterMerge(a, b, shared);
  }

  /** The cluster's config, if it has one, merged into the test's. */
  method MergeConfig(config: Val, addition: Option<Val>, ghost a: Shape, ghost b: Shape,
                     ghost shared: set<Shape>, ghost kept: set<Shape>)
    requires Held(config, a) && Describes(b, addition) && InHeap(b) && Foot(a) !! Foot(b)
    requires MayShare(a, b, shared) && forall t <- kept :: InHeap(t) && Foot(t) !! Foot(a)
    modifies Writes(a, b)
    ensures Held(config, InPlace(a, b)) && InHeap(b)
    ensures forall s <- shared :: InHeap(Stepped(a, s, b))
    ensures forall t <- kept :: InHeap(t)
  {
    if addition.Some? {
      MergeShared(config, addition.value, a, b, shared, kept);
    } else {
      forall s | s in shared ensures Stepped(a, s, b) == s { NoEffectKeeps(a, s, b); }
    }
  }

  /** What a turn stores under the cluster's name. */
  function Entry(t: Tree): Option<Tree> { if Truthy(t) then Some(t) else None }

  /** The stored object, and its shape, are a copy of the expected tree. */
  ghost predicate Stores(entry: Option<Val>, copy: Shape, expected: Option<Tree>) {
    match expected
    case None => entry.None? && copy == SLeaf(0)
    case Some(t) => entry == Some(Top(copy)) && Sep(copy) && Erase(copy) == t
  }

  method CopyConfig(config: Val, ghost cur: Shape, ghost held: set<Shape>)
    returns (entry: Option<Val>, ghost copy: Shape)
    requires Held(config, cur) && forall t <- held :: InHeap(t)
    ensures Held(config, cur) && forall t <- held :: InHeap(t)
    ensures Stores(entry, copy, Entry(Erase(cur))) && InHeap(copy) && fresh(Foot(copy))
  {
    TruthyAgree(config, cur);
    if !TruthyVal(config) { return None, SLeaf(0); }
    var c;
    c, copy := CopyKeeping(config, cur, held + {cur});
    entry := Some(c);
  }

  /** The shapes stay in the heap, and away from the area that is written to. */
  ghost predicate Intact(held: set<Shape>, area: set<object>)
    reads set t, o | t in held && o in Foot(t) :: o
  {
    forall t <- held :: InHeap(t) && Foot(t) !! area
  }

  ghost function Earlier(ss: seq<Shape>, i: nat): set<Shape>
    requires i <= |ss|
  {
    set j | 0 <= j < i :: ss[j]
  }

  /** The state before turn i. */
  ghost predicate Turn(config: Val, c: Tree, os: seq<Shape>, i: nat, cur: Shape, now: seq<Shape>)
    requires i <= |os|
    reads Foot(cur) + Feet(now)
  {
    && Disjoint(os) && config == Top(cur) && InHeap(cur) && AllInHeap(now)
    && Along(c, os, i, cur) && Now(c, os, i, cur, now)
  }

  method MergeTurn(config: Val, cluster: Cluster, i: nat, ghost c: Tree, ghost os: seq<Shape>, ghost cur: Shape,
                   ghost now: seq<Shape>, ghost held: set<Shape>, ghost area: set<object>)
    requires i < |os| && Turn(config, c, os, i, cur, now) && Describes(os[i], cluster.config)
    requires Intact(held, area) && Foot(cur) <= area
    modifies Writes(cur, os[i])
    ensures Turn(config, c, os, i + 1, InPlace(cur, os[i]), NextNow(os, i, cur, now))
    ensures Intact(held, area)
  {
    AlongStep(c, os, i, cur);
    NowStep(c, os, i, cur, now);
    SharedReady(c, os, i, cur, now);
    MergeConfig(config, cluster.config, cur, os[i], Earlier(now, i), held + Rest(os, i + 1));
    NowInHeap(os, i, cur, now);
  }

  method TurnAt(config: Val, cluster: Cluster, i: nat, ghost c: Tree, ghost os: seq<Shape>, ghost cur: Shape,
                ghost now: seq<Shape>, ghost held: set<Shape>, ghost area: set<object>)
    returns (entry: Option<Val>, ghost copy: Shape)
    requires i < |os| && Turn(config, c, os, i, cur, now) && Describes(os[i], cluster.config)
    requires Intact(held, area) && Foot(cur) <= area && forall o <- area :: allocated(o)
    modifies Writes(cur, os[i])
    ensures Turn(config, c, os, i + 1, InPlace(cur, os[i]), NextNow(os, i, cur, now))
    ensures Stores(entry, copy, Entry(Folded(c, Trees(os)[..i + 1]))) && fresh(Foot(copy))
    ensures Intact(held + {copy}, area)
  {
    MergeTurn(config, cluster, i, c, os, cur, now, held, area);
    ghost var cur', now' := InPlace(cur, os[i]), NextNow(os, i, cur, now);
    RestInHeap(now');
    entry, copy := CopyConfig(config, cur', held + Rest(now', 0));
    RestInHeap(now');
  }

  lemma RestInHeap(ss: seq<Shape>)
    ensures AllInHeap(ss) <==> forall s <- Rest(ss, 0) :: InHeap(s)
  {
    assert forall j :: 0 <= j < |ss| ==> ss[j] in Rest(ss, 0);
  }

  lemma SharedReady(c: Tree, os: seq<Shape>, i: nat, cur: Shape, now: seq<Shape>)
    requires i < |os| && Disjoint(os) && Along(c, os, i, cur) && Now(c, os, i, cur, now) && Sep(os[i]) && AllInHeap(now)
    ensures InHeap(os[i]) && Foot(cur) !! Foot(os[i]) && MayShare(cur, os[i], Earlier(now, i))
    ensures forall t <- Rest(os, i + 1) :: InHeap(t) && Foot(t) !! Foot(cur)
  {
    assert now[i] == os[i];
    forall j | 0 <= j < i ensures InHeap(now[j]) && Aligned(cur, now[j]) && Fresh3(cur, now[j], os[i]) {
      EarlierFresh(c, os, i, cur, now, j);
    }
    forall j | i + 1 <= j < |os| ensures InHeap(os[j]) { assert now[j] == os[j]; }
  }

  lemma NowInHeap(os: seq<Shape>, i: nat, cur: Shape, now: seq<Shape>)
    requires i < |os| == |now| && forall j :: i <= j < |os| ==> now[j] == os[j]
    requires forall s <- Earlier(now, i) :: InHeap(Stepped(cur, s, os[i]))
    requires InHeap(os[i]) && forall t <- Rest(os, i + 1) :: InHeap(t)
    ensures AllInHeap(NextNow(os, i, cur, now))
  {
    forall j | 0 <= j < |now| ensures InHeap(NextNow(os, i, cur, now)[j]) {
      if j < i { assert now[j] in Earlier(now, i); } else if j > i { assert os[j] in Rest(os, i + 1); }
    }
  }

  // ----- the cluster loop of one test --------------------------------------

  /** What the test has under a cluster's name: its own, or what the loop stored. */
  datatype ClusterEntry = AsBefore(value: Val) | Config(config: Option<Val>)

  /** The test's clusters: those it had, except where one of the override file has its name. */
  ghost predicate AllStored(before: map<string, Val>, made: map<string, ClusterEntry>, copies: map<string, Shape>,
                            expected: map<string, Option<Tree>>)
  {
    && copies.Keys == expected.Keys && made.Keys == before.Keys + expected.Keys
    && (forall n <- expected :: made[n].Config? && Stores(made[n].config, copies[n], expected[n]))
    && (forall n <- before :: n !in expected ==> made[n] == AsBefore(before[n]))
  }

  lemma StoredMore(before: map<string, Val>, made: map<string, ClusterEntry>, copies: map<string, Shape>, c: Tree,
                   names: seq<string>, trees: seq<Tree>, i: nat, entry: Option<Val>, copy: Shape)
    requires |names| == |trees| > i && AllStored(before, made, copies, Made(c, names[..i], trees[..i]))
    requires Stores(entry, copy, Entry(Folded(c, trees[..i + 1])))
    ensures AllStored(before, made[names[i] := Config(entry)], copies[names[i] := copy],
            Made(c, names[..i + 1], trees[..i + 1]))
  {
    MadeMore(c, names, trees, i);
  }

  lemma MadeMore(c: Tree, names: seq<string>, trees: seq<Tree>, i: nat)
    requires |names| == |trees| > i
    ensures Made(c, names[..i + 1], trees[..i + 1]) ==
            Made(c, names[..i], trees[..i])[names[i] := Entry(Folded(c, trees[..i + 1]))]
  {
    assert names[..i + 1][..i] == names[..i] && trees[..i + 1][..i] == trees[..i];
  }

  /** The copies are among the held shapes and made of the given objects. */
  ghost predicate Kept(copies: map<string, Shape>, held: set<Shape>, news: set<object>) {
    forall n <- copies :: copies[n] in held && Foot(copies[n]) <= news
  }

  lemma KeptMore(copies: map<string, Shape>, held: set<Shape>, news: set<object>, name: string, copy: Shape)
    requires Kept(copies, held, news)
    ensures Kept(copies[name := copy], held + {copy}, news + Foot(copy))
  {
  }

  /** What the loop leaves of the overrides. */
  ghost predicate AsLeft(c: Tree, os: seq<Shape>, ends: seq<Shape>) {
    |ends| == |os| && forall j: nat :: j < |os| ==> OneAsLeft(c, os, j, ends[j])
  }

  ghost predicate OneAsLeft(c: Tree, os: seq<Shape>, j: nat, end: Shape)
    requires j < |os|
  {
    && Sep(end) && Top(end) == Top(os[j]) && Foot(end) <= Feet(os[j..])
    && Erase(end) == Left(c, Trees(os), j)
    && (Undisturbed(c, Trees(os), j, |os|) ==> end == os[j])
  }

  lemma NowAtTheEnd(c: Tree, os: seq<Shape>, cur: Shape, now: seq<Shape>)
    requires Now(c, os, |os|, cur, now)
    ensures AsLeft(c, os, now)
  {
    forall j: nat | j < |os| ensures OneAsLeft(c, os, j, now[j]) {
      assert Tracks(c, os, j, |os|, cur, now[j]) && os[j..|os|] == os[j..];
    }
  }

  /** Config and overrides before the loop. */
  ghost predicate Ready(config: Val, clusters: seq<Cluster>, c: Shape, os: seq<Shape>)
    reads Foot(c) + Feet(os)
  {
    Held(config, c) && Overrides(clusters, os) && AllInHeap(os) && Foot(c) !! Feet(os)
  }

  lemma FirstTurn(config: Val, clusters: seq<Cluster>, c: Shape, os: seq<Shape>)
    requires Ready(config, clusters, c, os)
    ensures Turn(config, Erase(c), os, 0, c, os)
  {
    assert forall j :: 0 <= j < |os| ==> Foot(os[j]) <= Feet(os);
  }

  /** The config never grows beyond its own objects and those of the overrides. */
  lemma WithinArea(os: seq<Shape>, i: nat, cur: Shape, area: set<object>)
    requires i < |os| && Sep(cur) && Sep(os[i]) && Foot(os[i]) !! Foot(cur) && Foot(cur) <= area && Feet(os) <= area
    ensures Foot(InPlace(cur, os[i])) <= area && Writes(cur, os[i]) <= area
  {
    InPlaceFoot(cur, os[i]);
    WritesInFoot(cur, os[i]);
    assert Foot(os[i]) <= Feet(os);
  }

  /** The cluster loop of one test. What was stored for a cluster is the fold up to it, and
      still is at the end, after the later merges; what the overrides hold by then is what
      Left says. */
  method ClusterConfigs(config: Val, clusters: seq<Cluster>, before: map<string, Val>,
                        ghost c: Shape, ghost os: seq<Shape>, ghost kept: set<Shape>)
    returns (made: map<string, ClusterEntry>, ghost copies: map<string, Shape>, ghost ends: seq<Shape>,
             ghost held: set<Shape>, ghost news: set<object>)
    requires Ready(config, clusters, c, os) && Intact(kept, Foot(c) + Feet(os))
    modifies Foot(c) + Feet(os)
    ensures AllStored(before, made, copies, Made(Erase(c), Names(clusters), Trees(os)))
    ensures kept <= held && Intact(held, Foot(c) + Feet(os)) && Kept(copies, held, news) && fresh(news)
    ensures AsLeft(Erase(c), os, ends) && AllInHeap(ends)
  {
    AreaAllocated(c, os);
    made, copies, ends, held, news := ClusterLoop(config, clusters, before, c, os, kept, Foot(c) + Feet(os));
  }

  lemma AreaAllocated(c: Shape, os: seq<Shape>)
    requires InHeap(c) && AllInHeap(os)
    ensures forall o <- Foot(c) + Feet(os) :: allocated(o)
  {
    InHeapIsAllocated(c);
    forall i | 0 <= i < |os| ensures forall o <- Foot(os[i]) :: allocated(o) { InHeapIsAllocated(os[i]); }
  }

  method ClusterLoop(config: Val, clusters: seq<Cluster>, before: map<string, Val>,
                     ghost c: Shape, ghost os: seq<Shape>, ghost kept: set<Shape>, ghost area: set<object>)
    returns (made: map<string, ClusterEntry>, ghost copies: map<string, Shape>, ghost now: seq<Shape>,
             ghost held: set<Shape>, ghost news: set<object>)
    requires Ready(config, clusters, c, os) && Intact(kept, area)
    requires Foot(c) + Feet(os) <= area && forall o <- area :: allocated(o)
    modifies area
    ensures AllStored(before, made, copies, Made(Erase(c), Names(clusters), Trees(os)))
    ensures kept <= held && Intact(held, area) && Kept(copies, held, news) && fresh(news)
    ensures AsLeft(Erase(c), os, now) && AllInHeap(now)
  {
    made, copies, now, held, news := map n | n in before :: AsBefore(before[n]), map[], os, kept, {};
    ghost var cur, names, trees := c, Names(clusters), Trees(os);
    FirstTurn(config, clusters, c, os);
    for i := 0 to |clusters|
      invariant Turn(config, Erase(c), os, i, cur, now) && Foot(cur) <= area
      invariant AllStored(before, made, copies, Made(Erase(c), names[..i], trees[..i]))
      invariant kept <= held && Intact(held, area) && Kept(copies, held, news) && fresh(news)
    {
      ghost var copy;
      made, copy := StoreTurn(config, clusters[i], before, made, i,
                              Erase(c), os, cur, now, names, copies, held, area, news);
      cur, now := InPlace(cur, os[i]), NextNow(os, i, cur, now);
      copies, held, news := copies[names[i] := copy], held + {copy}, news + Foot(copy);
    }
    assert names[..|names|] == names && trees[..|trees|] == trees;
    NowAtTheEnd(Erase(c), os, cur, now);
  }

  method StoreTurn(config: Val, cluster: Cluster, before: map<string, Val>, made: map<string, ClusterEntry>, i: nat,
                   ghost c: Tree, ghost os: seq<Shape>, ghost cur: Shape, ghost now: seq<Shape>,
                   ghost names: seq<string>, ghost copies: map<string, Shape>,
                   ghost held: set<Shape>, ghost area: set<object>, ghost news: set<object>)
    returns (made': map<string, ClusterEntry>, ghost copy: Shape)
    requires i < |os| == |names| && Turn(config, c, os, i, cur, now)
    requires Describes(os[i], cluster.config) && cluster.name == names[i]
    requires AllStored(before, made, copies, Made(c, names[..i], Trees(os)[..i]))
    requires Intact(held, area) && Kept(copies, held, news)
    requires Foot(cur) + Feet(os) <= area && forall o <- area :: allocated(o)
    modifies area
    ensures Turn(config, c, os, i + 1, InPlace(cur, os[i]), NextNow(os, i, cur, now)) &&
            Foot(InPlace(cur, os[i])) <= area
    ensures AllStored(before, made', copies[names[i] := copy], Made(c, names[..i + 1], Trees(os)[..i + 1]))
    ensures Intact(held + {copy}, area) && Kept(copies[names[i] := copy], held + {copy}, news + Foot(copy))
    ensures fresh(Foot(copy))
  {
    WithinArea(os, i, cur, area);
    var entry;
    entry, copy := TurnAt(config, cluster, i, c, os, cur, now, held, area);
    StoredMore(before, made, copies, c, names, Trees(os), i, entry, copy);
    KeptMore(copies, held, news, names[i], copy);
    made' := made[cluster.name := Config(entry)];
  }

  // ----- all tests ---------------------------------------------------------

  ghost predicate TestsMade(befores: seq<map<string, Val>>, made: seq<map<string, ClusterEntry>>,
                            copies: seq<map<string, Shape>>, cs: seq<Shape>, names: seq<string>, trees: seq<Tree>)
    requires |names| == |trees|
  {
    && |made| == |copies| <= |cs| == |befores|
    && forall t :: 0 <= t < |made| ==> AllStored(befores[t], made[t], copies[t], Made(Erase(cs[t]), names, trees))
  }

  lemma TestsMadeMore(befores: seq<map<string, Val>>, made: seq<map<string, ClusterEntry>>,
                      copies: seq<map<string, Shape>>, cs: seq<Shape>, names: seq<string>, trees: seq<Tree>,
                      m: map<string, ClusterEntry>, c: map<string, Shape>)
    requires |names| == |trees| && TestsMade(befores, made, copies, cs, names, trees) && |made| < |cs|
    requires AllStored(befores[|made|], m, c, Made(Erase(cs[|made|]), names, trees))
    ensures TestsMade(befores, made + [m], copies + [c], cs, names, trees)
  {
  }

  ghost predicate TestsReady(configs: seq<Val>, befores: seq<map<string, Val>>, cs: seq<Shape>) {
    && |configs| == |befores| == |cs| && Disjoint(cs)
    && forall t :: 0 <= t < |cs| ==> configs[t] == Top(cs[t]) && Sep(cs[t])
  }

  lemma RestApart(cs: seq<Shape>, t: nat, others: set<object>)
    requires t < |cs| && Disjoint(cs) && Feet(cs) !! others
    ensures Foot(cs[t]) <= Feet(cs)
    ensures forall s <- Rest(cs, t + 1) :: Foot(s) !! Foot(cs[t]) + others
  {
  }

  lemma AllAsRead(c: Tree, os: seq<Shape>, ends: seq<Shape>)
    requires AsLeft(c, os, ends) && AllUndisturbed(c, Trees(os))
    ensures ends == os
  {
    forall j: nat | j < |os| ensures ends[j] == os[j] { assert OneAsLeft(c, os, j, ends[j]); }
  }

  ghost predicate AllKept(copies: seq<map<string, Shape>>, held: set<Shape>, news: set<object>) {
    forall t :: 0 <= t < |copies| ==> Kept(copies[t], held, news)
  }

  lemma AllKeptMore(copies: seq<map<string, Shape>>, held: set<Shape>, news: set<object>,
                    c: map<string, Shape>, held': set<Shape>, more: set<object>)
    requires AllKept(copies, held, news) && Kept(c, held', more) && held <= held'
    ensures AllKept(copies + [c], held', news + more)
  {
  }

  method NthTest(config: Val, clusters: seq<Cluster>, before: map<string, Val>, t: nat, ghost cs: seq<Shape>,
                 ghost os: seq<Shape>, ghost held: set<Shape>, ghost area: set<object>)
    returns (made: map<string, ClusterEntry>, ghost copies: map<string, Shape>, ghost ends: seq<Shape>,
             ghost held': set<Shape>, ghost news: set<object>)
    requires t < |cs| && config == Top(cs[t]) && Sep(cs[t]) && Disjoint(cs) && forall s <- Rest(cs, t) :: InHeap(s)
    requires Overrides(clusters, os) && AllInHeap(os) && Feet(cs) !! Feet(os)
    requires area == Feet(cs) + Feet(os) && (forall o <- area :: allocated(o)) && Intact(held, area)
    modifies area
    ensures AllStored(before, made, copies, Made(Erase(cs[t]), Names(clusters), Trees(os)))
    ensures forall s <- Rest(cs, t + 1) :: InHeap(s)
    ensures held <= held' && Intact(held', area) && Kept(copies, held', news) && fresh(news)
    ensures AsLeft(Erase(cs[t]), os, ends) && AllInHeap(ends)
  {
    assert cs[t] in Rest(cs, t);
    RestApart(cs, t, Feet(os));
    made, copies, ends, held', news := TestTurn(config, clusters, before, cs[t], os, Rest(cs, t + 1), held, area);
  }

  /** The cluster loop of one of many tests: later tests' configs and earlier copies stay. */
  method TestTurn(config: Val, clusters: seq<Cluster>, before: map<string, Val>, ghost c: Shape, ghost os: seq<Shape>,
                  ghost later: set<Shape>, ghost held: set<Shape>, ghost area: set<object>)
    returns (made: map<string, ClusterEntry>, ghost copies: map<string, Shape>, ghost ends: seq<Shape>,
             ghost held': set<Shape>, ghost news: set<object>)
    requires Ready(config, clusters, c, os) && Foot(c) + Feet(os) <= area && forall o <- area :: allocated(o)
    requires Intact(later, Foot(c) + Feet(os)) && Intact(held, area)
    modifies Foot(c) + Feet(os)
    ensures AllStored(before, made, copies, Made(Erase(c), Names(clusters), Trees(os)))
    ensures forall s <- later :: InHeap(s)
    ensures held <= held' && Intact(held', area) && Kept(copies, held', news) && fresh(news)
    ensures AsLeft(Erase(c), os, ends) && AllInHeap(ends)
  {
    ghost var all;
    made, copies, ends, all, news := ClusterConfigs(config, clusters, before, c, os, later + held);
    held' := held + copies.Values;
  }

  /** The first t tests are done. */
  ghost predicate TestsDone(befores: seq<map<string, Val>>, cs: seq<Shape>, os: seq<Shape>, names: seq<string>, t: nat,
                            made: seq<map<string, ClusterEntry>>, copies: seq<map<string, Shape>>, ends: seq<Shape>,
                            held: set<Shape>, news: set<object>, area: set<object>)
    requires |names| == |os|
    reads Feet(cs) + Feet(ends) + set s, o | s in held && o in Foot(s) :: o
  {
    && t == |made| <= |cs| && TestsMade(befores, made, copies, cs, names, Trees(os))
    && (forall s <- Rest(cs, t) :: InHeap(s))
    && AllInHeap(ends) && (t == 0 || t < |cs| ==> ends == os)
    && (t > 0 ==> AsLeft(Erase(cs[t - 1]), os, ends))
    && Intact(held, area) && AllKept(copies, held, news)
  }

  /** What the loop over the tests starts from: the overrides are undisturbed by all tests but
      the last. */
  ghost predicate TestsStart(configs: seq<Val>, befores: seq<map<string, Val>>, clusters: seq<Cluster>,
                             cs: seq<Shape>, os: seq<Shape>)
  {
    && TestsReady(configs, befores, cs) && Overrides(clusters, os) && Feet(cs) !! Feet(os)
    && forall t :: 0 <= t < |cs| - 1 ==> Quiet(cs[t], os)
  }

  ghost predicate Quiet(c: Shape, os: seq<Shape>) { AllUndisturbed(Erase(c), Trees(os)) }

  lemma NothingDone(configs: seq<Val>, befores: seq<map<string, Val>>, clusters: seq<Cluster>,
                    cs: seq<Shape>, os: seq<Shape>)
    requires TestsStart(configs, befores, clusters, cs, os) && AllInHeap(cs) && AllInHeap(os)
    ensures TestsDone(befores, cs, os, Names(clusters), 0, [], [], os, {}, {}, Feet(cs) + Feet(os))
    ensures forall o <- Feet(cs) + Feet(os) :: allocated(o)
  {
    FeetAllocated(cs);
    FeetAllocated(os);
    RestInHeap(cs);
  }

  /** One more test. */
  method OneTest(configs: seq<Val>, clusters: seq<Cluster>, befores: seq<map<string, Val>>, t: nat,
                 ghost cs: seq<Shape>, ghost os: seq<Shape>, made0: seq<map<string, ClusterEntry>>,
                 ghost copies0: seq<map<string, Shape>>, ghost ends0: seq<Shape>, ghost held0: set<Shape>,
                 ghost news0: set<object>, ghost area: set<object>)
    returns (made: seq<map<string, ClusterEntry>>, ghost copies: seq<map<string, Shape>>, ghost ends: seq<Shape>,
             ghost held: set<Shape>, ghost more: set<object>)
    requires t < |configs| && TestsStart(configs, befores, clusters, cs, os)
    requires TestsDone(befores, cs, os, Names(clusters), t, made0, copies0, ends0, held0, news0, area)
    requires area == Feet(cs) + Feet(os) && forall o <- area :: allocated(o)
    modifies area
    ensures TestsDone(befores, cs, os, Names(clusters), t + 1, made, copies, ends, held, news0 + more, area)
    ensures fresh(more)
  {
    var m;
    ghost var c;
    m, c, ends, held, more := NthTest(configs[t], clusters, befores[t], t, cs, os, held0, area);
    if t + 1 < |cs| {
      assert Quiet(cs[t], os);
      AllAsRead(Erase(cs[t]), os, ends);
    }
    TestsMadeMore(befores, made0, copies0, cs, Names(clusters), Trees(os), m, c);
    AllKeptMore(copies0, held0, news0, c, held, more);
    made, copies := made0 + [m], copies0 + [c];
  }

  method TestLoop(configs: seq<Val>, befores: seq<map<string, Val>>, clusters: seq<Cluster>,
                  ghost cs: seq<Shape>, ghost os: seq<Shape>, ghost area: set<object>)
    returns (made: seq<map<string, ClusterEntry>>, ghost copies: seq<map<string, Shape>>, ghost ends: seq<Shape>,
             ghost held: set<Shape>, ghost news: set<object>)
    requires TestsStart(configs, befores, clusters, cs, os)
    requires TestsDone(befores, cs, os, Names(clusters), 0, [], [], os, {}, {}, area)
    requires area == Feet(cs) + Feet(os) && forall o <- area :: allocated(o)
    modifies area
    ensures TestsDone(befores, cs, os, Names(clusters), |configs|, made, copies, ends, held, news, area)
    ensures fresh(news)
  {
    made, copies, ends, held, news := [], [], os, {}, {};
    for t := 0 to |configs|
      invariant TestsDone(befores, cs, os, Names(clusters), t, made, copies, ends, held, news, area)
      invariant fresh(news)
    {
      ghost var more;
      made, copies, ends, held, more :=
        OneTest(configs, clusters, befores, t, cs, os, made, copies, ends, held, news, area);
      news := news + more;
    }
  }

  /** As long as no test adds anything to a shared part of an override, the overrides stay as
      read and every test gets the folds, the last one too, whatever it does to them. */
  method ClustersOfTests(configs: seq<Val>, befores: seq<map<string, Val>>, clusters: seq<Cluster>,
                         ghost cs: seq<Shape>, ghost os: seq<Shape>)
    returns (made: seq<map<string, ClusterEntry>>, ghost copies: seq<map<string, Shape>>, ghost ends: seq<Shape>,
             ghost held: set<Shape>, ghost news: set<object>)
    requires TestsStart(configs, befores, clusters, cs, os) && AllInHeap(cs) && AllInHeap(os)
    modifies Feet(cs) + Feet(os)
    ensures TestsDone(befores, cs, os, Names(clusters), |configs|, made, copies, ends, held, news, Feet(cs) + Feet(os))
    ensures fresh(news)
  {
    NothingDone(configs, befores, clusters, cs, os);
    made, copies, ends, held, news := TestLoop(configs, befores, clusters, cs, os, Feet(cs) + Feet(os));
  }

  lemma FeetAllocated(ss: seq<Shape>)
    requires AllInHeap(ss)
    ensures forall o <- Feet(ss) :: allocated(o)
  {
    forall i | 0 <= i < |ss| ensures forall o <- Foot(ss[i]) :: allocated(o) { InHeapIsAllocated(ss[i]); }
  }

  // ----- a later test ------------------------------------------------------

  /** The first n overrides as a later test finds them. */
  function LeftOvers(c: Tree, os: seq<Tree>, n: nat): (left: seq<Tree>)
    requires n <= |os|
    ensures |left| == n
  {
    seq(n, j requires 0 <= j < n => Left(c, os, j))
  }

  lemma LeftDisjoint(c: Tree, os: seq<Shape>, ends: seq<Shape>, n: nat)
    requires AsLeft(c, os, ends) && Disjoint(os) && n <= |os|
    requires forall j :: 0 <= j < n - 1 ==> Undisturbed(c, Trees(os), j, |os|)
    ensures Disjoint(ends[..n]) && Feet(ends[..n]) <= Feet(os)
    ensures Trees(ends[..n]) == LeftOvers(c, Trees(os), n)
  {
    forall j: nat, k: nat, o | j < k < n && o in Foot(ends[k]) ensures o !in Foot(ends[j]) {
      assert OneAsLeft(c, os, j, ends[j]) && OneAsLeft(c, os, k, ends[k]) && ends[j] == os[j];
      var i :| 0 <= i < |os[k..]| && o in Foot(os[k..][i]);
      assert o in Foot(os[k + i]);
    }
    forall j: nat | j < n ensures Erase(ends[j]) == Left(c, Trees(os), j) { assert OneAsLeft(c, os, j, ends[j]); }
    forall j: nat, o | j < n && o in Foot(ends[j]) ensures o in Feet(os) {
      assert OneAsLeft(c, os, j, ends[j]);
      var i :| 0 <= i < |os[j..]| && o in Foot(os[j..][i]);
      assert o in Foot(os[j + i]);
    }
  }

  lemma LeftReady(config: Val, clusters: seq<Cluster>, c: Shape, was: Tree, os: seq<Shape>, ends: seq<Shape>, n: nat)
    requires Held(config, c) && Overrides(clusters, os) && Foot(c) !! Feet(os)
    requires AsLeft(was, os, ends) && AllInHeap(ends) && n <= |os|
    requires forall j :: 0 <= j < n - 1 ==> Undisturbed(was, Trees(os), j, |os|)
    ensures Ready(config, clusters[..n], c, ends[..n]) && Feet(ends[..n]) <= Feet(os)
    ensures Trees(ends[..n]) == LeftOvers(was, Trees(os), n)
  {
    LeftDisjoint(was, os, ends, n);
    forall j: nat | j < n ensures Describes(ends[j], clusters[j].config) && InHeap(ends[j]) {
      assert OneAsLeft(was, os, j, ends[j]);
      assert Describes(os[j], clusters[j].config) && Top(ends[j]) == Top(os[j]);
    }
  }

  /** The test after one with config `was`, up to the first override that is no longer as read:
      its clusters get the folds of what is left of the overrides. */
  method NextTest(config: Val, clusters: seq<Cluster>, before: map<string, Val>, n: nat,
                  ghost c: Shape, ghost was: Tree, ghost os: seq<Shape>, ghost ends: seq<Shape>)
    returns (made: map<string, ClusterEntry>, ghost copies: map<string, Shape>, ghost held: set<Shape>,
             ghost news: set<object>)
    requires Held(config, c) && Overrides(clusters, os) && Foot(c) !! Feet(os)
    requires AsLeft(was, os, ends) && AllInHeap(ends) && n <= |os|
    requires forall j :: 0 <= j < n - 1 ==> Undisturbed(was, Trees(os), j, |os|)
    modifies Foot(c) + Feet(os)
    ensures AllStored(before, made, copies, Made(Erase(c), Names(clusters[..n]), LeftOvers(was, Trees(os), n)))
    ensures Intact(held, Foot(c)) && Kept(copies, held, news) && fresh(news)
  {
    LeftReady(config, clusters, c, was, os, ends, n);
    ghost var later;
    made, copies, later, held, news := ClusterConfigs(config, clusters[..n], before, c, ends[..n], {});
  }

  /** Cluster p of the next test, all overrides before it being as read: it gets what it should
      if and only if what is left of override p, merged over the config that the turns before it
      make, comes to the same as the override that was read. */
  lemma NextTestExactly(c: Tree, next: Tree, os: seq<Tree>, p: nat)
    requires p < |os| && forall j :: 0 <= j < p ==> Undisturbed(c, os, j, |os|)
    ensures var sofar := Folded(next, os[..p]);
            Entry(Folded(next, LeftOvers(c, os, p + 1))) == Entry(Folded(next, os[..p + 1])) <==>
            !Mergeable(sofar, os[p]) || SameOver(sofar, Left(c, os, p), os[p])
  {
    var sofar := Folded(next, os[..p]);
    LeftKeepsKind(c, os, p, |os|);
    LeftOversAsRead(c, os, p);
    assert os[..p + 1][..p] == os[..p];
    SameOverExactly(sofar, Left(c, os, p), os[p]);
    EntryTells(Effect(sofar, Left(c, os, p)), Effect(sofar, os[p]));
  }

  lemma LeftOversAsRead(c: Tree, os: seq<Tree>, p: nat)
    requires p < |os| && forall j :: 0 <= j < p ==> Undisturbed(c, os, j, |os|)
    ensures LeftOvers(c, os, p + 1) == os[..p] + [Left(c, os, p)]
  {
    forall j | 0 <= j < p ensures Left(c, os, j) == os[j] {
      AsReadExactly(c, os, j, |os|);
      assert AsRead(c, os, j, |os|);
    }
  }

  lemma EntryTells(x: Tree, y: Tree)
    requires x.Dict? == y.Dict? && x.List? == y.List? && (x.Leaf? ==> x == y)
    ensures Entry(x) == Entry(y) <==> x == y
  {
  }

  /** So a next test without a config gets the right first cluster exactly if the first override is
      left as it was read. */
  lemma NextTestWithoutConfig(c: Tree, os: seq<Tree>)
    requires |os| > 0 && os[0].Dict?
    ensures var nothing := Dict(map[]);
            Entry(Folded(nothing, LeftOvers(c, os, 1))) == Entry(Folded(nothing, os[..1])) <==> Left(c, os, 0) == os[0]
  {
    var nothing := Dict(map[]);
    NextTestExactly(c, nothing, os, 0);
    LeftKeepsKind(c, os, 0, |os|);
    assert os[..0] == [];
    OverNothing(Left(c, os, 0), os[0]);
  }

  lemma OverNothing(x: Tree, y: Tree)
    requires x.Dict? && y.Dict?
    ensures SameOver(Dict(map[]), x, y) <==> x == y
  {
    SameOverExactly(Dict(map[]), x, y);
    assert Merge(Dict(map[]), x).entries == x.entries && Merge(Dict(map[]), y).entries == y.entries;
  }

  /** It goes wrong after two overrides with one dict or list each under the same key, which
      the first test's config lacks, unless the second adds nothing to the first. */
  lemma NextTestWrong(c: Tree, k: string, x: Tree, y: Tree)
    requires c.Dict? && k !in c.entries && Mergeable(x, y) && Merge(x, y) != x
    ensures var nothing, os := Dict(map[]), [Dict(map[k := x]), Dict(map[k := y])];
            Entry(Folded(nothing, LeftOvers(c, os, 1))) != Entry(Folded(nothing, os[..1]))
  {
    WrittenThroughTheConfig(c, k, x, y);
    NextTestWithoutConfig(c, [Dict(map[k := x]), Dict(map[k := y])]);
    assert map[k := x][k] != map[k := Merge(x, y)][k];
  }

  lemma {:induction false} LeftKeepsKind(c: Tree, os: seq<Tree>, j: nat, i: nat)
    requires j < i <= |os|
    ensures var holds := After(c, os, j, i).holds; holds.Dict? == os[j].Dict? && holds.List? == os[j].List?
    decreases i
  {
    if i > j + 1 { LeftKeepsKind(c, os, j, i - 1); }
  }
}
