/** process_override on values (init_suite.py): what tests and cluster configs should come to. */
module OverrideValues {
  import opened Basics
  import opened Options
  import opened MergeTrees

  // ----- the configs of clusters -------------------------------------------

  /** merge_dicts called for its effect on the left object: the result is not used. */
  function Effect(a: Tree, b: Tree): Tree { if Mergeable(a, b) then Merge(a, b) else a }

  function Folded(config: Tree, overrides: seq<Tree>): Tree {
    if overrides == [] then config
    else Effect(Folded(config, overrides[..|overrides| - 1]), overrides[|overrides| - 1])
  }

  lemma {:induction false} FoldedKeepsKind(config: Tree, overrides: seq<Tree>)
    ensures Folded(config, overrides).Dict? == config.Dict? && Folded(config, overrides).List? == config.List?
    ensures config.Leaf? ==> Folded(config, overrides) == config
  {
    if overrides != [] { FoldedKeepsKind(config, overrides[..|overrides| - 1]); }
  }

  /** The override has nothing to say about what a dict holds at this path. */
  predicate LeavesAlone(override: Tree, path: seq<string>) { override.Dict? ==> Walk(override, path).Absent? }

  /** Of the overrides with a scalar at a path the last one wins, and what none of them mentions
      stays as the config has it. */
  lemma {:induction false} LastWins(config: Tree, overrides: seq<Tree>, path: seq<string>, i: nat)
    requires config.Dict? && path != [] && i <= |overrides|
    requires forall j :: i <= j < |overrides| ==> LeavesAlone(overrides[j], path)
    requires i > 0 ==> Get(overrides[i - 1], path).Some? && Get(overrides[i - 1], path).value.Leaf?
    ensures Get(Folded(config, overrides), path) == Get(if i > 0 then overrides[i - 1] else config, path)
  {
    if overrides != [] {
      var n := |overrides| - 1;
      var before, last := Folded(config, overrides[..n]), overrides[n];
      FoldedKeepsKind(config, overrides[..n]);
      MergeAtPath(before, last, path);
      if i <= n { LastWins(config, overrides[..n], path, i); }
    }
  }

  /** Python's truth; the scalar 0 stands for null, false, zero and the empty string. */
  predicate Truthy(t: Tree): (r: bool)
    ensures !r <==> t in {Leaf(0), List([]), Dict(map[])}
  {
    match t case Leaf(v) => v != 0 case List(items) => items != [] case Dict(entries) => entries != map[]
  }

  /** The clusters of one test: a later cluster replaces an earlier one of its name. */
  function Made(config: Tree, names: seq<string>, overrides: seq<Tree>): map<string, Option<Tree>>
    requires |names| == |overrides|
  {
    if names == [] then map[]
    else
      var n := |names| - 1;
      var config' := Folded(config, overrides);
      Made(config, names[..n], overrides[..n])[names[n] := if Truthy(config') then Some(config') else None]
  }

  /** With distinct names, the i-th cluster gets the fold of the config with overrides 0..i. */
  lemma {:induction false} MadeIsFold(config: Tree, names: seq<string>, overrides: seq<Tree>, i: nat)
    requires |names| == |overrides| && i < |names|
    requires forall p, q :: 0 <= p < q < |names| ==> names[p] != names[q]
    ensures names[i] in Made(config, names, overrides)
    ensures var upTo := Folded(config, overrides[..i + 1]);
            Made(config, names, overrides)[names[i]] == if Truthy(upTo) then Some(upTo) else None
  {
    var n := |names| - 1;
    if i < n {
      MadeIsFold(config, names[..n], overrides[..n], i);
      assert overrides[..n][..i + 1] == overrides[..i + 1];
    } else {
      assert overrides[..i + 1] == overrides;
    }
  }

  // ----- the overrides of tests --------------------------------------------

  /** Python indexing of tests[index - 1]: index 0 and below count from the end. */
  function Position(index: Option<int>, n: nat): (p: Option<nat>)
    ensures var i := if index.Some? then index.value else 1;
            && (p.Some? <==> 0 < n + i && i <= n)
            && (p.Some? && i > 0 ==> p.value + 1 == i)
            && (p.Some? && i <= 0 ==> n - p.value == 1 - i)
  {
    var i := (match index case Some(v) => v case None => 1) - 1;
    if 0 <= i < n then Some(i) else if i < 0 <= n + i then Some(n + i) else None
  }

  /** The tests after all overrides; none when an index is out of range. */
  function Overridden(tests: seq<Tree>, at: seq<Option<int>>, bodies: seq<Tree>): (r: Option<seq<Tree>>)
    requires |at| == |bodies|
    ensures r.Some? ==> |r.value| == |tests|
  {
    if at == [] then Some(tests)
    else
      var n := |at| - 1;
      var sofar := Overridden(tests, at[..n], bodies[..n]);
      var p := Position(at[n], |tests|);
      if sofar.None? || p.None? then None
      else Some(sofar.value[p.value := Effect(sofar.value[p.value], bodies[n])])
  }

  /** The override bodies addressed to one test, in order. */
  function Addressed(at: seq<Option<int>>, bodies: seq<Tree>, n: nat, p: nat): seq<Tree>
    requires |at| == |bodies|
  {
    if at == [] then []
    else
      var k := |at| - 1;
      Addressed(at[..k], bodies[..k], n, p) + if Position(at[k], n) == Some(p) then [bodies[k]] else []
  }

  /** They are those whose index means the test. */
  lemma {:induction false} AddressedExactly(at: seq<Option<int>>, bodies: seq<Tree>, n: nat, p: nat)
    returns (ks: seq<nat>)
    requires |at| == |bodies|
    ensures Picks(bodies, ks, Addressed(at, bodies, n, p))
    ensures forall k: nat :: k < |at| ==> (k in ks <==> Position(at[k], n) == Some(p))
  {
    ks := [];
    if at != [] {
      var k := |at| - 1;
      ks := AddressedExactly(at[..k], bodies[..k], n, p);
      assert bodies == bodies[..k] + [bodies[k]];
      PicksMore(bodies[..k], ks, Addressed(at[..k], bodies[..k], n, p), bodies[k]);
      if Position(at[k], n) == Some(p) { ks := ks + [k]; }
    }
  }

  /** Each test is folded with the bodies addressed to it; the loop raises exactly when
      an index is out of range. */
  lemma {:induction false} OverriddenIsFold(tests: seq<Tree>, at: seq<Option<int>>, bodies: seq<Tree>)
    requires |at| == |bodies|
    ensures var r := Overridden(tests, at, bodies);
            && (r.Some? <==> forall k :: 0 <= k < |at| ==> Position(at[k], |tests|).Some?)
            && (r.Some? ==> forall p :: 0 <= p < |tests| ==>
                              r.value[p] == Folded(tests[p], Addressed(at, bodies, |tests|, p)))
  {
    if at != [] {
      var k := |at| - 1;
      OverriddenIsFold(tests, at[..k], bodies[..k]);
      if Overridden(tests, at, bodies).Some? {
        forall p | 0 <= p < |tests|
          ensures Overridden(tests, at, bodies).value[p] == Folded(tests[p], Addressed(at, bodies, |tests|, p))
        {
          var earlier := Addressed(at[..k], bodies[..k], |tests|, p);
          assert (earlier + [bodies[k]])[..|earlier|] == earlier && earlier + [] == earlier;
          if Position(at[k], |tests|) == Some(p) {
            assert Addressed(at, bodies, |tests|, p) == earlier + [bodies[k]];
          }
        }
      }
    }
  }
}
