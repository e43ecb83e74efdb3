/** process_override (init_suite.py): the overrides of tests, merged into the suite's own dicts. */
module ProcessOverride {
  import opened Options
  import opened MergeTrees
  import opened OverrideValues
  import opened MergeHeap
  import opened DeepCopies

  ghost function Trees(ss: seq<Shape>): (trees: seq<Tree>) {
    seq(|ss|, i requires 0 <= i < |ss| => Erase(ss[i]))
  }

  ghost function Feet(ss: seq<Shape>): set<object> { set i, o | 0 <= i < |ss| && o in Foot(ss[i]) :: o }

  ghost predicate Disjoint(ss: seq<Shape>) { forall i, j :: 0 <= i < j < |ss| ==> Foot(ss[i]) !! Foot(ss[j]) }

  ghost function Rest(ss: seq<Shape>, i: nat): set<Shape> { set j | i <= j < |ss| :: ss[j] }

  lemma {:induction false} InPlaceFoot(a: Shape, b: Shape)
    requires Sep(a) && Sep(b) && Foot(a) !! Foot(b)
    ensures Sep(InPlace(a, b)) && Top(InPlace(a, b)) == Top(a)
    ensures Foot(InPlace(a, b)) <= Foot(a) + Foot(b)
    ensures Erase(InPlace(a, b)) == Effect(Erase(a), Erase(b))
  {
    MergeSep(a, b);
    MergeFoot(a, b);
    EraseMerge(a, b);
  }

  /** merge_dicts with its result thrown away. */
  method MergeInto(target: Val, addition: Val, ghost a: Shape, ghost b: Shape, ghost kept: set<Shape>)
    requires Held(target, a) && Held(addition, b) && Foot(a) !! Foot(b)
    requires forall t <- kept :: InHeap(t) && Foot(t) !! Foot(a)
    modifies Foot(a)
    ensures Held(target, InPlace(a, b)) && InHeap(b)
    ensures forall t <- kept :: InHeap(t)
  {
    InPlaceFoot(a, b);
    WritesInFoot(a, b);
    var _ := MergeKeeping(target, addition, a, b, kept);
  }

  /** An entry of the override file's test list: its index was popped, 1 when missing. */
  datatype TestOverride = TestOverride(index: Option<int>, body: Val)

  function Indices(overrides: seq<TestOverride>): (at: seq<Option<int>>) {
    seq(|overrides|, i requires 0 <= i < |overrides| => overrides[i].index)
  }

  /** The tests' own dicts, each the root of its shape, none sharing anything. */
  ghost predicate Tests(tests: seq<Val>, ts: seq<Shape>) {
    && |tests| == |ts| && Disjoint(ts)
    && forall i :: 0 <= i < |ts| ==> tests[i] == Top(ts[i]) && Sep(ts[i])
  }

  ghost predicate TestOverrides(overrides: seq<TestOverride>, os: seq<Shape>) {
    && |overrides| == |os| && Disjoint(os)
    && forall i :: 0 <= i < |os| ==> overrides[i].body == Top(os[i]) && Sep(os[i])
  }

  ghost function Others(ss: seq<Shape>, p: nat): set<Shape> { set q | 0 <= q < |ss| && q != p :: ss[q] }

  lemma OthersApart(cur: seq<Shape>, os: seq<Shape>, i: nat, p: nat)
    requires p < |cur| && i < |os| && Disjoint(cur) && Disjoint(os)
    requires forall j :: i <= j < |os| ==> Foot(os[j]) !! Feet(cur)
    ensures Foot(cur[p]) <= Feet(cur) && Foot(os[i]) !! Foot(cur[p])
    ensures forall t <- Others(cur, p) + Rest(os, i + 1) :: Foot(t) !! Foot(cur[p])
    ensures Others(cur, p) <= Rest(cur, 0) && cur[p] in Rest(cur, 0)
    ensures os[i] in Rest(os, i) && Rest(os, i + 1) <= Rest(os, i)
  {
  }

  lemma TestsStep(tests: seq<Val>, cur: seq<Shape>, os: seq<Shape>, i: nat, p: nat)
    requires Tests(tests, cur) && p < |cur| && i < |os| && Disjoint(os) && Sep(os[i])
    requires forall j :: i <= j < |os| ==> Foot(os[j]) !! Feet(cur)
    ensures var cur' := cur[p := InPlace(cur[p], os[i])];
            && Tests(tests, cur') && Feet(cur') <= Feet(cur) + Foot(os[i])
            && (forall j :: i < j < |os| ==> Foot(os[j]) !! Feet(cur'))
            && Trees(cur') == Trees(cur)[p := Effect(Erase(cur[p]), Erase(os[i]))]
            && Rest(cur', 0) <= Others(cur, p) + {InPlace(cur[p], os[i])}
  {
    assert Foot(cur[p]) <= Feet(cur);
    InPlaceFoot(cur[p], os[i]);
  }

  lemma OverriddenStep(tests: seq<Tree>, at: seq<Option<int>>, bodies: seq<Tree>, i: nat)
    requires |at| == |bodies| && i < |at|
    requires Overridden(tests, at[..i], bodies[..i]).Some?
    ensures var sofar, p := Overridden(tests, at[..i], bodies[..i]).value, Position(at[i], |tests|);
            && (p.None? ==> Overridden(tests, at, bodies).None?)
            && (p.Some? ==> Overridden(tests, at[..i + 1], bodies[..i + 1]) ==
                            Some(sofar[p.value := Effect(sofar[p.value], bodies[i])]))
  {
    OverriddenIsFold(tests, at, bodies);
    assert at[..i + 1][..i] == at[..i] && bodies[..i + 1][..i] == bodies[..i];
  }

  /** The loop over the override file's tests, in place on the suite's own dicts. */
  method OverrideTests(tests: seq<Val>, overrides: seq<TestOverride>, ghost ts: seq<Shape>, ghost os: seq<Shape>)
    returns (ok: bool, ghost cur: seq<Shape>)
    requires Tests(tests, ts) && TestOverrides(overrides, os) && Feet(ts) !! Feet(os)
    requires (forall s <- Rest(ts, 0) :: InHeap(s)) && forall s <- Rest(os, 0) :: InHeap(s)
    modifies Feet(ts) + Feet(os)
    ensures ok <==> Overridden(Trees(ts), Indices(overrides), Trees(os)).Some?
    ensures ok ==> Tests(tests, cur) && forall s <- Rest(cur, 0) :: InHeap(s)
    ensures ok ==> Some(Trees(cur)) == Overridden(Trees(ts), Indices(overrides), Trees(os))
    ensures Feet(cur) <= Feet(ts) + Feet(os)
  {
    cur := ts;
    ghost var at, bodies, area := Indices(overrides), Trees(os), Feet(ts) + Feet(os);
    assert forall i :: 0 <= i < |os| ==> Foot(os[i]) <= area;
    for i := 0 to |overrides|
      invariant Tests(tests, cur) && Feet(cur) <= area
      invariant forall j :: i <= j < |os| ==> Foot(os[j]) !! Feet(cur)
      invariant (forall s <- Rest(cur, 0) :: InHeap(s)) && forall s <- Rest(os, i) :: InHeap(s)
      invariant Some(Trees(cur)) == Overridden(Trees(ts), at[..i], bodies[..i])
    {
      var position := Position(overrides[i].index, |tests|);
      OverriddenStep(Trees(ts), at, bodies, i);
      if position.None? { return false, cur; }
      var p := position.value;
      OthersApart(cur, os, i, p);
      TestsStep(tests, cur, os, i, p);
      MergeInto(tests[p], overrides[i].body, cur[p], os[i], Others(cur, p) + Rest(os, i + 1));
      cur := cur[p := InPlace(cur[p], os[i])];
    }
    assert at[..|overrides|] == at && bodies[..|overrides|] == bodies;
    return true, cur;
  }
}
