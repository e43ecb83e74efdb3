/** What a cluster override still holds after later overrides were merged into the config that
    it was stored in (init_suite.py): on values. */
module Sharing {
  import opened MergeTrees
  import opened OverrideValues

  // ----- which parts are shared --------------------------------------------

  /** The parts of an override that the config refers to: all of it, or some of its entries.
      An entry with nothing shared is left out. */
  datatype Tie = Same | Kids(ties: map<string, Tie>)

  const NOTHING := Kids(map[])

  /** After merging b into a, where the result is stored: b itself if it replaces a, and otherwise
      the parts of b that were stored. Scalars are not shared. */
  function TieOf(a: Tree, b: Tree): Tie
    decreases b, 1
  {
    if b.Leaf? then NOTHING
    else if !Mergeable(a, b) then Same
    else if b.List? then NOTHING
    else Kids(map k | k in b.entries && EntryTie(a, b, k) != NOTHING :: EntryTie(a, b, k))
  }

  function EntryTie(a: Tree, b: Tree, k: string): Tie
    requires a.Dict? && b.Dict? && k in b.entries
    decreases b, 0
  {
    if k in a.entries then TieOf(a.entries[k], b.entries[k])
    else if b.entries[k].Leaf? then NOTHING else Same
  }

  /** What the override holds after a merge of d into the config. */
  function Remains(tie: Tie, s: Tree, d: Tree): Tree {
    match tie
    case Same => Effect(s, d)
    case Kids(ties) =>
      if s.Dict? && d.Dict? then
        Dict(map k | k in s.entries ::
               if k in ties && k in d.entries then Remains(ties[k], s.entries[k], d.entries[k]) else s.entries[k])
      else s
  }

  /** Which parts are shared after that: what d replaced in the config no longer is. */
  function Next(tie: Tie, s: Tree, d: Tree): Tie
    decreases tie, 1
  {
    match tie
    case Same => if Mergeable(s, d) then Same else NOTHING
    case Kids(ties) =>
      if s.Dict? && d.Dict? then
        Kids(map k | k in ties && k in s.entries && EntryNext(tie, s, d, k) != NOTHING :: EntryNext(tie, s, d, k))
      else NOTHING
  }

  function EntryNext(tie: Tie, s: Tree, d: Tree, k: string): Tie
    requires tie.Kids? && s.Dict? && d.Dict? && k in tie.ties && k in s.entries
    decreases tie, 0
  {
    if k in d.entries then Next(tie.ties[k], s.entries[k], d.entries[k]) else tie.ties[k]
  }

  // ----- over the cluster loop ---------------------------------------------

  datatype State = State(tie: Tie, holds: Tree)

  /** Override j after the turns of clusters j, ..., i - 1. An override that is not of the config's
      kind is merged without effect. */
  function After(c: Tree, os: seq<Tree>, j: nat, i: nat): State
    requires j < i <= |os|
  {
    if i == j + 1 then
      State(if Mergeable(c, os[j]) then TieOf(Folded(c, os[..j]), os[j]) else NOTHING, os[j])
    else
      var was, d := After(c, os, j, i - 1), os[i - 1];
      if Mergeable(c, d) then State(Next(was.tie, was.holds, d), Remains(was.tie, was.holds, d)) else was
  }

  /** What override j holds at the end of the test. */
  function Left(c: Tree, os: seq<Tree>, j: nat): Tree
    requires j < |os|
  {
    After(c, os, j, |os|).holds
  }

  // ----- when it is as read ------------------------------------------------

  /** Merging d over x adds nothing to x. */
  predicate AddsNothing(x: Tree, d: Tree) {
    if x.List? && d.List? then d.items == []
    else if x.Dict? && d.Dict? then
      forall k <- d.entries.Keys ::
        k in x.entries
        && if Mergeable(x.entries[k], d.entries[k]) then AddsNothing(x.entries[k], d.entries[k])
           else x.entries[k] == d.entries[k]
    else true
  }

  lemma {:induction false} AddsNothingExactly(x: Tree, d: Tree)
    ensures Effect(x, d) == x <==> AddsNothing(x, d)
  {
    if x.Dict? && d.Dict? {
      var m := Merge(x, d).entries;
      forall k | k in d.entries && k in x.entries
        ensures m[k] == x.entries[k] <==>
                if Mergeable(x.entries[k], d.entries[k]) then AddsNothing(x.entries[k], d.entries[k])
                else x.entries[k] == d.entries[k]
      {
        AddsNothingExactly(x.entries[k], d.entries[k]);
        assert m[k] == Merge(x.entries[k], d.entries[k]);
      }
      if Effect(x, d) == x {
        forall k | k in d.entries.Keys ensures k in x.entries { assert k in m; }
      }
      if AddsNothing(x, d) { assert m == x.entries; }
    } else if x.List? && d.List? && x.items + d.items == x.items {
      assert |d.items| == 0;
    }
  }

  /** Wherever d meets a shared part, it adds nothing to it. */
  predicate Untouched(tie: Tie, s: Tree, d: Tree) {
    match tie
    case Same => AddsNothing(s, d)
    case Kids(ties) =>
      s.Dict? && d.Dict? ==>
        forall k <- ties.Keys :: k in s.entries && k in d.entries ==> Untouched(ties[k], s.entries[k], d.entries[k])
  }

  lemma {:induction false} UntouchedExactly(tie: Tie, s: Tree, d: Tree)
    ensures Remains(tie, s, d) == s <==> Untouched(tie, s, d)
  {
    if tie.Same? {
      AddsNothingExactly(s, d);
    } else if s.Dict? && d.Dict? {
      var ties, h := tie.ties, Remains(tie, s, d).entries;
      forall k | k in ties && k in s.entries && k in d.entries
        ensures h[k] == s.entries[k] <==> Untouched(ties[k], s.entries[k], d.entries[k])
      {
        UntouchedExactly(ties[k], s.entries[k], d.entries[k]);
      }
      if Untouched(tie, s, d) {
        assert h == s.entries;
      } else {
        var k :| k in ties.Keys && k in s.entries && k in d.entries && !Untouched(ties[k], s.entries[k], d.entries[k]);
        assert h[k] != s.entries[k];
      }
    }
  }

  /** In none of the turns j + 1, ..., i - 1 something was added to a shared part of override j. */
  predicate Undisturbed(c: Tree, os: seq<Tree>, j: nat, i: nat)
    requires j < i <= |os|
  {
    i == j + 1
    || (Undisturbed(c, os, j, i - 1)
        && (Mergeable(c, os[i - 1]) ==> Untouched(After(c, os, j, i - 1).tie, os[j], os[i - 1])))
  }

  predicate AsRead(c: Tree, os: seq<Tree>, j: nat, t: nat)
    requires j < t <= |os|
  {
    After(c, os, j, t).holds == os[j]
  }

  /** Override j is as read after each of its turns if and only if no later override merges
      anything that is not there yet into a part of it that was stored by reference. */
  lemma {:induction false} AsReadExactly(c: Tree, os: seq<Tree>, j: nat, i: nat)
    requires j < i <= |os|
    ensures (forall t: nat :: j < t <= i ==> AsRead(c, os, j, t)) <==> Undisturbed(c, os, j, i)
    decreases i
  {
    if i > j + 1 {
      AsReadExactly(c, os, j, i - 1);
      assert AsRead(c, os, j, i - 1) || !AsRead(c, os, j, i - 1);
      AsReadStep(c, os, j, i);
    }
  }

  lemma AsReadStep(c: Tree, os: seq<Tree>, j: nat, i: nat)
    requires j + 1 < i <= |os|
    ensures AsRead(c, os, j, i - 1) ==>
              (AsRead(c, os, j, i) <==> (Mergeable(c, os[i - 1]) ==>
                  Untouched(After(c, os, j, i - 1).tie, os[j], os[i - 1])))
  {
    UntouchedExactly(After(c, os, j, i - 1).tie, os[j], os[i - 1]);
  }

  /** All overrides are as read after every turn. */
  predicate AllUndisturbed(c: Tree, os: seq<Tree>) {
    forall j :: 0 <= j < |os| ==> Undisturbed(c, os, j, |os|)
  }

  predicate AlwaysAsRead(c: Tree, os: seq<Tree>) {
    forall j: nat, i: nat | j < i <= |os| :: AsRead(c, os, j, i)
  }

  lemma AlwaysAsReadExactly(c: Tree, os: seq<Tree>)
    ensures AlwaysAsRead(c, os) <==> AllUndisturbed(c, os)
  {
    forall j: nat | j < |os|
      ensures (forall i: nat | j < i <= |os| :: AsRead(c, os, j, i)) <==> Undisturbed(c, os, j, |os|)
    {
      AsReadExactly(c, os, j, |os|);
    }
    if AllUndisturbed(c, os) {
      forall j: nat, i: nat | j < i <= |os| ensures AsRead(c, os, j, i) {
        assert Undisturbed(c, os, j, |os|);
      }
    }
  }

  /** The same for all tests: every test finds and leaves the overrides as read, after every
      turn, if and only if nothing is added to a shared part with any of their configs. */
  lemma EveryTestExactly(cs: seq<Tree>, os: seq<Tree>)
    ensures (forall t: nat | t < |cs| :: AlwaysAsRead(cs[t], os)) <==>
            forall t: nat | t < |cs| :: AllUndisturbed(cs[t], os)
  {
    forall t: nat | t < |cs| ensures AlwaysAsRead(cs[t], os) <==> AllUndisturbed(cs[t], os) {
      AlwaysAsReadExactly(cs[t], os);
    }
  }

  /** For two overrides: the first is as read at the end exactly if the second adds nothing to
      what is shared of it. */
  lemma TwoOverridesExactly(c: Tree, b: Tree, d: Tree)
    ensures Left(c, [b, d], 0) == b <==>
            !(Mergeable(c, b) && Mergeable(c, d)) || Untouched(TieOf(c, b), b, d)
  {
    LeftOfTwo(c, b, d);
    UntouchedExactly(TieOf(c, b), b, d);
    UntouchedExactly(NOTHING, b, d);
  }

  lemma LeftOfTwo(c: Tree, b: Tree, d: Tree)
    ensures Left(c, [b, d], 0) ==
            if Mergeable(c, d) then Remains(if Mergeable(c, b) then TieOf(c, b) else NOTHING, b, d) else b
  {
    assert [b, d][..0] == [];
    assert After(c, [b, d], 0, 1) == State(if Mergeable(c, b) then TieOf(c, b) else NOTHING, b);
  }

  // ----- when a change of an override shows --------------------------------

  /** Merged over a, x leaves a as it is. */
  predicate Unseen(a: Tree, x: Tree) { if Mergeable(a, x) then AddsNothing(a, x) else x == a }

  /** Merged over a, x and y come to the same. */
  predicate SameOver(a: Tree, x: Tree, y: Tree)
    decreases a
  {
    if !Mergeable(a, x) || !Mergeable(a, y) || a.List? then x == y
    else forall k <- x.entries.Keys + y.entries.Keys :: SameAt(a, x, y, k)
  }

  predicate SameAt(a: Tree, x: Tree, y: Tree, k: string)
    requires a.Dict? && x.Dict? && y.Dict? && (k in x.entries || k in y.entries)
    decreases a, 0
  {
    if k in x.entries && k in y.entries then
      if k in a.entries then SameOver(a.entries[k], x.entries[k], y.entries[k]) else x.entries[k] == y.entries[k]
    else k in a.entries && Unseen(a.entries[k], if k in x.entries then x.entries[k] else y.entries[k])
  }

  lemma UnseenExactly(a: Tree, x: Tree)
    ensures Merge(a, x) == a <==> Unseen(a, x)
  {
    AddsNothingExactly(a, x);
  }

  lemma {:induction false} SameOverExactly(a: Tree, x: Tree, y: Tree)
    ensures Merge(a, x) == Merge(a, y) <==> SameOver(a, x, y)
    decreases a, 1
  {
    if a.Dict? && x.Dict? && y.Dict? {
      var mx, my, keys := Merge(a, x).entries, Merge(a, y).entries, x.entries.Keys + y.entries.Keys;
      forall k | k in keys ensures (k in mx && k in my && mx[k] == my[k]) <==> SameAt(a, x, y, k) {
        SameAtExactly(a, x, y, k);
      }
      if SameOver(a, x, y) {
        forall k | k in mx || k in my ensures k in mx && k in my && mx[k] == my[k] {
          if k in keys { assert SameAt(a, x, y, k); }
        }
        assert mx == my;
      }
      if mx == my {
        forall k | k in keys ensures SameAt(a, x, y, k) { assert k in mx || k in my; }
      }
    } else if a.List? && x.List? && y.List? {
      assert (a.items + x.items)[|a.items|..] == x.items && (a.items + y.items)[|a.items|..] == y.items;
    }
  }

  lemma {:induction false} SameAtExactly(a: Tree, x: Tree, y: Tree, k: string)
    requires a.Dict? && x.Dict? && y.Dict? && (k in x.entries || k in y.entries)
    ensures var mx, my := Merge(a, x).entries, Merge(a, y).entries;
            (k in mx && k in my && mx[k] == my[k]) <==> SameAt(a, x, y, k)
    decreases a, 0
  {
    if k in a.entries {
      if k in x.entries && k in y.entries {
        SameOverExactly(a.entries[k], x.entries[k], y.entries[k]);
      } else {
        UnseenExactly(a.entries[k], if k in x.entries then x.entries[k] else y.entries[k]);
      }
    }
  }

  // ----- special cases -----------------------------------------------------

  predicate FlatTree(t: Tree) { t.Leaf? || (t.Dict? && forall k <- t.entries.Keys :: t.entries[k].Leaf?) }

  /** Of a flat override nothing is shared, so it stays as read. */
  lemma {:induction false} FlatUndisturbed(c: Tree, os: seq<Tree>, j: nat, i: nat)
    requires j < i <= |os| && FlatTree(os[j])
    ensures After(c, os, j, i) == State(NOTHING, os[j]) && Undisturbed(c, os, j, i)
    decreases i
  {
    if i == j + 1 {
      FoldedKeepsKind(c, os[..j]);
      if Mergeable(c, os[j]) { FlatTie(Folded(c, os[..j]), os[j]); }
    } else {
      FlatUndisturbed(c, os, j, i - 1);
      UntouchedExactly(NOTHING, os[j], os[i - 1]);
      assert Next(NOTHING, os[j], os[i - 1]) == NOTHING;
    }
  }

  lemma FlatTie(a: Tree, b: Tree)
    requires FlatTree(b) && (b.Dict? ==> a.Dict?)
    ensures TieOf(a, b) == NOTHING
  {
    if b.Dict? { assert forall k <- b.entries.Keys :: EntryTie(a, b, k) == NOTHING; }
  }

  /** Two overrides with one dict or list each, under the same key, which the config lacks: the
      first is left with both merged. */
  lemma WrittenThroughTheConfig(c: Tree, k: string, x: Tree, y: Tree)
    requires c.Dict? && k !in c.entries && Mergeable(x, y)
    ensures Left(c, [Dict(map[k := x]), Dict(map[k := y])], 0) == Dict(map[k := Merge(x, y)])
  {
    var b, d := Dict(map[k := x]), Dict(map[k := y]);
    OneKeyTie(c, k, x);
    OneKeyRemains(k, x, y);
    LeftOfTwo(c, b, d);
  }

  lemma OneKeyTie(c: Tree, k: string, x: Tree)
    requires c.Dict? && k !in c.entries && !x.Leaf?
    ensures TieOf(c, Dict(map[k := x])) == Kids(map[k := Same])
  {
    assert EntryTie(c, Dict(map[k := x]), k) == Same;
    assert TieOf(c, Dict(map[k := x])).ties == map[k := Same];
  }

  lemma OneKeyRemains(k: string, x: Tree, y: Tree)
    requires Mergeable(x, y)
    ensures Remains(Kids(map[k := Same]), Dict(map[k := x]), Dict(map[k := y])) == Dict(map[k := Merge(x, y)])
  {
    var t := Kids(map[k := Same]);
    assert t.ties[k] == Same;
    assert Remains(t, Dict(map[k := x]), Dict(map[k := y])).entries == map[k := Merge(x, y)];
  }

  /** The end alone does not tell: what the second override changes in the first, the third can
      put back. */
  lemma PutBack(k: string, m: string)
    ensures var x, y := Dict(map[k := Dict(map[m := Leaf(1)])]), Dict(map[k := Dict(map[m := Leaf(2)])]);
            Left(Dict(map[]), [x, y, x], 0) == x && !Undisturbed(Dict(map[]), [x, y, x], 0, 3)
  {
    var c, x, y := Dict(map[]), Dict(map[k := Dict(map[m := Leaf(1)])]), Dict(map[k := Dict(map[m := Leaf(2)])]);
    var os := [x, y, x];
    assert os[..0] == [];
    assert TieOf(c, x).ties == map[k := Same] by { assert EntryTie(c, x, k) == Same; }
    var t := Kids(map[k := Same]);
    assert After(c, os, 0, 1) == State(t, x);
    assert Next(t, x, y).ties == map[k := Same] by { assert EntryNext(t, x, y, k) == Same; }
    MergeOne(m, 1, 2);
    MergeOne(m, 2, 1);
    assert Remains(t, x, y).entries == y.entries && Remains(t, y, x).entries == x.entries;
    assert After(c, os, 0, 2) == State(t, y);
    assert Left(c, os, 0) == Remains(t, y, x);
    UntouchedExactly(t, x, y);
    assert x.entries[k].entries[m] != y.entries[k].entries[m];
  }

  lemma MergeOne(m: string, v: int, w: int)
    ensures Merge(Dict(map[m := Leaf(v)]), Dict(map[m := Leaf(w)])) == Dict(map[m := Leaf(w)])
  {
    assert Merge(Dict(map[m := Leaf(v)]), Dict(map[m := Leaf(w)])).entries == map[m := Leaf(w)];
  }
}
