/** Merging of nested mappings as values (init_suite.py, utility/odf_defaults.py). */
module MergeTrees {
  import opened Options

  /** A loaded YAML value. */
  datatype Tree = Leaf(value: int) | List(items: seq<Tree>) | Dict(entries: map<string, Tree>)

  /** Two dicts or two lists: the pairs that are merged rather than replaced. */
  predicate Mergeable(a: Tree, b: Tree) { (a.List? && b.List?) || (a.Dict? && b.Dict?) }

  /** What merge_dicts returns. */
  function Merge(a: Tree, b: Tree): Tree {
    if a.List? && b.List? then List(a.items + b.items)
    else if a.Dict? && b.Dict? then
      Dict(map k | k in a.entries.Keys + b.entries.Keys ::
             if k !in b.entries then a.entries[k]
             else if k !in a.entries then b.entries[k]
             else Merge(a.entries[k], b.entries[k]))
    else b
  }

  // ----- the path law ------------------------------------------------------

  /** Following dict keys: the value there, a dict without the key, or a non-dict on the way. */
  datatype Walked = Found(tree: Tree) | Absent | Blocked

  function Walk(t: Tree, path: seq<string>): Walked {
    if path == [] then Found(t)
    else if !t.Dict? then Blocked
    else if path[0] !in t.entries then Absent
    else Walk(t.entries[path[0]], path[1..])
  }

  function Get(t: Tree, path: seq<string>): Option<Tree> {
    match Walk(t, path) case Found(x) => Some(x) case _ => None
  }

  lemma {:induction false} MergeAtPath(a: Tree, b: Tree, path: seq<string>)
    ensures Get(Merge(a, b), path) ==
            match Walk(b, path)
            case Found(y) => Some(match Get(a, path) case Some(x) => Merge(x, y) case None => y)
            case Absent => Get(a, path)
            case Blocked => None
    decreases path
  {
    if path != [] && a.Dict? && b.Dict? && path[0] in a.entries && path[0] in b.entries {
      MergeAtPath(a.entries[path[0]], b.entries[path[0]], path[1..]);
    }
  }

  /** Where both sides have a value: two lists are joined, the left one first, two dicts have the
      keys of both, and otherwise it is the right one's. */
  predicate Meets(x: Tree, y: Tree, z: Tree) {
    if x.List? && y.List? then z == List(x.items + y.items)
    else if x.Dict? && y.Dict? then z.Dict? && z.entries.Keys == x.entries.Keys + y.entries.Keys
    else z == y
  }

  /** What t holds at a path: what both have meets there, what only the override has is taken from
      it, what the override leaves out stays, and what it overwrites from above is gone. */
  predicate Obeys(a: Tree, b: Tree, t: Tree, path: seq<string>) {
    match Walk(b, path)
    case Found(y) =>
      Get(t, path).Some? && (match Get(a, path)
                             case Some(x) => Meets(x, y, Get(t, path).value)
                             case None => Get(t, path).value == y)
    case Absent => Get(t, path) == Get(a, path)
    case Blocked => Get(t, path).None?
  }

  lemma PathLaw(a: Tree, b: Tree, path: seq<string>)
    ensures Obeys(a, b, Merge(a, b), path)
  {
    MergeAtPath(a, b, path);
  }

  lemma OneKey(t: Tree, k: string)
    requires t.Dict?
    ensures Walk(t, [k]) == if k in t.entries then Found(t.entries[k]) else Absent
  {
    assert [k][1..] == [];
  }

  /** And no other tree obeys this law at all paths. */
  lemma {:induction false} OnlyMergeObeys(a: Tree, b: Tree, t: Tree)
    requires forall path :: Obeys(a, b, t, path)
    ensures t == Merge(a, b)
  {
    assert Obeys(a, b, t, []);
    if a.Dict? && b.Dict? {
      forall k | k in t.entries ensures t.entries[k] == Merge(a, b).entries[k] {
        assert Obeys(a, b, t, [k]);
        OneKey(a, k);
        OneKey(b, k);
        OneKey(t, k);
        if k in a.entries && k in b.entries {
          forall path ensures Obeys(a.entries[k], b.entries[k], t.entries[k], path) {
            assert Obeys(a, b, t, [k] + path) && ([k] + path)[1..] == path;
          }
          OnlyMergeObeys(a.entries[k], b.entries[k], t.entries[k]);
        }
      }
      assert t.entries == Merge(a, b).entries;
    }
  }

  // ----- associativity -----------------------------------------------------

  /** Merging b over a leaves nothing of a. */
  predicate Absorbed(a: Tree, b: Tree) {
    if a.List? && b.List? then a.items == []
    else if a.Dict? && b.Dict? then
      forall k <- a.entries.Keys :: k in b.entries && Absorbed(a.entries[k], b.entries[k])
    else true
  }

  lemma {:induction false} AbsorbedExactly(a: Tree, b: Tree)
    ensures Merge(a, b) == b <==> Absorbed(a, b)
  {
    if a.Dict? && b.Dict? {
      var m := Merge(a, b).entries;
      forall k | k in a.entries && k in b.entries
        ensures m[k] == b.entries[k] <==> Absorbed(a.entries[k], b.entries[k])
      {
        AbsorbedExactly(a.entries[k], b.entries[k]);
      }
      if Merge(a, b) == b {
        forall k | k in a.entries ensures k in b.entries && Absorbed(a.entries[k], b.entries[k]) { assert k in m; }
      }
      if Absorbed(a, b) { assert m == b.entries; }
    } else if a.List? && b.List? && a.items + b.items == b.items {
      assert |a.items| == 0;
    }
  }

  /** Where the three meet, b does not hide a from c unless c covers a anyway. */
  predicate NoHiding(a: Tree, b: Tree, c: Tree) {
    if Mergeable(a, c) && !Mergeable(a, b) then Absorbed(a, c)
    else if a.Dict? && b.Dict? && c.Dict? then
      forall k <- a.entries.Keys :: k in b.entries && k in c.entries ==>
                                   NoHiding(a.entries[k], b.entries[k], c.entries[k])
    else true
  }

  /** merge_dicts is associative on exactly these triples. */
  lemma {:induction false} AssociativeExactly(a: Tree, b: Tree, c: Tree)
    ensures Merge(Merge(a, b), c) == Merge(a, Merge(b, c)) <==> NoHiding(a, b, c)
  {
    var l, r := Merge(Merge(a, b), c), Merge(a, Merge(b, c));
    if Mergeable(a, c) && !Mergeable(a, b) {
      assert l == c && r == Merge(a, c);
      AbsorbedExactly(a, c);
    } else if a.Dict? && b.Dict? && c.Dict? {
      assert l.entries.Keys == r.entries.Keys;
      forall k | k in l.entries
        ensures l.entries[k] == r.entries[k] <==>
                (k in a.entries && k in b.entries && k in c.entries ==>
                    NoHiding(a.entries[k], b.entries[k], c.entries[k]))
      {
        if k in a.entries && k in b.entries && k in c.entries {
          AssociativeExactly(a.entries[k], b.entries[k], c.entries[k]);
        }
      }
      if NoHiding(a, b, c) {
        assert l.entries == r.entries;
      } else {
        var k :| k in a.entries.Keys && k in b.entries && k in c.entries &&
            !NoHiding(a.entries[k], b.entries[k], c.entries[k]);
        assert l.entries[k] != r.entries[k];
      }
    }
  }

  /** The kinds agree wherever the paths of the three meet. */
  predicate KindsAgree(a: Tree, b: Tree, c: Tree) {
    && (a.Leaf? <==> b.Leaf?) && (b.Leaf? <==> c.Leaf?) && (a.List? <==> b.List?) && (b.List? <==> c.List?)
    && (a.Dict? ==> forall k <- a.entries.Keys :: k in b.entries && k in c.entries ==>
                                                 KindsAgree(a.entries[k], b.entries[k], c.entries[k]))
  }

  lemma {:induction false} KindsAgreeSuffices(a: Tree, b: Tree, c: Tree)
    requires KindsAgree(a, b, c)
    ensures NoHiding(a, b, c)
  {
    if a.Dict? {
      forall k | k in a.entries.Keys && k in b.entries && k in c.entries
        ensures NoHiding(a.entries[k], b.entries[k], c.entries[k])
      {
        KindsAgreeSuffices(a.entries[k], b.entries[k], c.entries[k]);
      }
    }
  }

  /** Otherwise it need not be: a scalar in the middle wipes out the dict before it. */
  lemma NotAssociative(k: string, m: string)
    requires k != m
    ensures var a, b, c := Dict(map[k := Leaf(1)]), Leaf(0), Dict(map[m := Leaf(2)]);
            Merge(Merge(a, b), c) != Merge(a, Merge(b, c))
  {
    var a, b, c := Dict(map[k := Leaf(1)]), Leaf(0), Dict(map[m := Leaf(2)]);
    assert !Absorbed(a, c) by { assert k in a.entries.Keys && k !in c.entries; }
    AssociativeExactly(a, b, c);
  }

  // ----- the ODF profile under the suite's bootstrap config ----------------

  function OdfSection(was: Option<Tree>, values: Tree): Tree {
    if !values.Dict? then values
    else if was.None? then values
    else if !was.value.Dict? then values
    else Dict(was.value.entries + values.entries)
  }

  function Lookup(m: map<string, Tree>, k: string): Option<Tree> { if k in m then Some(m[k]) else None }

  /** merge_odf_into_bootstrap_config on values: the suite's sections over the profile's. */
  function OdfMerged(profile: map<string, Tree>, suite: map<string, Tree>): map<string, Tree> {
    map s | s in profile.Keys + suite.Keys ::
        if s in suite then OdfSection(Lookup(profile, s), suite[s]) else profile[s]
  }

  /** Section by section: a section of one side only is that side's, and of two the suite's keys
      win over the profile's, unless one of the two is not a dict. */
  lemma OdfLaw(profile: map<string, Tree>, suite: map<string, Tree>, s: string, k: string)
    ensures var m, both := OdfMerged(profile, suite), s in profile && s in suite;
            && (s in m <==> s in profile || s in suite)
            && (s in profile && s !in suite ==> m[s] == profile[s])
            && (s in suite && !(both && profile[s].Dict? && suite[s].Dict?) ==> m[s] == suite[s])
            && (both && profile[s].Dict? && suite[s].Dict? ==>
                  m[s].Dict? && Lookup(m[s].entries, k) ==
                  if k in suite[s].entries then Some(suite[s].entries[k]) else Lookup(profile[s].entries, k))
  {
  }

  /** The section-wise update goes one level deep; nothing deeper may have to be merged. */
  predicate SectionShallow(p: Tree, s: Tree) {
    if p.Dict? && s.Dict? then forall k <- p.entries.Keys :: k in s.entries ==> Absorbed(p.entries[k], s.entries[k])
    else Absorbed(p, s)
  }

  predicate Shallow(profile: map<string, Tree>, suite: map<string, Tree>) {
    forall s <- profile.Keys :: s in suite ==> SectionShallow(profile[s], suite[s])
  }

  lemma SectionExactly(p: Tree, s: Tree)
    ensures OdfSection(Some(p), s) == Merge(p, s) <==> SectionShallow(p, s)
  {
    AbsorbedExactly(p, s);
    if p.Dict? && s.Dict? {
      var m, u := Merge(p, s).entries, p.entries + s.entries;
      assert m.Keys == u.Keys;
      forall k | k in m
        ensures m[k] == u[k] <==> (k in p.entries && k in s.entries ==> Absorbed(p.entries[k], s.entries[k]))
      {
        if k in p.entries && k in s.entries { AbsorbedExactly(p.entries[k], s.entries[k]); }
      }
      if SectionShallow(p, s) {
        assert m == u;
      } else {
        var k :| k in p.entries.Keys && k in s.entries && !Absorbed(p.entries[k], s.entries[k]);
        assert m[k] != u[k];
      }
    }
  }

  /** The ODF merge is merge_dicts(profile, suite) exactly on shallow pairs. */
  lemma OdfExactly(suite: map<string, Tree>, profile: map<string, Tree>)
    ensures OdfMerged(profile, suite) == Merge(Dict(profile), Dict(suite)).entries <==> Shallow(profile, suite)
  {
    var m, merged := Merge(Dict(profile), Dict(suite)).entries, OdfMerged(profile, suite);
    assert m.Keys == merged.Keys;
    forall s | s in profile && s in suite ensures merged[s] == m[s] <==> SectionShallow(profile[s], suite[s]) {
      SectionExactly(profile[s], suite[s]);
    }
    if Shallow(profile, suite) {
      assert m == merged;
    } else {
      var s :| s in profile.Keys && s in suite && !SectionShallow(profile[s], suite[s]);
      assert m[s] != merged[s];
    }
  }

  /** Section to key to scalar: the form of every profile and suite config. */
  predicate TwoLevels(m: map<string, Tree>) {
    forall s <- m.Keys :: m[s].Dict? && forall k <- m[s].entries.Keys :: m[s].entries[k].Leaf?
  }

  lemma TwoLevelsShallow(suite: map<string, Tree>, profile: map<string, Tree>)
    requires TwoLevels(suite) && TwoLevels(profile)
    ensures Shallow(profile, suite)
  {
  }

  /** A third level makes the difference: the section-wise update drops the profile's value. */
  lemma OdfDiffers(section: string, k: string, x: string, y: string)
    requires x != y
    ensures var profile := map[section := Dict(map[k := Dict(map[x := Leaf(1)])])];
            var suite := map[section := Dict(map[k := Dict(map[y := Leaf(2)])])];
            OdfMerged(profile, suite) != Merge(Dict(profile), Dict(suite)).entries
  {
    var profile := map[section := Dict(map[k := Dict(map[x := Leaf(1)])])];
    var suite := map[section := Dict(map[k := Dict(map[y := Leaf(2)])])];
    var p, s := profile[section], suite[section];
    assert k in p.entries.Keys && k in s.entries && !Absorbed(p.entries[k], s.entries[k]) by {
      assert x in p.entries[k].entries.Keys && x !in s.entries[k].entries;
    }
    assert section in profile.Keys && !SectionShallow(p, s);
    OdfExactly(suite, profile);
  }
}
