/** merge_odf_into_bootstrap_config on dict objects (utility/odf_defaults.py): the profile is
    copied, and the suite's sections are merged into the copy. */
module OdfMerge {
  import opened Options
  import opened MergeTrees
  import opened MergeHeap
  import opened DeepCopies

  // ----- one section -------------------------------------------------------

  /** dict.update, one level deep: the left dict object with the right one's own values. */
  ghost function Updated(a: Shape, b: Shape): Shape
    requires a.SDict? && b.SDict?
  {
    SDict(a.dict, a.entries + b.entries)
  }

  lemma UpdatedKid(a: Shape, b: Shape, k: string)
    requires a.SDict? && b.SDict? && Apart(a, b) && k in a.entries.Keys + b.entries.Keys
    ensures var kid := Updated(a, b).entries[k];
            && Sep(kid) && a.dict !in Foot(kid) && Foot(kid) <= KidFeet(a, k) + KidFeet(b, k)
            && kid == if k in b.entries then b.entries[k] else a.entries[k]
    ensures KidFeet(a, k) <= Foot(a) && KidFeet(b, k) <= Foot(b)
  {
    assert a.dict in Foot(a);
  }

  lemma UpdatedSep(a: Shape, b: Shape)
    requires a.SDict? && b.SDict? && Apart(a, b)
    ensures Sep(Updated(a, b)) && Foot(Updated(a, b)) <= Foot(a) + Foot(b)
  {
    var u := Updated(a, b);
    forall k | k in u.entries
      ensures Sep(u.entries[k]) && a.dict !in Foot(u.entries[k]) && Foot(u.entries[k]) <= Foot(a) + Foot(b)
    {
      UpdatedKid(a, b, k);
    }
    forall k, m | k in u.entries && m in u.entries && k != m ensures Foot(u.entries[k]) !! Foot(u.entries[m]) {
      UpdatedKid(a, b, k);
      UpdatedKid(a, b, m);
      assert KidFeet(a, k) !! KidFeet(a, m) && KidFeet(b, k) !! KidFeet(b, m);
    }
  }

  lemma UpdatedErases(a: Shape, b: Shape)
    requires a.SDict? && b.SDict?
    ensures Erase(Updated(a, b)) == OdfSection(Some(Erase(a)), Erase(b))
  {
    assert Erase(Updated(a, b)).entries == Erase(a).entries + Erase(b).entries;
  }

  method UpdateSection(section: PyDict, values: PyDict, ghost a: Shape, ghost b: Shape, ghost kept: set<Shape>)
    requires a.SDict? && b.SDict? && a.dict == section && b.dict == values
    requires InHeap(a) && InHeap(b) && Apart(a, b)
    requires forall t <- kept :: InHeap(t) && section !in Foot(t)
    modifies section
    ensures Held(DictRef(section), Updated(a, b)) && InHeap(b) && forall t <- kept :: InHeap(t)
  {
    ghost var u := Updated(a, b).entries;
    forall k | k in u ensures InHeap(u[k]) && section !in Foot(u[k]) && u[k] in u.Values { UpdatedKid(a, b, k); }
    forall t | t in kept + u.Values + {b} ensures section !in Foot(t) && forall o <- Foot(t) :: allocated(o) {
      InHeapIsAllocated(t);
    }
    section.entries := section.entries + values.entries;
    forall t | t in kept + u.Values + {b} ensures InHeap(t) { Framed(t); }
    UpdatedSep(a, b);
  }

  /** setdefault's new dict, updated. */
  method NewSection(values: PyDict, ghost b: Shape) returns (v: Val, ghost kid: Shape)
    requires b.SDict? && b.dict == values && Held(DictRef(values), b)
    ensures Held(v, kid) && Erase(kid) == Erase(b) && kid.SDict? && fresh(kid.dict) &&
            Foot(kid) <= {kid.dict as object} + Foot(b)
  {
    InHeapIsAllocated(b);
    var section := new PyDict(map[]);
    ghost var empty := SDict(section, map[]);
    Framed(b);
    assert Foot(empty) == {section as object};
    UpdateSection(section, values, empty, b, {});
    v, kid := DictRef(section), Updated(empty, b);
    UpdatedSep(empty, b);
    EmptyUpdated(section, b);
  }

  lemma EmptyUpdated(section: PyDict, b: Shape)
    requires b.SDict?
    ensures Erase(Updated(SDict(section, map[]), b)) == Erase(b)
  {
    assert Erase(Updated(SDict(section, map[]), b)).entries == Erase(b).entries;
  }

  // ----- all sections ------------------------------------------------------

  /** A config that may be missing. */
  ghost predicate Is(config: Option<PyDict>, s: Shape)
    reads Foot(s)
  {
    match config case None => s == SLeaf(0) case Some(d) => s.SDict? && Held(DictRef(d), s)
  }

  ghost function Sections(s: Shape): map<string, Tree> { if s.SDict? then Erase(s).entries else map[] }

  /** The result once the suite's sections except those in todo are merged. */
  function Partial(profile: map<string, Tree>, suite: map<string, Tree>, todo: set<string>): map<string, Tree> {
    map k | k in profile.Keys + (suite.Keys - todo) ::
      if k in suite && k !in todo then OdfSection(Lookup(profile, k), suite[k]) else profile[k]
  }

  lemma PartialSteps(profile: map<string, Tree>, suite: map<string, Tree>, todo: set<string>, k: string)
    requires todo <= suite.Keys
    ensures todo == {} ==> Partial(profile, suite, todo) == OdfMerged(profile, suite)
    ensures todo == suite.Keys ==> Partial(profile, suite, todo) == profile
    ensures k in todo ==> Partial(profile, suite, todo - {k}) ==
                          Partial(profile, suite, todo)[k := OdfSection(Lookup(profile, k), suite[k])]
    ensures k in todo ==> Lookup(Partial(profile, suite, todo), k) == Lookup(profile, k)
  {
  }

  /** The result under way: its own objects are in `news`, and of the suite it holds at most the
      values of the sections that were merged. */
  ghost predicate Going(cur: Shape, s: Shape, todo: set<string>, news: set<object>) {
    && cur.SDict? && s.SDict? && Sep(cur) && cur.dict in news && news !! Foot(s)
    && (forall k <- cur.entries ::
          && Foot(cur.entries[k]) <= news + (if k in todo then {} else KidFeet(s, k))
          && (cur.entries[k].SDict? ==> cur.entries[k].dict in news))
  }

  lemma GoingApart(cur: Shape, s: Shape, todo: set<string>, news: set<object>, k: string)
    requires Going(cur, s, todo, news) && k in todo && k in s.entries && Sep(s)
    ensures Foot(cur) !! Foot(s.entries[k]) && cur.dict !in Foot(s)
    ensures Foot(cur) <= news + Foot(s)
  {
    assert Foot(s.entries[k]) <= Foot(s);
    forall m | m in cur.entries && m !in todo ensures KidFeet(s, m) !! Foot(s.entries[k]) && KidFeet(s, m) <= Foot(s) {}
  }

  ghost function Stored(cur: Shape, k: string, kid: Shape): Shape
    requires cur.SDict?
  {
    SDict(cur.dict, cur.entries[k := kid])
  }

  lemma StoredSep(cur: Shape, k: string, kid: Shape)
    requires cur.SDict? && Sep(cur) && Sep(kid) && cur.dict !in Foot(kid)
    requires forall m <- cur.entries :: m != k ==> Foot(cur.entries[m]) !! Foot(kid)
    ensures Sep(Stored(cur, k, kid))
  {
  }

  lemma KidApart(cur: Shape, s: Shape, todo: set<string>, news: set<object>, k: string, kid: Shape, more: set<object>)
    requires Going(cur, s, todo, news) && k in todo && k in s.entries && Sep(s)
    requires Foot(kid) <= KidFeet(cur, k) + more + Foot(s.entries[k]) && more !! Foot(cur)
    ensures cur.dict !in Foot(kid)
    ensures forall m <- cur.entries :: m != k ==> Foot(cur.entries[m]) !! Foot(kid)
  {
    GoingApart(cur, s, todo, news, k);
    assert cur.dict in Foot(cur);
    forall m | m in cur.entries && m != k ensures Foot(cur.entries[m]) !! Foot(kid) {
      assert Foot(cur.entries[m]) !! KidFeet(cur, k) && Foot(cur.entries[m]) <= Foot(cur);
    }
  }

  lemma GoingOn(cur: Shape, s: Shape, todo: set<string>, news: set<object>, k: string, kid: Shape, more: set<object>)
    requires Going(cur, s, todo, news) && k in todo && k in s.entries && Sep(s)
    requires Sep(kid) && Foot(kid) <= KidFeet(cur, k) + more + Foot(s.entries[k]) && more !! Foot(s) &&
             more !! Foot(cur)
    requires kid.SDict? ==> kid.dict in news + more
    ensures Going(Stored(cur, k, kid), s, todo - {k}, news + more)
  {
    KidApart(cur, s, todo, news, k, kid, more);
    StoredSep(cur, k, kid);
    assert KidFeet(cur, k) <= news;
  }

  lemma EraseStored(cur: Shape, k: string, kid: Shape)
    requires cur.SDict?
    ensures Erase(Stored(cur, k, kid)).entries == Erase(cur).entries[k := Erase(kid)]
    ensures Lookup(Erase(cur).entries, k) == if k in cur.entries then Some(Erase(cur.entries[k])) else None
  {
  }

  /** The section's new value, where it has to be stored. */
  method Replaced(values: Val, ghost b: Shape, missing: bool)
    returns (v: Val, ghost kid: Shape, ghost more: set<object>)
    requires Held(values, b)
    ensures Held(v, kid) && Erase(kid) == Erase(b) && fresh(more) && Foot(kid) <= more + Foot(b)
    ensures kid.SDict? ==> kid.dict in more
  {
    if !values.DictRef? { return values, b, {}; }
    if missing {
      v, kid := NewSection(values.dict, b);
      more := {kid.dict as object};
    } else {
      v, kid := DeepCopy(values, b);
      more := Foot(kid);
    }
  }

  method ReplacedKeeping(values: Val, ghost b: Shape, missing: bool, ghost kept: set<Shape>)
    returns (v: Val, ghost kid: Shape, ghost more: set<object>)
    requires Held(values, b) && forall t <- kept :: InHeap(t)
    ensures Held(v, kid) && Erase(kid) == Erase(b) && fresh(more) && Foot(kid) <= more + Foot(b)
    ensures kid.SDict? ==> kid.dict in more
    ensures forall t <- kept :: InHeap(t) && Foot(t) !! more
  {
    forall t | t in kept ensures forall o <- Foot(t) :: allocated(o) { InHeapIsAllocated(t); }
    v, kid, more := Replaced(values, b, missing);
    forall t | t in kept ensures InHeap(t) { Framed(t); }
  }

  /** What one turn makes of the result. */
  ghost predicate Turned(merged: PyDict, k: string, s: Shape, was: map<string, Tree>, cur: Shape)
    reads Foot(cur)
  {
    && cur.SDict? && cur.dict == merged && InHeap(cur) && s.SDict? && k in s.entries
    && Erase(cur).entries == was[k := OdfSection(Lookup(was, k), Erase(s.entries[k]))]
  }

  method StoreTurn(merged: PyDict, k: string, values: Val, ghost cur: Shape, ghost s: Shape, ghost todo: set<string>,
                   ghost news: set<object>)
    returns (ghost cur': Shape, ghost more: set<object>)
    requires Going(cur, s, todo, news) && InHeap(cur) && cur.dict == merged && InHeap(s) && Sep(s)
    requires k in todo && k in s.entries && values == Top(s.entries[k])
    requires values.DictRef? && k in cur.entries ==> !cur.entries[k].SDict?
    modifies merged
    ensures Going(cur', s, todo - {k}, news + more) && InHeap(s) && fresh(more)
    ensures Turned(merged, k, s, Erase(cur).entries, cur')
  {
    GoingApart(cur, s, todo, news, k);
    var v;
    ghost var kid;
    v, kid, more := ReplacedKeeping(values, s.entries[k], k !in merged.entries, {cur, s});
    cur' := Stored(cur, k, kid);
    KidApart(cur, s, todo, news, k, kid, more);
    GoingOn(cur, s, todo, news, k, kid, more);
    StoredSection(cur, s, k, kid);
    Put(merged, k, v, cur, kid, s);
  }

  lemma StoredSection(cur: Shape, s: Shape, k: string, kid: Shape)
    requires cur.SDict? && s.SDict? && k in s.entries && Erase(kid) == Erase(s.entries[k])
    requires s.entries[k].SDict? && k in cur.entries ==> !cur.entries[k].SDict?
    ensures Erase(Stored(cur, k, kid)).entries ==
            Erase(cur).entries[k := OdfSection(Lookup(Erase(cur).entries, k), Erase(s.entries[k]))]
  {
    EraseStored(cur, k, kid);
  }

  method Put(merged: PyDict, k: string, v: Val, ghost cur: Shape, ghost kid: Shape, ghost s: Shape)
    requires cur.SDict? && cur.dict == merged && Sep(cur) && InHeap(cur) && Held(v, kid) && merged !in Foot(kid)
    requires InHeap(s) && merged !in Foot(s)
    modifies merged
    ensures InHeap(s) && InHeap(Stored(cur, k, kid))
  {
    StoreEntry(merged, k, v, cur, kid, s);
  }

  method UpdateTurn(merged: PyDict, k: string, section: PyDict, values: PyDict, ghost cur: Shape, ghost s: Shape,
                    ghost todo: set<string>, ghost news: set<object>)
    returns (ghost cur': Shape)
    requires Going(cur, s, todo, news) && InHeap(cur) && cur.dict == merged && InHeap(s) && Sep(s)
    requires k in todo && k in s.entries && k in cur.entries
    requires Top(s.entries[k]) == DictRef(values) && Top(cur.entries[k]) == DictRef(section)
    modifies section
    ensures Going(cur', s, todo - {k}, news) && InHeap(s)
    ensures Turned(merged, k, s, Erase(cur).entries, cur')
  {
    ghost var a, b := cur.entries[k], s.entries[k];
    ghost var kid := Updated(a, b);
    UpdateReady(cur, s, todo, news, k);
    UpdatedSep(a, b);
    GoingOn(cur, s, todo, news, k, kid, {});
    assert news + {} == news;
    UpdateSection(section, values, a, b, OtherEntries(cur, k) + {s});
    UpdatedErases(a, b);
    EraseStored(cur, k, kid);
    cur' := Stored(cur, k, kid);
    StillHeld(cur, k, kid);
  }

  lemma UpdateReady(cur: Shape, s: Shape, todo: set<string>, news: set<object>, k: string)
    requires Going(cur, s, todo, news) && InHeap(cur) && InHeap(s) && Sep(s)
    requires k in todo && k in s.entries && k in cur.entries && cur.entries[k].SDict? && s.entries[k].SDict?
    ensures InHeap(cur.entries[k]) && InHeap(s.entries[k]) && Apart(cur.entries[k], s.entries[k])
    ensures forall t <- OtherEntries(cur, k) + {s} :: InHeap(t) && cur.entries[k].dict !in Foot(t)
    ensures cur.dict != cur.entries[k].dict && Foot(cur.entries[k]) <= news
  {
    GoingApart(cur, s, todo, news, k);
    assert cur.entries[k].dict in Foot(cur.entries[k]) && Foot(cur.entries[k]) <= Foot(cur);
  }

  lemma StillHeld(cur: Shape, k: string, kid: Shape)
    requires cur.SDict? && k in cur.entries && Top(kid) == Top(cur.entries[k]) && InHeap(kid)
    requires cur.dict.entries.Keys == cur.entries.Keys &&
             forall m <- cur.entries :: cur.dict.entries[m] == Top(cur.entries[m])
    requires forall t <- OtherEntries(cur, k) :: InHeap(t)
    ensures InHeap(Stored(cur, k, kid))
  {
    assert forall m <- cur.entries :: m != k ==> cur.entries[m] in OtherEntries(cur, k);
  }

  /** One turn of the loop over the suite's sections. */
  method SectionTurn(merged: PyDict, k: string, values: Val, ghost cur: Shape, ghost s: Shape, ghost todo: set<string>,
                     ghost news: set<object>)
    returns (ghost cur': Shape, ghost more: set<object>)
    requires Going(cur, s, todo, news) && InHeap(cur) && cur.dict == merged && InHeap(s) && Sep(s)
    requires k in todo && k in s.entries && values == Top(s.entries[k])
    modifies news
    ensures Going(cur', s, todo - {k}, news + more) && InHeap(s) && fresh(more)
    ensures Turned(merged, k, s, Erase(cur).entries, cur')
  {
    if values.DictRef? && k in merged.entries && merged.entries[k].DictRef? {
      cur' := UpdateTurn(merged, k, merged.entries[k].dict, values.dict, cur, s, todo, news);
      more := {};
    } else {
      cur', more := StoreTurn(merged, k, values, cur, s, todo, news);
    }
  }

  /** What the result is made of. */
  ghost predicate MadeOf(r: Shape, s: Shape, news: set<object>) {
    && r.SDict? && Sep(r) && r.dict in news && Foot(r) <= news + Foot(s)
    && forall k <- r.entries :: r.entries[k].SDict? ==> r.entries[k].dict in news
  }

  lemma GoneThrough(r: Shape, s: Shape, news: set<object>)
    requires Going(r, s, {}, news)
    ensures MadeOf(r, s, news)
  {
  }

  method CopyProfile(profile: Option<PyDict>, ghost p: Shape, ghost s: Shape)
    returns (merged: PyDict, ghost r: Shape, ghost news: set<object>)
    requires Is(profile, p) && InHeap(s)
    ensures Held(DictRef(merged), r) && r.SDict? && Erase(r).entries == Sections(p)
    ensures fresh(news) && news == Foot(r) && InHeap(s) && InHeap(p) && news !! Foot(s) && news !! Foot(p)
  {
    InHeapIsAllocated(p);
    InHeapIsAllocated(s);
    if profile.Some? && profile.value.entries != map[] {
      var v;
      v, r := DeepCopy(DictRef(profile.value), p);
      merged := v.dict;
    } else {
      merged := new PyDict(map[]);
      r := SDict(merged, map[]);
      assert Erase(r).entries == map[];
      NoSections(profile, p);
    }
    news := Foot(r);
    Framed(p);
    Framed(s);
  }

  lemma NoSections(config: Option<PyDict>, p: Shape)
    requires Is(config, p) && (config.Some? ==> config.value.entries == map[])
    ensures Sections(p) == map[]
  {
    if config.Some? { assert p.entries.Keys == {}; }
  }

  method MergeSections(merged: PyDict, suite: PyDict, ghost r: Shape, ghost s: Shape, ghost news: set<object>)
    returns (ghost cur: Shape, ghost all: set<object>)
    requires s.SDict? && Held(DictRef(suite), s) && r.SDict? && Held(DictRef(merged), r)
    requires Foot(r) == news && news !! Foot(s)
    modifies news
    ensures Going(cur, s, {}, all) && InHeap(cur) && cur.dict == merged && InHeap(s)
    ensures Erase(cur).entries == OdfMerged(Erase(r).entries, Erase(s).entries)
    ensures news <= all && fresh(all - news)
  {
    cur, all := r, news;
    ghost var ps, ss := Erase(r).entries, Erase(s).entries;
    var todo := suite.entries.Keys;
    PartialSteps(ps, ss, todo, "");
    while todo != {}
      invariant todo <= suite.entries.Keys && suite.entries.Keys == s.entries.Keys
      invariant Going(cur, s, todo, all) && InHeap(cur) && cur.dict == merged && InHeap(s)
      invariant Erase(cur).entries == Partial(ps, ss, todo)
      invariant news <= all && fresh(all - news)
    {
      var k :| k in todo;
      PartialSteps(ps, ss, todo, k);
      ghost var more;
      cur, more := SectionTurn(merged, k, suite.entries[k], cur, s, todo, all);
      all, todo := all + more, todo - {k};
    }
    PartialSteps(ps, ss, {}, "");
  }

  method MergeSuite(merged: PyDict, suite: Option<PyDict>, ghost r: Shape, ghost s: Shape, ghost news: set<object>,
                    ghost p: Shape)
    returns (ghost cur: Shape, ghost all: set<object>)
    requires Is(suite, s) && r.SDict? && Held(DictRef(merged), r) && InHeap(p)
    requires Foot(r) == news && news !! Foot(s) && news !! Foot(p)
    modifies news
    ensures MadeOf(cur, s, all) && InHeap(cur) && cur.dict == merged && InHeap(s) && InHeap(p)
    ensures Erase(cur).entries == OdfMerged(Erase(r).entries, Sections(s))
    ensures fresh(all - news)
  {
    if suite.None? {
      assert OdfMerged(Erase(r).entries, map[]) == Erase(r).entries;
      return r, news;
    }
    InHeapIsAllocated(p);
    cur, all := MergeSections(merged, suite.value, r, s, news);
    Framed(p);
    GoneThrough(cur, s, all);
  }

  /** merge_odf_into_bootstrap_config: only new objects are written to, so profile and suite
      stay as they are; so does the suite under later changes to a section of the result,
      whose own dict is new, but not under changes below that. */
  method MergeOdf(suite: Option<PyDict>, profile: Option<PyDict>, ghost s: Shape, ghost p: Shape)
    returns (merged: PyDict, ghost r: Shape, ghost news: set<object>)
    requires Is(suite, s) && Is(profile, p)
    ensures Held(DictRef(merged), r) && r.SDict?
    ensures Erase(r).entries == OdfMerged(Sections(p), Sections(s))
    ensures InHeap(s) && InHeap(p)
    ensures fresh(news) && MadeOf(r, s, news)
  {
    merged, r, news := CopyProfile(profile, p, s);
    r, news := MergeSuite(merged, suite, r, s, news, p);
  }
}
