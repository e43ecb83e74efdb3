/** An override on the heap whose objects the config shares, through further merges. */
module SharedShapes {
  import opened MergeTrees
  import opened MergeHeap

  ghost predicate SameObject(a: Shape, b: Shape) { !a.SLeaf? && Top(a) == Top(b) }

  ghost function Own(s: Shape): set<object> {
    match s case SLeaf(_) => {} case SList(l, _) => {l} case SDict(d, _) => {d}
  }

  /** The override s after d was merged into the config cur: where they are the same object it
      holds the merge, and elsewhere its entries are followed. */
  ghost function Stepped(cur: Shape, s: Shape, d: Shape): Shape
    decreases s, 1
  {
    if SameObject(cur, s) then InPlace(s, d)
    else if cur.SDict? && s.SDict? && d.SDict? then SDict(s.dict, map k | k in s.entries :: SteppedKid(cur, s, d, k))
    else s
  }

  ghost function SteppedKid(cur: Shape, s: Shape, d: Shape, k: string): Shape
    requires cur.SDict? && s.SDict? && d.SDict? && k in s.entries
    decreases s, 0
  {
    if k in cur.entries && k in d.entries then Stepped(cur.entries[k], s.entries[k], d.entries[k]) else s.entries[k]
  }

  /** Config and override share objects only in one place each: at the same path, and there
      they are the same. (Items of lists may be shared in any way, nothing is merged into them.) */
  ghost predicate Aligned(cur: Shape, s: Shape)
    decreases s
  {
    if SameObject(cur, s) then cur == s
    else
      && Own(cur) !! Foot(s) && Own(s) !! Foot(cur)
      && if cur.SDict? && s.SDict? then
           forall k <- s.entries ::
             && (Foot(s.entries[k]) * Foot(cur)) <= KidFeet(cur, k)
             && (k in cur.entries ==> Aligned(cur.entries[k], s.entries[k]))
         else if cur.SList? && s.SList? then true
         else Foot(cur) !! Foot(s)
  }

  lemma {:induction false} DisjointAligned(cur: Shape, s: Shape)
    requires Foot(cur) !! Foot(s)
    ensures Aligned(cur, s)
    decreases s
  {
    assert Own(cur) <= Foot(cur) && Own(s) <= Foot(s);
    if cur.SDict? && s.SDict? {
      forall k | k in s.entries
        ensures Foot(s.entries[k]) * Foot(cur) <= KidFeet(cur, k)
        ensures k in cur.entries ==> Aligned(cur.entries[k], s.entries[k])
      {
        assert Foot(s.entries[k]) <= Foot(s);
        if k in cur.entries {
          assert Foot(cur.entries[k]) <= Foot(cur);
          DisjointAligned(cur.entries[k], s.entries[k]);
        }
      }
    }
  }

  lemma SelfAligned(s: Shape)
    ensures Aligned(s, s)
  {
  }

  /** A merge leaves the override aligned with the config that it was merged into. */
  lemma {:induction false} MergeAligned(a: Shape, b: Shape)
    requires Apart(a, b)
    ensures Aligned(MergeS(a, b), b)
    decreases b
  {
    if a.SDict? && b.SDict? {
      var cur := MergeS(a, b);
      MergeFoot(a, b);
      OwnApart(a, b);
      forall k | k in b.entries
        ensures Foot(b.entries[k]) * Foot(cur) <= KidFeet(cur, k)
        ensures Aligned(cur.entries[k], b.entries[k])
      {
        StoredOnlyThere(a, b, k);
        if k in a.entries {
          ApartKids(a, b, k);
          MergeAligned(a.entries[k], b.entries[k]);
        } else {
          SelfAligned(b.entries[k]);
        }
      }
    } else if a.SList? && b.SList? {
      ListsAligned(a, b);
    } else {
      SelfAligned(b);
    }
  }

  lemma ApartKids(a: Shape, b: Shape, k: string)
    requires a.SDict? && b.SDict? && Apart(a, b) && k in a.entries && k in b.entries
    ensures Apart(a.entries[k], b.entries[k])
  {
    assert Foot(a.entries[k]) <= Foot(a) && Foot(b.entries[k]) <= Foot(b);
  }

  lemma ListsAligned(a: Shape, b: Shape)
    requires a.SList? && b.SList? && Apart(a, b)
    ensures Aligned(MergeS(a, b), b)
  {
    var cur := MergeS(a, b);
    MergeFoot(a, b);
    forall i | 0 <= i < |cur.items| ensures b.list !in Foot(cur.items[i]) {
      ListKid(a, b, i);
      assert b.list in Foot(b);
      if i >= |a.items| { assert cur.items[i] == b.items[i - |a.items|]; }
    }
  }

  lemma OwnApart(a: Shape, b: Shape)
    requires a.SDict? && b.SDict? && Apart(a, b)
    ensures a.dict !in Foot(b) && b.dict !in Foot(MergeS(a, b))
  {
    assert a.dict in Foot(a) && b.dict in Foot(b);
    forall k | k in a.entries || k in b.entries ensures b.dict !in Foot(MergeKid(a, b, k)) {
      KidFoot(a, b, k);
    }
  }

  /** The objects of one entry of b are under that key of the merge or nowhere. */
  lemma StoredOnlyThere(a: Shape, b: Shape, k: string)
    requires a.SDict? && b.SDict? && Apart(a, b) && k in b.entries
    ensures Foot(b.entries[k]) * Foot(MergeS(a, b)) <= KidFeet(MergeS(a, b), k)
  {
    var cur := MergeS(a, b);
    forall o | o in Foot(b.entries[k]) && o in Foot(cur) ensures o in Foot(cur.entries[k]) {
      assert o in Foot(b);
      assert a.dict in Foot(a);
      var m :| m in cur.entries && o in Foot(cur.entries[m]);
      KidFoot(a, b, m);
      assert o in KidFeet(b, m);
    }
  }

  // ----- one more merge ----------------------------------------------------

  /** d is new to config and override. */
  ghost predicate Fresh3(cur: Shape, s: Shape, d: Shape) {
    Sep(cur) && Sep(s) && Sep(d) && Foot(d) !! Foot(cur) && Foot(d) !! Foot(s)
  }

  lemma Fresh3Kids(cur: Shape, s: Shape, d: Shape, k: string)
    requires cur.SDict? && s.SDict? && d.SDict? && Fresh3(cur, s, d)
    requires k in cur.entries && k in s.entries && k in d.entries
    ensures Fresh3(cur.entries[k], s.entries[k], d.entries[k])
  {
    assert Foot(d.entries[k]) <= Foot(d) && Foot(cur.entries[k]) <= Foot(cur) && Foot(s.entries[k]) <= Foot(s);
  }

  lemma InPlaceSep(a: Shape, b: Shape)
    requires Apart(a, b)
    ensures Sep(InPlace(a, b)) && Foot(InPlace(a, b)) <= Foot(a) + Foot(b) && Top(InPlace(a, b)) == Top(a)
  {
    MergeSep(a, b);
    MergeFoot(a, b);
  }

  lemma {:induction false} SteppedFoot(cur: Shape, s: Shape, d: Shape)
    requires Sep(s) && Sep(d) && Foot(d) !! Foot(s)
    ensures Foot(Stepped(cur, s, d)) <= Foot(s) + Foot(d) && Top(Stepped(cur, s, d)) == Top(s)
    decreases s, 1
  {
    if SameObject(cur, s) {
      InPlaceSep(s, d);
    } else if cur.SDict? && s.SDict? && d.SDict? {
      forall k | k in s.entries ensures Foot(SteppedKid(cur, s, d, k)) <= Foot(s) + Foot(d) {
        SteppedKidFoot(cur, s, d, k);
      }
    }
  }

  lemma {:induction false} SteppedKidFoot(cur: Shape, s: Shape, d: Shape, k: string)
    requires cur.SDict? && s.SDict? && d.SDict? && k in s.entries && Sep(s) && Sep(d) && Foot(d) !! Foot(s)
    ensures Foot(SteppedKid(cur, s, d, k)) <= Foot(s.entries[k]) + KidFeet(d, k)
    ensures Foot(s.entries[k]) <= Foot(s) && KidFeet(d, k) <= Foot(d)
    ensures Top(SteppedKid(cur, s, d, k)) == Top(s.entries[k])
    decreases s, 0
  {
    if k in cur.entries && k in d.entries {
      assert Foot(d.entries[k]) <= Foot(d) && Foot(s.entries[k]) <= Foot(s);
      SteppedFoot(cur.entries[k], s.entries[k], d.entries[k]);
    }
  }

  lemma {:induction false} SteppedSep(cur: Shape, s: Shape, d: Shape)
    requires Sep(s) && Sep(d) && Foot(d) !! Foot(s)
    ensures Sep(Stepped(cur, s, d))
    decreases s
  {
    if SameObject(cur, s) {
      InPlaceSep(s, d);
    } else if cur.SDict? && s.SDict? && d.SDict? {
      forall k | k in s.entries ensures Sep(SteppedKid(cur, s, d, k)) && s.dict !in Foot(SteppedKid(cur, s, d, k)) {
        SteppedKidFoot(cur, s, d, k);
        assert s.dict in Foot(s);
        if k in cur.entries && k in d.entries {
          assert Foot(d.entries[k]) !! Foot(s.entries[k]);
          SteppedSep(cur.entries[k], s.entries[k], d.entries[k]);
        }
      }
      forall k, m | k in s.entries && m in s.entries && k != m
        ensures Foot(SteppedKid(cur, s, d, k)) !! Foot(SteppedKid(cur, s, d, m))
      {
        SteppedKidFoot(cur, s, d, k);
        SteppedKidFoot(cur, s, d, m);
        assert KidFeet(d, k) !! KidFeet(d, m);
      }
    }
  }

  /** Config and override stay aligned: in an entry, where the merge's result is stored... */
  lemma {:induction false} SteppedAligned(cur: Shape, s: Shape, d: Shape)
    requires Aligned(cur, s) && Fresh3(cur, s, d)
    ensures Aligned(MergeS(cur, d), Stepped(cur, s, d))
    decreases s, 2
  {
    if SameObject(cur, s) {
      if Mergeable(Erase(cur), Erase(d)) { SelfAligned(MergeS(cur, d)); } else { DisjointAligned(d, s); }
    } else if cur.SDict? && s.SDict? && d.SDict? {
      DictsAligned(cur, s, d);
    } else if cur.SList? && s.SList? && d.SList? {
      ListStepAligned(cur, s, d);
    } else if (cur.SDict? && d.SDict?) || (cur.SList? && d.SList?) {
      MergeFoot(cur, d);
      DisjointAligned(MergeS(cur, d), s);
    } else {
      DisjointAligned(d, s);
    }
  }

  lemma ListStepAligned(cur: Shape, s: Shape, d: Shape)
    requires cur.SList? && s.SList? && d.SList? && !SameObject(cur, s) && Aligned(cur, s) && Fresh3(cur, s, d)
    ensures Aligned(MergeS(cur, d), s)
  {
    MergeFoot(cur, d);
    assert s.list in Foot(s);
  }

  lemma {:induction false} DictsAligned(cur: Shape, s: Shape, d: Shape)
    requires cur.SDict? && s.SDict? && d.SDict? && !SameObject(cur, s) && Aligned(cur, s) && Fresh3(cur, s, d)
    ensures Aligned(MergeS(cur, d), Stepped(cur, s, d))
    decreases s, 1
  {
    var cur', s' := MergeS(cur, d), Stepped(cur, s, d);
    MergeFoot(cur, d);
    SteppedFoot(cur, s, d);
    assert cur.dict in Foot(cur) && s.dict in Foot(s);
    forall k | k in s'.entries
      ensures Foot(s'.entries[k]) * Foot(cur') <= KidFeet(cur', k)
      ensures k in cur'.entries ==> Aligned(cur'.entries[k], s'.entries[k])
    {
      KidStaysThere(cur, s, d, k);
      if k in cur'.entries { KidAligned(cur, s, d, k); }
    }
  }

  lemma {:induction false} KidAligned(cur: Shape, s: Shape, d: Shape, k: string)
    requires cur.SDict? && s.SDict? && d.SDict? && !SameObject(cur, s) && Aligned(cur, s) && Fresh3(cur, s, d)
    requires k in s.entries && (k in cur.entries || k in d.entries)
    ensures Aligned(MergeKid(cur, d, k), SteppedKid(cur, s, d, k))
    decreases s, 0
  {
    if k in cur.entries && k in d.entries {
      Fresh3Kids(cur, s, d, k);
      SteppedAligned(cur.entries[k], s.entries[k], d.entries[k]);
    } else if k in d.entries {
      assert Foot(d.entries[k]) <= Foot(d) && Foot(s.entries[k]) <= Foot(s);
      DisjointAligned(d.entries[k], s.entries[k]);
    }
  }

  lemma KidStaysThere(cur: Shape, s: Shape, d: Shape, k: string)
    requires cur.SDict? && s.SDict? && d.SDict? && !SameObject(cur, s) && Aligned(cur, s) && Fresh3(cur, s, d)
    requires k in s.entries
    ensures Foot(SteppedKid(cur, s, d, k)) * Foot(MergeS(cur, d)) <= KidFeet(MergeS(cur, d), k)
  {
    SteppedKidFoot(cur, s, d, k);
    OldStaysThere(cur, s, d, k);
    NewStaysThere(cur, d, k);
  }

  lemma OldStaysThere(cur: Shape, s: Shape, d: Shape, k: string)
    requires cur.SDict? && s.SDict? && d.SDict? && !SameObject(cur, s) && Aligned(cur, s)
    requires k in s.entries && Foot(d) !! Foot(s) && Sep(cur)
    ensures Foot(s.entries[k]) * Foot(MergeS(cur, d)) <= KidFeet(MergeS(cur, d), k)
  {
    var cur' := MergeS(cur, d);
    assert cur.dict in Foot(cur) && Foot(s.entries[k]) <= Foot(s);
    forall o | o in Foot(s.entries[k]) && o in Foot(cur') ensures o in KidFeet(cur', k) {
      assert o != cur.dict;
      var m :| m in cur'.entries && o in Foot(cur'.entries[m]);
      KidFoot(cur, d, m);
      assert o in KidFeet(cur, m) && o in Foot(cur);
      assert m == k by { assert o in KidFeet(cur, k); }
    }
  }

  lemma NewStaysThere(cur: Shape, d: Shape, k: string)
    requires cur.SDict? && d.SDict? && Apart(cur, d)
    ensures KidFeet(d, k) * Foot(MergeS(cur, d)) <= KidFeet(MergeS(cur, d), k)
  {
    if k in d.entries { StoredOnlyThere(cur, d, k); }
  }

  /** ... and at the root, where it is not. */
  lemma RootAligned(cur: Shape, s: Shape, d: Shape)
    requires Aligned(cur, s) && Fresh3(cur, s, d)
    ensures Aligned(InPlace(cur, d), Stepped(cur, s, d))
  {
    SteppedAligned(cur, s, d);
  }

  // ----- on the heap -------------------------------------------------------

  /** Nothing of the shape is written to by merging d into cur. */
  lemma SafeFromWrites(cur: Shape, s: Shape, d: Shape)
    requires Aligned(cur, s) && Sep(cur)
    requires !SameObject(cur, s) && !(cur.SDict? && s.SDict? && d.SDict?)
    ensures Foot(s) !! Writes(cur, d)
  {
    WritesInFoot(cur, d);
  }

  /** What is written under one key of the config. */
  lemma WritesUnder(cur: Shape, d: Shape, k: string)
    requires cur.SDict? && d.SDict? && Sep(cur) && k in cur.entries
    ensures if k in d.entries then Writes(cur, d) * Foot(cur.entries[k]) <= Writes(cur.entries[k], d.entries[k])
            else Writes(cur, d) !! Foot(cur.entries[k])
  {
    forall m | m in cur.entries && m in d.entries ensures Writes(cur.entries[m], d.entries[m]) <= Foot(cur.entries[m]) {
      WritesInFoot(cur.entries[m], d.entries[m]);
    }
  }

  lemma KidSafeFromWrites(cur: Shape, s: Shape, d: Shape, k: string)
    requires cur.SDict? && s.SDict? && d.SDict? && Aligned(cur, s) && !SameObject(cur, s) && Sep(cur)
    requires k in s.entries && !(k in cur.entries && k in d.entries)
    ensures Foot(s.entries[k]) !! Writes(cur, d)
  {
    WritesInFoot(cur, d);
    assert Foot(s.entries[k]) <= Foot(s);
    if k in cur.entries { WritesUnder(cur, d, k); }
  }

  /** The heap holds the shape as far as the objects outside w go. */
  ghost predicate HeldOutside(s: Shape, w: set<object>)
    reads Foot(s) - w
  {
    match s
    case SLeaf(_) => true
    case SList(l, items) =>
      && (forall i :: 0 <= i < |items| ==> HeldOutside(items[i], w))
      && (l !in w ==> |l.items| == |items| && forall i :: 0 <= i < |items| ==> l.items[i] == Top(items[i]))
    case SDict(d, entries) =>
      && (forall k <- entries :: HeldOutside(entries[k], w))
      && (d !in w ==> d.entries.Keys == entries.Keys && forall k <- entries :: d.entries[k] == Top(entries[k]))
  }

  lemma {:induction false} HeldIsHeldOutside(s: Shape, w: set<object>)
    requires InHeap(s)
    ensures HeldOutside(s, w)
  {
    match s {
      case SLeaf(_) =>
      case SList(_, items) =>
        forall i | 0 <= i < |items| ensures HeldOutside(items[i], w) { HeldIsHeldOutside(items[i], w); }
      case SDict(_, entries) =>
        forall k <- entries ensures HeldOutside(entries[k], w) { HeldIsHeldOutside(entries[k], w); }
    }
  }

  lemma {:induction false} HeldOutsideIsHeld(s: Shape, w: set<object>)
    requires HeldOutside(s, w) && Foot(s) !! w
    ensures InHeap(s)
  {
    match s {
      case SLeaf(_) =>
      case SList(l, items) =>
        assert l in Foot(s);
        forall i | 0 <= i < |items| ensures InHeap(items[i]) {
          assert Foot(items[i]) <= Foot(s);
          HeldOutsideIsHeld(items[i], w);
        }
      case SDict(d, entries) =>
        assert d in Foot(s);
        forall k <- entries ensures InHeap(entries[k]) {
          assert Foot(entries[k]) <= Foot(s);
          HeldOutsideIsHeld(entries[k], w);
        }
    }
  }

  /** Of the two shapes only what merging d into cur writes to is in w. */
  ghost predicate OnlyWritten(cur: Shape, s: Shape, d: Shape, w: set<object>) {
    w * (Foot(cur) + Foot(s)) <= Writes(cur, d)
  }

  lemma KidOnlyWritten(cur: Shape, s: Shape, d: Shape, k: string, w: set<object>)
    requires cur.SDict? && s.SDict? && d.SDict? && Aligned(cur, s) && !SameObject(cur, s) && Sep(cur)
    requires k in cur.entries && k in s.entries && k in d.entries
    requires OnlyWritten(cur, s, d, w)
    ensures OnlyWritten(cur.entries[k], s.entries[k], d.entries[k], w)
  {
    var c, e := cur.entries[k], d.entries[k];
    WritesUnder(cur, d, k);
    WritesInFoot(cur, d);
    assert Foot(c) <= Foot(cur) && Foot(s.entries[k]) <= Foot(s);
    assert forall o <- Foot(c) + Foot(s.entries[k]) :: o in Writes(cur, d) ==> o in Writes(c, e);
  }

  lemma KidMerged(cur: Shape, s: Shape, d: Shape, k: string, w: set<object>)
    requires cur.SDict? && d.SDict? && HeldOutside(cur, w) && Sep(cur) && k in cur.entries && k in d.entries
    requires OnlyWritten(cur, s, d, w) && InHeap(InPlace(cur, d))
    ensures InHeap(InPlace(cur.entries[k], d.entries[k]))
  {
    var c, e := cur.entries[k], d.entries[k];
    if Mergeable(Erase(c), Erase(e)) {
      assert Mergeable(Erase(cur), Erase(d)) && MergeKid(cur, d, k) == MergeS(c, e) == InPlace(c, e);
      assert InPlace(cur, d).entries[k] == MergeKid(cur, d, k);
    } else {
      WritesUnder(cur, d, k);
      assert Writes(c, e) == {} && Foot(c) <= Foot(cur);
      HeldOutsideIsHeld(c, w);
    }
  }

  /** After the merge, which wrote to w only, the heap holds the override as Stepped says. */
  lemma {:induction false} SteppedInHeap(cur: Shape, s: Shape, d: Shape, w: set<object>)
    requires HeldOutside(cur, w) && HeldOutside(s, w) && Aligned(cur, s) && Fresh3(cur, s, d)
    requires OnlyWritten(cur, s, d, w) && InHeap(InPlace(cur, d))
    ensures InHeap(Stepped(cur, s, d))
    decreases s, 1
  {
    if SameObject(cur, s) {
      assert Stepped(cur, s, d) == InPlace(cur, d);
    } else if cur.SDict? && s.SDict? && d.SDict? {
      WritesInFoot(cur, d);
      assert s.dict in Foot(s) && s.dict !in w;
      forall k | k in s.entries
        ensures Top(SteppedKid(cur, s, d, k)) == Top(s.entries[k])
        ensures InHeap(SteppedKid(cur, s, d, k))
      {
        SteppedKidFoot(cur, s, d, k);
        KidInHeap(cur, s, d, k, w);
      }
    } else {
      SafeFromWrites(cur, s, d);
      HeldOutsideIsHeld(s, w);
    }
  }

  lemma {:induction false} KidInHeap(cur: Shape, s: Shape, d: Shape, k: string, w: set<object>)
    requires cur.SDict? && s.SDict? && d.SDict? && !SameObject(cur, s) && k in s.entries
    requires HeldOutside(cur, w) && HeldOutside(s, w) && Aligned(cur, s) && Fresh3(cur, s, d)
    requires OnlyWritten(cur, s, d, w) && InHeap(InPlace(cur, d))
    ensures InHeap(SteppedKid(cur, s, d, k))
    decreases s, 0
  {
    assert Foot(s.entries[k]) <= Foot(s);
    if k in cur.entries && k in d.entries {
      Fresh3Kids(cur, s, d, k);
      KidOnlyWritten(cur, s, d, k, w);
      KidMerged(cur, s, d, k, w);
      SteppedInHeap(cur.entries[k], s.entries[k], d.entries[k], w);
    } else {
      KidSafeFromWrites(cur, s, d, k);
      HeldOutsideIsHeld(s.entries[k], w);
    }
  }
}
