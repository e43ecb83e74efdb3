/** The objects that config and override share, against the value model of Sharing. */
module SharedTies {
  import opened MergeTrees
  import opened MergeHeap
  import opened Sharing
  import opened SharedShapes

  /** Which parts of the override s are objects of the config. */
  ghost function TieS(cur: Shape, s: Shape): Tie
    decreases s
  {
    if SameObject(cur, s) then Same
    else if cur.SDict? && s.SDict? then
      Kids(map k | k in s.entries && KidTie(cur, s, k) != NOTHING :: KidTie(cur, s, k))
    else NOTHING
  }

  ghost function KidTie(cur: Shape, s: Shape, k: string): Tie
    requires cur.SDict? && s.SDict? && k in s.entries
    decreases s, 0
  {
    if k in cur.entries then TieS(cur.entries[k], s.entries[k]) else NOTHING
  }

  lemma {:induction false} DisjointTie(cur: Shape, s: Shape)
    requires Foot(cur) !! Foot(s)
    ensures TieS(cur, s) == NOTHING
    decreases s
  {
    assert Own(cur) <= Foot(cur) && Own(s) <= Foot(s);
    if cur.SDict? && s.SDict? {
      forall k | k in s.entries ensures KidTie(cur, s, k) == NOTHING {
        if k in cur.entries {
          assert Foot(cur.entries[k]) <= Foot(cur) && Foot(s.entries[k]) <= Foot(s);
          DisjointTie(cur.entries[k], s.entries[k]);
        }
      }
    }
  }

  lemma NothingShared(s: Tree, d: Tree)
    ensures Remains(NOTHING, s, d) == s && Next(NOTHING, s, d) == NOTHING && Untouched(NOTHING, s, d)
  {
    if s.Dict? && d.Dict? { assert Remains(NOTHING, s, d).entries == s.entries; }
  }

  /** What a merge stores by reference is what TieOf says. */
  lemma {:induction false} MergeTie(a: Shape, b: Shape)
    requires Apart(a, b)
    ensures TieS(MergeS(a, b), b) == TieOf(Erase(a), Erase(b))
    decreases b
  {
    assert Own(a) <= Foot(a) && Own(b) <= Foot(b);
    if a.SDict? && b.SDict? {
      var cur := MergeS(a, b);
      forall k | k in b.entries ensures KidTie(cur, b, k) == EntryTie(Erase(a), Erase(b), k) {
        assert cur.entries[k] == MergeKid(a, b, k);
        if k in a.entries {
          ApartKids(a, b, k);
          MergeTie(a.entries[k], b.entries[k]);
        }
      }
      assert TieS(cur, b).ties == TieOf(Erase(a), Erase(b)).ties;
    }
  }

  /** The override's new value is what Remains says. */
  lemma {:induction false} SteppedErases(cur: Shape, s: Shape, d: Shape)
    requires Aligned(cur, s)
    ensures Erase(Stepped(cur, s, d)) == Remains(TieS(cur, s), Erase(s), Erase(d))
    decreases s, 2
  {
    if SameObject(cur, s) {
      EraseMerge(s, d);
    } else if cur.SDict? && s.SDict? && d.SDict? {
      DictsErase(cur, s, d);
    } else {
      NothingShared(Erase(s), Erase(d));
    }
  }

  lemma {:induction false} DictsErase(cur: Shape, s: Shape, d: Shape)
    requires cur.SDict? && s.SDict? && d.SDict? && !SameObject(cur, s) && Aligned(cur, s)
    ensures Erase(Stepped(cur, s, d)) == Remains(TieS(cur, s), Erase(s), Erase(d))
    decreases s, 1
  {
    var stepped, h := Stepped(cur, s, d), Remains(TieS(cur, s), Erase(s), Erase(d));
    forall k | k in s.entries ensures Erase(stepped.entries[k]) == h.entries[k] { KidErases(cur, s, d, k); }
    assert Erase(stepped).entries == h.entries;
  }

  lemma {:induction false} KidErases(cur: Shape, s: Shape, d: Shape, k: string)
    requires cur.SDict? && s.SDict? && d.SDict? && !SameObject(cur, s) && Aligned(cur, s) && k in s.entries
    ensures Erase(SteppedKid(cur, s, d, k)) == Remains(TieS(cur, s), Erase(s), Erase(d)).entries[k]
    decreases s, 0
  {
    var t := TieS(cur, s);
    assert KidTie(cur, s, k) == if k in t.ties then t.ties[k] else NOTHING;
    if k in cur.entries && k in d.entries {
      SteppedErases(cur.entries[k], s.entries[k], d.entries[k]);
      NothingShared(Erase(s.entries[k]), Erase(d.entries[k]));
    }
  }

  /** What is shared after the merge is what Next says. */
  lemma {:induction false} SteppedTie(cur: Shape, s: Shape, d: Shape)
    requires Aligned(cur, s) && Fresh3(cur, s, d)
    ensures TieS(MergeS(cur, d), Stepped(cur, s, d)) == Next(TieS(cur, s), Erase(s), Erase(d))
    decreases s, 2
  {
    assert Own(cur) <= Foot(cur) && Own(s) <= Foot(s) && Own(d) <= Foot(d);
    if SameObject(cur, s) {
      if !Mergeable(Erase(s), Erase(d)) { DisjointTie(d, s); }
    } else if cur.SDict? && s.SDict? && d.SDict? {
      DictsTie(cur, s, d);
    } else if cur.SDict? && s.SDict? {
      DisjointTie(d, s);
    } else if s.SDict? && d.SDict? {
      DisjointTie(d, s);
      NothingShared(Erase(s), Erase(d));
    }
  }

  lemma {:induction false} DictsTie(cur: Shape, s: Shape, d: Shape)
    requires cur.SDict? && s.SDict? && d.SDict? && !SameObject(cur, s) && Aligned(cur, s) && Fresh3(cur, s, d)
    ensures TieS(MergeS(cur, d), Stepped(cur, s, d)) == Next(TieS(cur, s), Erase(s), Erase(d))
    decreases s, 1
  {
    var a := TieS(MergeS(cur, d), Stepped(cur, s, d)).ties;
    var b := Next(TieS(cur, s), Erase(s), Erase(d)).ties;
    forall k ensures (k in a <==> k in b) && (k in a ==> a[k] == b[k]) {
      if k in s.entries { KidTieStep(cur, s, d, k); }
    }
    assert a == b;
  }

  lemma {:induction false} KidTieStep(cur: Shape, s: Shape, d: Shape, k: string)
    requires cur.SDict? && s.SDict? && d.SDict? && !SameObject(cur, s) && Aligned(cur, s) && Fresh3(cur, s, d)
    requires k in s.entries
    ensures var t := TieS(cur, s);
            KidTie(MergeS(cur, d), Stepped(cur, s, d), k) ==
            if k in t.ties then EntryNext(t, Erase(s), Erase(d), k) else NOTHING
    decreases s, 0
  {
    assert Stepped(cur, s, d).entries[k] == SteppedKid(cur, s, d, k);
    if k in cur.entries || k in d.entries { assert MergeS(cur, d).entries[k] == MergeKid(cur, d, k); }
    if k in cur.entries && k in d.entries {
      Fresh3Kids(cur, s, d, k);
      SteppedTie(cur.entries[k], s.entries[k], d.entries[k]);
      NothingShared(Erase(s.entries[k]), Erase(d.entries[k]));
    } else if k in d.entries {
      assert Foot(d.entries[k]) <= Foot(d) && Foot(s.entries[k]) <= Foot(s);
      DisjointTie(d.entries[k], s.entries[k]);
    }
  }

  // ----- what stays as it is -----------------------------------------------

  lemma {:induction false} AddsNothingKeeps(x: Shape, d: Shape)
    requires AddsNothing(Erase(x), Erase(d))
    ensures InPlace(x, d) == x
    decreases x, 1
  {
    if x.SDict? && d.SDict? {
      var m := MergeS(x, d).entries;
      forall k | k in m ensures k in x.entries && m[k] == x.entries[k] { KidKeeps(x, d, k); }
      assert m == x.entries;
    }
  }

  lemma {:induction false} KidKeeps(x: Shape, d: Shape, k: string)
    requires x.SDict? && d.SDict? && AddsNothing(Erase(x), Erase(d)) && (k in x.entries || k in d.entries)
    ensures k in x.entries && MergeKid(x, d, k) == x.entries[k]
    decreases x, 0
  {
    if k in d.entries {
      assert k in Erase(d).entries.Keys && k in Erase(x).entries;
      var a, b := x.entries[k], d.entries[k];
      assert Erase(x).entries[k] == Erase(a) && Erase(d).entries[k] == Erase(b);
      if Mergeable(Erase(a), Erase(b)) { AddsNothingKeeps(a, b); }
    }
  }

  lemma {:induction false} UntouchedKeeps(cur: Shape, s: Shape, d: Shape)
    requires Untouched(TieS(cur, s), Erase(s), Erase(d))
    ensures Stepped(cur, s, d) == s
    decreases s
  {
    if SameObject(cur, s) {
      AddsNothingKeeps(s, d);
    } else if cur.SDict? && s.SDict? && d.SDict? {
      var ties := TieS(cur, s).ties;
      forall k | k in s.entries ensures SteppedKid(cur, s, d, k) == s.entries[k] {
        if k in cur.entries && k in d.entries {
          NothingShared(Erase(s.entries[k]), Erase(d.entries[k]));
          assert KidTie(cur, s, k) == if k in ties.Keys then ties[k] else NOTHING;
          assert k in Erase(s).entries && k in Erase(d).entries;
          UntouchedKeeps(cur.entries[k], s.entries[k], d.entries[k]);
        }
      }
      assert Stepped(cur, s, d).entries == s.entries;
    }
  }

  /** A merge that has no effect on the config leaves the override alone. */
  lemma NoEffectKeeps(cur: Shape, s: Shape, d: Shape)
    requires Aligned(cur, s) && !Mergeable(Erase(cur), Erase(d))
    ensures InPlace(cur, d) == cur && Stepped(cur, s, d) == s
  {
  }
}
