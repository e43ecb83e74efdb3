/** merge_dicts as it runs (init_suite.py): in place, on dict and list objects that can come
    to be shared. */
module MergeHeap {
  import opened MergeTrees

  class PyDict {
    var entries: map<string, Val>
    constructor (entries: map<string, Val>)
      ensures this.entries == entries
    {
      this.entries := entries;
    }
  }

  class PyList {
    var items: seq<Val>
    constructor (items: seq<Val>)
      ensures this.items == items
    {
      this.items := items;
    }
  }

  datatype Val = Scalar(value: int) | ListRef(list: PyList) | DictRef(dict: PyDict)

  /** A tree together with the objects that hold it. */
  datatype Shape =
    | SLeaf(value: int)
    | SList(list: PyList, items: seq<Shape>)
    | SDict(dict: PyDict, entries: map<string, Shape>)

  ghost function Top(s: Shape): Val {
    match s case SLeaf(v) => Scalar(v) case SList(l, _) => ListRef(l) case SDict(d, _) => DictRef(d)
  }

  ghost function Erase(s: Shape): Tree {
    match s
    case SLeaf(v) => Leaf(v)
    case SList(_, items) => List(seq(|items|, i requires 0 <= i < |items| => Erase(items[i])))
    case SDict(_, entries) => Dict(map k | k in entries :: Erase(entries[k]))
  }

  /** The objects of a shape. */
  ghost function Foot(s: Shape): set<object> {
    match s
    case SLeaf(_) => {}
    case SList(l, items) => {l as object} + set i, o | 0 <= i < |items| && o in Foot(items[i]) :: o
    case SDict(d, entries) => {d as object} + set k, o | k in entries && o in Foot(entries[k]) :: o
  }

  /** The heap holds the shape. */
  ghost predicate InHeap(s: Shape)
    reads Foot(s)
  {
    match s
    case SLeaf(_) => true
    case SList(l, items) =>
      && |l.items| == |items|
      && forall i :: 0 <= i < |items| ==> l.items[i] == Top(items[i]) && InHeap(items[i])
    case SDict(d, entries) =>
      && d.entries.Keys == entries.Keys
      && forall k <- entries :: d.entries[k] == Top(entries[k]) && InHeap(entries[k])
  }

  /** No object is used twice. */
  ghost predicate Sep(s: Shape) {
    match s
    case SLeaf(_) => true
    case SList(l, items) =>
      && (forall i :: 0 <= i < |items| ==> Sep(items[i]) && l !in Foot(items[i]))
      && (forall i, j :: 0 <= i < j < |items| ==> Foot(items[i]) !! Foot(items[j]))
    case SDict(d, entries) =>
      && (forall k <- entries :: Sep(entries[k]) && d !in Foot(entries[k]))
      && (forall k, m | k in entries && m in entries && k != m :: Foot(entries[k]) !! Foot(entries[m]))
  }

  /** The shape merge_dicts leaves: its left argument's objects where it merges, and the
      right argument's own objects where it stores. */
  ghost function MergeS(a: Shape, b: Shape): Shape
    decreases a, 1
  {
    if a.SList? && b.SList? then SList(a.list, a.items + b.items)
    else if a.SDict? && b.SDict? then
      SDict(a.dict, map k | k in a.entries.Keys + b.entries.Keys :: MergeKid(a, b, k))
    else b
  }

  ghost function MergeKid(a: Shape, b: Shape, k: string): Shape
    requires a.SDict? && b.SDict? && (k in a.entries || k in b.entries)
    decreases a, 0
  {
    if k !in b.entries then a.entries[k]
    else if k !in a.entries then b.entries[k]
    else MergeS(a.entries[k], b.entries[k])
  }

  /** What the left object holds afterwards, whatever the caller does with the result. */
  ghost function InPlace(a: Shape, b: Shape): Shape {
    if Mergeable(Erase(a), Erase(b)) then MergeS(a, b) else a
  }

  /** The objects merge_dicts writes to. */
  ghost function Writes(a: Shape, b: Shape): set<object> {
    if a.SList? && b.SList? then {a.list as object}
    else if a.SDict? && b.SDict? then
      {a.dict as object}
      + set k, o | k in a.entries && k in b.entries && o in Writes(a.entries[k], b.entries[k]) :: o
    else {}
  }

  lemma {:induction false} WritesInFoot(a: Shape, b: Shape)
    ensures Writes(a, b) <= Foot(a)
  {
    if a.SDict? && b.SDict? {
      forall k | k in a.entries && k in b.entries ensures Writes(a.entries[k], b.entries[k]) <= Foot(a.entries[k]) {
        WritesInFoot(a.entries[k], b.entries[k]);
      }
    }
  }

  lemma {:induction false} EraseMerge(a: Shape, b: Shape)
    ensures Erase(MergeS(a, b)) == Merge(Erase(a), Erase(b))
  {
    if a.SDict? && b.SDict? {
      forall k | k in a.entries && k in b.entries
        ensures Erase(MergeKid(a, b, k)) == Merge(Erase(a.entries[k]), Erase(b.entries[k]))
      {
        EraseMerge(a.entries[k], b.entries[k]);
      }
      assert Erase(MergeS(a, b)).entries == Merge(Erase(a), Erase(b)).entries;
    } else if a.SList? && b.SList? {
      assert Erase(MergeS(a, b)).items == Merge(Erase(a), Erase(b)).items;
    }
  }

  lemma {:induction false} MergeFoot(a: Shape, b: Shape)
    ensures Foot(MergeS(a, b)) <= Foot(a) + Foot(b)
    decreases a, 1
  {
    if a.SDict? && b.SDict? {
      forall k | k in a.entries || k in b.entries ensures Foot(MergeKid(a, b, k)) <= Foot(a) + Foot(b) {
        KidFoot(a, b, k);
      }
    } else if a.SList? && b.SList? {
      var all := a.items + b.items;
      forall i | 0 <= i < |all| ensures Foot(all[i]) <= Foot(a) + Foot(b) {
        if i < |a.items| { assert all[i] == a.items[i]; } else { assert all[i] == b.items[i - |a.items|]; }
      }
    }
  }

  ghost function KidFeet(s: Shape, k: string): set<object>
    requires s.SDict?
  {
    if k in s.entries then Foot(s.entries[k]) else {}
  }

  lemma {:induction false} KidFoot(a: Shape, b: Shape, k: string)
    requires a.SDict? && b.SDict? && (k in a.entries || k in b.entries)
    ensures Foot(MergeKid(a, b, k)) <= KidFeet(a, k) + KidFeet(b, k)
    ensures KidFeet(a, k) <= Foot(a) && KidFeet(b, k) <= Foot(b)
    decreases a, 0
  {
    if k in a.entries && k in b.entries { MergeFoot(a.entries[k], b.entries[k]); }
  }

  lemma {:induction false} MergeSep(a: Shape, b: Shape)
    requires Sep(a) && Sep(b) && Foot(a) !! Foot(b)
    ensures Sep(MergeS(a, b))
  {
    if a.SDict? && b.SDict? {
      forall k | k in a.entries || k in b.entries
        ensures Sep(MergeKid(a, b, k)) && a.dict !in Foot(MergeKid(a, b, k))
      {
        KidFoot(a, b, k);
        if k in a.entries && k in b.entries { MergeSep(a.entries[k], b.entries[k]); }
      }
      forall k, m | (k in a.entries || k in b.entries) && (m in a.entries || m in b.entries) && k != m
        ensures Foot(MergeKid(a, b, k)) !! Foot(MergeKid(a, b, m))
      {
        KidFoot(a, b, k);
        KidFoot(a, b, m);
      }
    } else if a.SList? && b.SList? {
      var all := a.items + b.items;
      forall i | 0 <= i < |all| ensures Sep(all[i]) && a.list !in Foot(all[i]) {
        ListKid(a, b, i);
      }
      forall i, j | 0 <= i < j < |all| ensures Foot(all[i]) !! Foot(all[j]) {
        ListKid(a, b, i);
        ListKid(a, b, j);
      }
    }
  }

  lemma ListKid(a: Shape, b: Shape, i: nat)
    requires a.SList? && b.SList? && i < |a.items| + |b.items|
    ensures var kid := (a.items + b.items)[i];
            if i < |a.items| then kid == a.items[i] && Foot(kid) <= Foot(a)
            else kid == b.items[i - |a.items|] && Foot(kid) <= Foot(b)
  {
  }

  ghost predicate Apart(a: Shape, b: Shape) { Sep(a) && Sep(b) && Foot(a) !! Foot(b) }

  /** a with the keys of b merged in, except those in `todo`. */
  ghost function Partly(a: Shape, b: Shape, todo: set<string>): Shape
    requires a.SDict? && b.SDict?
  {
    SDict(a.dict, map k | k in a.entries.Keys + (b.entries.Keys - todo) ::
                    if k in todo then a.entries[k] else MergeKid(a, b, k))
  }

  /** The heap shape after one key of b was merged into or stored in `cur`. */
  ghost function WithKey(cur: Shape, b: Shape, k: string): Shape
    requires cur.SDict? && b.SDict? && k in b.entries
  {
    SDict(cur.dict, cur.entries[k := if k in cur.entries then MergeS(cur.entries[k], b.entries[k]) else b.entries[k]])
  }

  lemma PartlySteps(a: Shape, b: Shape, todo: set<string>, k: string)
    requires a.SDict? && b.SDict? && todo <= b.entries.Keys
    ensures todo == {} ==> Partly(a, b, todo) == MergeS(a, b)
    ensures todo == b.entries.Keys ==> Partly(a, b, todo) == a
    ensures k in todo ==> Partly(a, b, todo - {k}) == WithKey(Partly(a, b, todo), b, k)
  {
    assert todo == {} ==> Partly(a, b, todo).entries == MergeS(a, b).entries;
    assert todo == b.entries.Keys ==> Partly(a, b, todo).entries == a.entries;
    assert k in todo ==> Partly(a, b, todo - {k}).entries == WithKey(Partly(a, b, todo), b, k).entries;
  }

  /** While keys are still to do, their parts of b are not yet shared. */
  lemma PartlyApart(a: Shape, b: Shape, todo: set<string>, k: string)
    requires a.SDict? && b.SDict? && Apart(a, b) && k in todo && todo <= b.entries.Keys
    ensures Sep(Partly(a, b, todo)) && Foot(Partly(a, b, todo)) !! Foot(b.entries[k])
    ensures k in a.entries ==> k in Partly(a, b, todo).entries && Partly(a, b, todo).entries[k] == a.entries[k]
  {
    var p := Partly(a, b, todo);
    forall j | j in p.entries
      ensures Sep(p.entries[j]) && a.dict !in Foot(p.entries[j]) && Foot(p.entries[j]) !! Foot(b.entries[k])
      ensures Foot(p.entries[j]) <= KidFeet(a, j) + KidFeet(b, j)
    {
      KidFoot(a, b, j);
      if j !in todo && j in a.entries && j in b.entries { MergeSep(a.entries[j], b.entries[j]); }
    }
    forall j, m | j in p.entries && m in p.entries && j != m
      ensures Foot(p.entries[j]) !! Foot(p.entries[m])
    {
      assert KidFeet(a, j) !! KidFeet(a, m) && KidFeet(b, j) !! KidFeet(b, m);
      assert KidFeet(a, j) !! KidFeet(b, m) && KidFeet(b, j) !! KidFeet(a, m) by {
        KidFoot(a, b, j);
        KidFoot(a, b, m);
      }
    }
  }

  lemma {:induction false} InHeapIsAllocated(s: Shape)
    requires InHeap(s)
    ensures forall o <- Foot(s) :: allocated(o)
  {
    if s.SList? {
      forall i | 0 <= i < |s.items| ensures forall o <- Foot(s.items[i]) :: allocated(o) {
        InHeapIsAllocated(s.items[i]);
      }
    } else if s.SDict? {
      forall k | k in s.entries ensures forall o <- Foot(s.entries[k]) :: allocated(o) {
        InHeapIsAllocated(s.entries[k]);
      }
    }
  }

  /** A shape none of whose objects was written to is still in the heap. */
  twostate lemma Framed(s: Shape)
    requires old(InHeap(s)) && forall o <- Foot(s) :: old(allocated(o)) && unchanged(o)
    ensures InHeap(s)
  {
  }

  method ExtendList(l1: PyList, l2: PyList, ghost a: Shape, ghost b: Shape)
    requires a.SList? && b.SList? && a.list == l1 && b.list == l2
    requires InHeap(a) && InHeap(b) && Apart(a, b)
    modifies l1
    ensures InHeap(MergeS(a, b)) && InHeap(b)
    ensures l1.items == old(l1.items) + old(l2.items)
  {
    InHeapIsAllocated(a);
    InHeapIsAllocated(b);
    l1.items := l1.items + l2.items;
    Framed(b);
    forall i | 0 <= i < |a.items| + |b.items|
      ensures l1.items[i] == Top((a.items + b.items)[i]) && InHeap((a.items + b.items)[i])
    {
      ListKid(a, b, i);
      Framed((a.items + b.items)[i]);
    }
  }

  /** All entries but one are in the heap, and what they are made of. */
  ghost predicate OthersHeld(cur: Shape, k: string)
    requires cur.SDict?
    reads Foot(cur)
  {
    forall j <- cur.entries :: j != k ==> InHeap(cur.entries[j])
  }

  lemma EntryReady(cur: Shape, b: Shape, k: string)
    requires cur.SDict? && b.SDict? && k in b.entries && k in cur.entries
    requires InHeap(cur) && Sep(cur) && InHeap(b) && Sep(b)
    requires Foot(cur) !! Foot(b.entries[k])
    ensures InHeap(cur.entries[k]) && InHeap(b.entries[k]) && Apart(cur.entries[k], b.entries[k])
    ensures OthersHeld(cur, k) && cur.dict !in Foot(cur.entries[k])
    ensures forall j <- cur.entries :: j != k ==> Foot(cur.entries[j]) !! Foot(cur.entries[k])
  {
  }

  ghost function OtherEntries(cur: Shape, k: string): set<Shape>
    requires cur.SDict?
  {
    set j | j in cur.entries && j != k :: cur.entries[j]
  }

  lemma OthersReady(cur: Shape, b: Shape, k: string)
    requires cur.SDict? && b.SDict? && k in b.entries && k in cur.entries
    requires InHeap(cur) && Sep(cur) && InHeap(b) && Foot(cur.entries[k]) !! Foot(b)
    ensures forall s <- OtherEntries(cur, k) + {b} :: InHeap(s) && Foot(s) !! Writes(cur.entries[k], b.entries[k])
    ensures cur.dict !in Writes(cur.entries[k], b.entries[k])
  {
    WritesInFoot(cur.entries[k], b.entries[k]);
  }

  /** merge_dicts leaves the shapes as they are none of whose objects it writes to. */
  method MergeKeeping(v1: Val, v2: Val, ghost a: Shape, ghost b: Shape, ghost kept: set<Shape>) returns (r: Val)
    requires v1 == Top(a) && v2 == Top(b)
    requires InHeap(a) && InHeap(b) && Apart(a, b)
    requires forall s <- kept :: InHeap(s) && Foot(s) !! Writes(a, b)
    modifies Writes(a, b)
    ensures r == Top(MergeS(a, b)) && InHeap(MergeS(a, b)) && InHeap(b) && InHeap(InPlace(a, b))
    ensures forall s <- kept :: InHeap(s)
    decreases b, 4
  {
    forall s | s in kept ensures forall o <- Foot(s) :: allocated(o) { InHeapIsAllocated(s); }
    r := MergeDicts(v1, v2, a, b);
    forall s | s in kept ensures InHeap(s) { Framed(s); }
  }

  /** The recursive call of one turn: nothing but the entry under k changes. */
  method MergeEntry(v1: Val, v2: Val, k: string, ghost cur: Shape, ghost b: Shape) returns (merged: Val)
    requires cur.SDict? && b.SDict? && k in b.entries && k in cur.entries
    requires v1 == Top(cur.entries[k]) && v2 == Top(b.entries[k])
    requires InHeap(cur) && Sep(cur) && InHeap(b) && Sep(b)
    requires Foot(cur.entries[k]) !! Foot(b) && Foot(cur) !! Foot(b.entries[k])
    modifies Writes(cur.entries[k], b.entries[k])
    ensures merged == Top(MergeS(cur.entries[k], b.entries[k]))
    ensures InHeap(MergeS(cur.entries[k], b.entries[k]))
    ensures InHeap(b)
    ensures OthersHeld(cur, k)
    ensures unchanged(cur.dict)
    decreases b, 0
  {
    EntryReady(cur, b, k);
    OthersReady(cur, b, k);
    assert OthersHeld(cur, k) ==> forall j <- cur.entries :: j != k ==> cur.entries[j] in OtherEntries(cur, k);
    merged := MergeKeeping(v1, v2, cur.entries[k], b.entries[k], OtherEntries(cur, k) + {b});
  }

  /** One turn of the loop over the right dict. */
  method MergeKey(d1: PyDict, d2: PyDict, k: string, ghost cur: Shape, ghost b: Shape, ghost writable: set<object>)
    requires cur.SDict? && b.SDict? && cur.dict == d1 && b.dict == d2 && k in b.entries
    requires InHeap(cur) && Sep(cur) && InHeap(b) && Sep(b)
    requires Foot(cur) !! Foot(b.entries[k]) && d1 !in Foot(b) && (k in cur.entries ==> Foot(cur.entries[k]) !! Foot(b))
    requires d1 in writable && (k in cur.entries ==> Writes(cur.entries[k], b.entries[k]) <= writable)
    modifies writable
    ensures InHeap(b) && InHeap(WithKey(cur, b, k))
    decreases b, 1
  {
    if k in d1.entries {
      var merged := MergeEntry(d1.entries[k], d2.entries[k], k, cur, b);
      MergeFoot(cur.entries[k], b.entries[k]);
      StoreEntry(d1, k, merged, cur, MergeS(cur.entries[k], b.entries[k]), b);
    } else {
      StoreEntry(d1, k, d2.entries[k], cur, b.entries[k], b);
    }
  }

  method StoreEntry(d1: PyDict, k: string, v: Val, ghost cur: Shape, ghost kid: Shape, ghost b: Shape)
    requires cur.SDict? && cur.dict == d1 && Sep(cur) && OthersHeld(cur, k)
    requires d1.entries.Keys == cur.entries.Keys && forall j <- cur.entries :: d1.entries[j] == Top(cur.entries[j])
    requires v == Top(kid) && InHeap(kid) && d1 !in Foot(kid)
    requires InHeap(b) && d1 !in Foot(b)
    modifies d1
    ensures InHeap(b) && InHeap(SDict(d1, cur.entries[k := kid]))
  {
    d1.entries := d1.entries[k := v];
  }

  /** merge_dicts on the heap. Only dicts and lists of the left tree that meet one of their kind
      on the right are written to; the right tree stays as it is, and its stored parts are now
      shared with the result. */
  method MergeDicts(v1: Val, v2: Val, ghost a: Shape, ghost b: Shape) returns (r: Val)
    requires v1 == Top(a) && v2 == Top(b)
    requires InHeap(a) && InHeap(b) && Apart(a, b)
    modifies Writes(a, b)
    ensures r == Top(MergeS(a, b))
    ensures InHeap(MergeS(a, b)) && InHeap(b) && InHeap(InPlace(a, b))
    ensures v1.ListRef? && v2.ListRef? ==> v1.list.items == old(v1.list.items) + old(v2.list.items)
    ensures v1.DictRef? && v2.DictRef? ==> TakesOver(v1.dict.entries, old(v1.dict.entries), old(v2.dict.entries))
    decreases b, 3
  {
    if v1.ListRef? && v2.ListRef? {
      ExtendList(v1.list, v2.list, a, b);
      return v1;
    }
    if !v1.DictRef? || !v2.DictRef? { return v2; }
    ghost var was, from := v1.dict.entries, v2.dict.entries;
    MergeEntries(v1.dict, v2.dict, a, b);
    MergedTakesOver(a, b, v1.dict.entries, was, from);
    return v1;
  }

  /** A dict after merging: its keys are those of both, and what only one side had is that side's. */
  ghost predicate TakesOver(now: map<string, Val>, was: map<string, Val>, from: map<string, Val>) {
    && now.Keys == was.Keys + from.Keys
    && (forall k <- was.Keys - from.Keys :: now[k] == was[k])
    && (forall k <- from.Keys - was.Keys :: now[k] == from[k])
  }

  ghost predicate Tops(entries: map<string, Val>, kids: map<string, Shape>) {
    entries.Keys == kids.Keys && forall k <- kids :: entries[k] == Top(kids[k])
  }

  lemma MergedTakesOver(a: Shape, b: Shape, now: map<string, Val>, was: map<string, Val>, from: map<string, Val>)
    requires a.SDict? && b.SDict? && Tops(was, a.entries) && Tops(from, b.entries)
    requires Tops(now, MergeS(a, b).entries)
    ensures TakesOver(now, was, from)
  {
    var m := MergeS(a, b).entries;
    forall k | k in was || k in from
      ensures k in now && (k !in from ==> now[k] == was[k]) && (k !in was ==> now[k] == from[k])
    {
      assert k in m && m[k] == MergeKid(a, b, k) && now[k] == Top(m[k]);
    }
  }

  lemma WritesEntry(a: Shape, b: Shape, k: string)
    requires a.SDict? && b.SDict? && k in b.entries
    ensures a.dict in Writes(a, b) && (k in a.entries ==> Writes(a.entries[k], b.entries[k]) <= Writes(a, b))
  {
  }

  method MergeEntries(d1: PyDict, d2: PyDict, ghost a: Shape, ghost b: Shape)
    requires a.SDict? && b.SDict? && a.dict == d1 && b.dict == d2
    requires InHeap(a) && InHeap(b) && Apart(a, b)
    modifies Writes(a, b)
    ensures InHeap(MergeS(a, b)) && InHeap(b)
    decreases b, 2
  {
    var todo := d2.entries.Keys;
    PartlySteps(a, b, todo, "");
    while todo != {}
      invariant todo <= b.entries.Keys == d2.entries.Keys
      invariant InHeap(b) && InHeap(Partly(a, b, todo))
    {
      var k :| k in todo;
      PartlySteps(a, b, todo, k);
      PartlyApart(a, b, todo, k);
      WritesEntry(a, b, k);
      MergeKey(d1, d2, k, Partly(a, b, todo), b, Writes(a, b));
      todo := todo - {k};
    }
    PartlySteps(a, b, {}, "");
  }
}
