/** copy.deepcopy on the dict and list objects of MergeHeap. */
module DeepCopies {
  import opened MergeTrees
  import opened MergeHeap

  ghost predicate Held(v: Val, s: Shape)
    reads Foot(s)
  {
    v == Top(s) && InHeap(s) && Sep(s)
  }

  /** copy.deepcopy of a tree: new objects throughout. */
  method DeepCopy(v: Val, ghost s: Shape) returns (c: Val, ghost copy: Shape)
    requires Held(v, s)
    ensures Held(c, copy) && Erase(copy) == Erase(s) && fresh(Foot(copy))
    decreases s, 2
  {
    match v {
      case Scalar(_) => return v, s;
      case ListRef(l) => c, copy := CopyList(l, s);
      case DictRef(d) => c, copy := CopyDict(d, s);
    }
  }

  method CopyKeeping(v: Val, ghost s: Shape, ghost kept: set<Shape>) returns (c: Val, ghost copy: Shape)
    requires Held(v, s) && forall t <- kept :: InHeap(t)
    ensures Held(c, copy) && Erase(copy) == Erase(s) && fresh(Foot(copy))
    ensures forall t <- kept :: InHeap(t) && Foot(t) !! Foot(copy)
    decreases s, 3
  {
    forall t | t in kept ensures forall o <- Foot(t) :: allocated(o) { InHeapIsAllocated(t); }
    c, copy := DeepCopy(v, s);
    forall t | t in kept ensures InHeap(t) { Framed(t); }
  }

  /** The copied kids, in step with the originals. */
  ghost predicate Copies(items: seq<Val>, kids: seq<Shape>, trees: seq<Tree>) {
    && |items| == |kids| <= |trees|
    && (forall i :: 0 <= i < |kids| ==> items[i] == Top(kids[i]) && Sep(kids[i]) && Erase(kids[i]) == trees[i])
    && (forall i, j :: 0 <= i < j < |kids| ==> Foot(kids[i]) !! Foot(kids[j]))
  }

  lemma CopiesMore(items: seq<Val>, kids: seq<Shape>, trees: seq<Tree>, kid: Shape)
    requires Copies(items, kids, trees) && |kids| < |trees|
    requires Sep(kid) && Erase(kid) == trees[|kids|] && forall i :: 0 <= i < |kids| ==> Foot(kids[i]) !! Foot(kid)
    ensures Copies(items + [Top(kid)], kids + [kid], trees)
  {
  }

  method CopyList(l: PyList, ghost s: Shape) returns (c: Val, ghost copy: Shape)
    requires Held(ListRef(l), s)
    ensures Held(c, copy) && Erase(copy) == Erase(s) && fresh(Foot(copy))
    decreases s, 1
  {
    var items;
    ghost var kids, held;
    items, kids, held := CopyItems(l.items, s);
    c, copy := MakeList(items, kids, Erase(s).items, held);
    assert Erase(copy).items == Erase(s).items;
  }

  method CopyItems(from: seq<Val>, ghost s: Shape)
    returns (items: seq<Val>, ghost kids: seq<Shape>, ghost held: set<Shape>)
    requires s.SList? && |from| == |s.items| && forall i :: 0 <= i < |from| ==> Held(from[i], s.items[i])
    ensures |kids| == |s.items| && Copies(items, kids, Erase(s).items)
    ensures forall t <- held :: InHeap(t)
    ensures forall i :: 0 <= i < |kids| ==> kids[i] in held && fresh(Foot(kids[i]))
    decreases s, 0
  {
    ghost var originals, trees := s.items, Erase(s).items;
    held := set t | t in originals;
    assert forall i :: 0 <= i < |from| ==> from[i] == Top(originals[i]) && Sep(originals[i]) && originals[i] in held;
    items, kids := [], [];
    while |items| < |from|
      invariant Copies(items, kids, trees)
      invariant forall i :: 0 <= i < |from| ==> originals[i] in held
      invariant forall t <- held :: InHeap(t)
      invariant forall i :: 0 <= i < |kids| ==> kids[i] in held && fresh(Foot(kids[i]))
    {
      var n := |items|;
      assert Held(from[n], originals[n]);
      var v, kid := CopyKeeping(from[n], originals[n], held);
      CopiesMore(items, kids, trees, kid);
      items, kids, held := items + [v], kids + [kid], held + {kid};
    }
  }

  method MakeList(items: seq<Val>, ghost kids: seq<Shape>, ghost trees: seq<Tree>, ghost held: set<Shape>)
    returns (c: Val, ghost copy: Shape)
    requires Copies(items, kids, trees) && forall t <- held :: InHeap(t)
    requires forall i :: 0 <= i < |kids| ==> kids[i] in held
    ensures copy.SList? && copy.items == kids && Held(c, copy) && fresh(copy.list)
  {
    forall t | t in held ensures forall o <- Foot(t) :: allocated(o) { InHeapIsAllocated(t); }
    var l' := new PyList(items);
    c, copy := ListRef(l'), SList(l', kids);
    forall t | t in held ensures InHeap(t) && l' !in Foot(t) { Framed(t); }
  }

  ghost predicate CopiesAt(entries: map<string, Val>, kids: map<string, Shape>, trees: map<string, Tree>) {
    && entries.Keys == kids.Keys <= trees.Keys
    && (forall k <- kids :: entries[k] == Top(kids[k]) && Sep(kids[k]) && Erase(kids[k]) == trees[k])
    && (forall k, m | k in kids && m in kids && k != m :: Foot(kids[k]) !! Foot(kids[m]))
  }

  lemma CopiesAtMore(entries: map<string, Val>, kids: map<string, Shape>, trees: map<string, Tree>, k: string,
                     kid: Shape)
    requires CopiesAt(entries, kids, trees) && k in trees && k !in kids
    requires Sep(kid) && Erase(kid) == trees[k] && forall m <- kids :: Foot(kids[m]) !! Foot(kid)
    ensures CopiesAt(entries[k := Top(kid)], kids[k := kid], trees)
  {
  }

  method CopyDict(d: PyDict, ghost s: Shape) returns (c: Val, ghost copy: Shape)
    requires Held(DictRef(d), s)
    ensures Held(c, copy) && Erase(copy) == Erase(s) && fresh(Foot(copy))
    decreases s, 1
  {
    var entries;
    ghost var kids, held;
    entries, kids, held := CopyEntries(d.entries, s);
    c, copy := MakeDict(entries, kids, Erase(s).entries, held);
    SameTree(entries, s, copy);
  }

  lemma SameTree(entries: map<string, Val>, s: Shape, copy: Shape)
    requires s.SDict? && copy.SDict? && copy.entries.Keys == s.entries.Keys
    requires CopiesAt(entries, copy.entries, Erase(s).entries)
    ensures Erase(copy) == Erase(s)
  {
    var c, e := Erase(copy).entries, Erase(s).entries;
    forall k | k in copy.entries ensures c[k] == e[k] {}
    assert c == e;
  }

  method CopyEntries(from: map<string, Val>, ghost s: Shape)
    returns (entries: map<string, Val>, ghost kids: map<string, Shape>, ghost held: set<Shape>)
    requires s.SDict? && from.Keys == s.entries.Keys && forall k <- s.entries :: Held(from[k], s.entries[k])
    ensures kids.Keys == s.entries.Keys && CopiesAt(entries, kids, Erase(s).entries)
    ensures forall t <- held :: InHeap(t)
    ensures forall k <- kids :: kids[k] in held && fresh(Foot(kids[k]))
    decreases s, 0
  {
    ghost var originals, trees := s.entries, Erase(s).entries;
    held := originals.Values;
    OriginalsHeld(from, s);
    entries, kids := map[], map[];
    var todo := from.Keys;
    while todo != {}
      invariant CopiesAt(entries, kids, trees)
      invariant todo <= from.Keys && kids.Keys == from.Keys - todo
      invariant (forall k <- originals :: originals[k] in held) && forall t <- held :: InHeap(t)
      invariant forall k <- kids :: kids[k] in held && fresh(Foot(kids[k]))
    {
      var k :| k in todo;
      var v, kid := CopyKeeping(from[k], originals[k], held);
      CopiesAtMore(entries, kids, trees, k, kid);
      entries, kids, held, todo := entries[k := v], kids[k := kid], held + {kid}, todo - {k};
    }
  }

  lemma OriginalsHeld(from: map<string, Val>, s: Shape)
    requires s.SDict? && from.Keys == s.entries.Keys && forall k <- s.entries :: Held(from[k], s.entries[k])
    ensures forall k <- s.entries :: from[k] == Top(s.entries[k]) && Sep(s.entries[k])
    ensures (forall k <- s.entries :: s.entries[k] in s.entries.Values) && forall t <- s.entries.Values :: InHeap(t)
  {
  }

  method MakeDict(entries: map<string, Val>, ghost kids: map<string, Shape>, ghost trees: map<string, Tree>,
                  ghost held: set<Shape>)
    returns (c: Val, ghost copy: Shape)
    requires CopiesAt(entries, kids, trees) && forall t <- held :: InHeap(t)
    requires forall k <- kids :: kids[k] in held
    ensures copy.SDict? && copy.entries == kids && Held(c, copy) && fresh(copy.dict)
  {
    forall t | t in held ensures forall o <- Foot(t) :: allocated(o) { InHeapIsAllocated(t); }
    var d' := new PyDict(entries);
    c, copy := DictRef(d'), SDict(d', kids);
    forall t | t in held ensures InHeap(t) && d' !in Foot(t) { Framed(t); }
  }
}
