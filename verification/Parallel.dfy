/** The `parallel` context manager (ceph/parallel.py). */
module Parallel {
  import opened Basics
  import opened Options

  // ----- the join loop -----------------------------------------------------

  /** list.remove: drop the first occurrence. */
  function RemoveFirst<T(==)>(s: seq<T>, x: T): seq<T> {
    if s == [] then [] else if s[0] == x then s[1..] else [s[0]] + RemoveFirst(s[1..], x)
  }

  lemma {:induction false} RemoveFirstAt<T>(s: seq<T>, i: nat)
    requires i < |s| && Distinct(s)
    ensures RemoveFirst(s, s[i]) == s[..i] + s[i + 1..]
  {
    if i > 0 {
      RemoveFirstAt(s[1..], i - 1);
      assert s[1..][i - 1] == s[i];
      assert s[..i] == [s[0]] + s[1..][..i - 1] && s[i + 1..] == s[1..][i..];
    }
  }

  /** What one `for _f in _not_done` pass leaves: removing an element under the
      iterator makes it skip the next one. */
  function Sweep<T>(s: seq<T>, done: T -> bool): seq<T> {
    if s == [] then []
    else if !done(s[0]) then [s[0]] + Sweep(s[1..], done)
    else if |s| == 1 then []
    else [s[1]] + Sweep(s[2..], done)
  }

  /** What the pass will leave, seen from position i of the list as it is now. */
  ghost predicate Sweeping<T>(now: seq<T>, i: nat, done: T -> bool, all: seq<T>) {
    if i <= |now| then now[..i] + Sweep(now[i..], done) == all else now == all
  }

  method SweepInPlace<T(==)>(futures: seq<T>, done: T -> bool) returns (notDone: seq<T>)
    requires Distinct(futures)
    ensures notDone == Sweep(futures, done)
  {
    notDone := futures;
    var i := 0;
    ghost var all := Sweep(futures, done);
    assert notDone[..0] == [] && notDone[0..] == notDone;
    while i < |notDone|
      invariant Distinct(notDone) && Sweeping(notDone, i, done, all)
      decreases |notDone| - i
    {
      var f := notDone[i];
      SweepTurn(notDone, i, done, all);
      if done(f) {
        RemoveFirstAt(notDone, i);
        CutDistinct(notDone, i);
        notDone := RemoveFirst(notDone, f);
      }
      i := i + 1;
    }
    assert i == |notDone| ==> notDone[..i] == notDone && notDone[i..] == [];
  }

  lemma CutDistinct<T>(s: seq<T>, i: nat)
    requires Distinct(s) && i < |s|
    ensures Distinct(s[..i] + s[i + 1..])
  {
  }

  /** One iteration: if the future at i is removed, the one behind it is skipped. */
  lemma SweepTurn<T>(s: seq<T>, i: nat, done: T -> bool, all: seq<T>)
    requires i < |s| && Sweeping(s, i, done, all)
    ensures if done(s[i]) then Sweeping(s[..i] + s[i + 1..], i + 1, done, all) else Sweeping(s, i + 1, done, all)
  {
    var rest := s[i..];
    assert rest[0] == s[i] && rest[1..] == s[i + 1..];
    if !done(s[i]) {
      assert s[..i + 1] == s[..i] + [s[i]];
    } else if i + 1 < |s| {
      var cut := s[..i] + s[i + 1..];
      assert rest[1] == s[i + 1] && rest[2..] == s[i + 2..] == cut[i + 1..];
      assert cut[..i + 1] == s[..i] + [s[i + 1]];
    }
  }

  /** The future at i is removed: it is finished, and the iterator has not skipped it because the one
      before it was removed. */
  predicate Removed<T>(s: seq<T>, done: T -> bool, i: nat)
    requires i < |s|
  {
    done(s[i]) && (i == 0 || !Removed(s, done, i - 1))
  }

  /** From behind a future that stays, the pass is like a fresh one. */
  lemma {:induction false} RemovedFrom<T>(s: seq<T>, done: T -> bool, c: nat, i: nat)
    requires 0 < c && c + i < |s| && !Removed(s, done, c - 1)
    ensures Removed(s[c..], done, i) <==> Removed(s, done, c + i)
  {
    if i > 0 { RemovedFrom(s, done, c, i - 1); }
  }

  function Shifted(at: seq<nat>, c: nat): seq<nat> { seq(|at|, k requires 0 <= k < |at| => c + at[k]) }

  lemma InShifted(at: seq<nat>, c: nat, i: nat)
    ensures c + i in Shifted(at, c) <==> i in at
  {
    if i in at {
      var k :| 0 <= k < |at| && at[k] == i;
      assert Shifted(at, c)[k] == c + i;
    }
  }

  ghost predicate Stay<T>(s: seq<T>, done: T -> bool, at: seq<nat>) {
    forall i: nat :: i < |s| ==> (i in at <==> !Removed(s, done, i))
  }

  /** A sweep leaves exactly the futures that are not removed, in their order. */
  lemma {:induction false} SweepExactly<T>(s: seq<T>, done: T -> bool) returns (at: seq<nat>)
    ensures Picks(s, at, Sweep(s, done)) && Stay(s, done, at)
    decreases |s|
  {
    at := [];
    if s != [] && !(done(s[0]) && |s| == 1) {
      var c := if done(s[0]) then 2 else 1;
      var behind := SweepExactly(s[c..], done);
      at := [c - 1] + Shifted(behind, c);
      PicksBehind(s, c, behind, Sweep(s[c..], done));
      StayBehind(s, done, c, behind);
    }
  }

  lemma PicksBehind<T>(s: seq<T>, c: nat, behind: seq<nat>, r: seq<T>)
    requires 0 < c <= |s| && Picks(s[c..], behind, r)
    ensures Picks(s, [c - 1] + Shifted(behind, c), [s[c - 1]] + r)
  {
  }

  lemma StayBehind<T>(s: seq<T>, done: T -> bool, c: nat, behind: seq<nat>)
    requires s != [] && c == (if done(s[0]) then 2 else 1) && c <= |s|
    requires Stay(s[c..], done, behind)
    ensures Stay(s, done, [c - 1] + Shifted(behind, c))
  {
    forall i: nat | i < |s| ensures i in [c - 1] + Shifted(behind, c) <==> !Removed(s, done, i) {
      if i >= c {
        RemovedFrom(s, done, c, i - c);
        InShifted(behind, c, i - c);
      }
    }
  }

  function Keep<T>(s: seq<T>, p: T -> bool): seq<T> {
    if s == [] then [] else (if p(s[0]) then [s[0]] else []) + Keep(s[1..], p)
  }

  function Unfinished<T>(s: seq<T>, done: T -> bool): seq<T> { Keep(s, x => !done(x)) }
  function Finished<T>(s: seq<T>, done: T -> bool): seq<T> { Keep(s, done) }

  lemma KeepCons<T>(x: T, rest: seq<T>, p: T -> bool)
    ensures Keep([x] + rest, p) == (if p(x) then [x] else []) + Keep(rest, p)
  {
    assert ([x] + rest)[1..] == rest;
  }

  /** How a sweep acts on what a predicate keeps. */
  lemma SweepKeep<T>(s: seq<T>, done: T -> bool, p: T -> bool)
    requires s != []
    ensures Keep(s, p) == (if p(s[0]) then [s[0]] else []) + Keep(s[1..], p)
    ensures !done(s[0]) ==> Keep(Sweep(s, done), p) == (if p(s[0]) then [s[0]] else []) + Keep(Sweep(s[1..], done), p)
    ensures done(s[0]) && |s| > 1 ==>
              && Keep(s[1..], p) == (if p(s[1]) then [s[1]] else []) + Keep(s[2..], p)
              && Keep(Sweep(s, done), p) == (if p(s[1]) then [s[1]] else []) + Keep(Sweep(s[2..], done), p)
  {
    KeepCons(s[0], Sweep(s[1..], done), p);
    if |s| > 1 {
      assert s[1..] == [s[1]] + s[2..];
      KeepCons(s[1], s[2..], p);
      KeepCons(s[1], Sweep(s[2..], done), p);
    }
  }

  /** A sweep never drops an unfinished future and never reorders them. */
  lemma {:induction false} SweepKeepsUnfinished<T>(s: seq<T>, done: T -> bool)
    ensures Unfinished(Sweep(s, done), done) == Unfinished(s, done)
    decreases |s|
  {
    if s != [] {
      SweepKeep(s, done, x => !done(x));
      if !done(s[0]) { SweepKeepsUnfinished(s[1..], done); }
      else if |s| > 1 { SweepKeepsUnfinished(s[2..], done); }
    }
  }

  /** At most half of the finished futures survive a sweep. */
  lemma {:induction false} SweepHalves<T>(s: seq<T>, done: T -> bool)
    ensures |Finished(Sweep(s, done), done)| <= |Finished(s, done)| / 2
    decreases |s|
  {
    if s != [] {
      SweepKeep(s, done, done);
      if !done(s[0]) { SweepHalves(s[1..], done); }
      else if |s| > 1 { SweepHalves(s[2..], done); }
    }
  }

  /** The first finished future is always removed, and nothing before it is. */
  lemma {:induction false} SweepRemovesFirstFinished<T>(s: seq<T>, done: T -> bool, i: nat)
    requires Distinct(s) && i < |s| && done(s[i]) && forall j :: 0 <= j < i ==> !done(s[j])
    ensures s[i] !in Sweep(s, done)
    ensures s[..i] <= Sweep(s, done)
  {
    SweepSubset(s[if i + 2 <= |s| then i + 2 else |s|..], done);
    if i == 0 {
    } else {
      SweepRemovesFirstFinished(s[1..], done, i - 1);
      assert s[..i] == [s[0]] + s[1..][..i - 1];
    }
  }

  lemma {:induction false} SweepSubset<T>(s: seq<T>, done: T -> bool)
    ensures forall x :: x in Sweep(s, done) ==> x in s
    decreases |s|
  {
    if s != [] { SweepSubset(s[1..], done); }
    if |s| > 1 { SweepSubset(s[2..], done); }
  }

  function Pow2(k: nat): nat { if k == 0 then 1 else 2 * Pow2(k - 1) }

  function Sweeps<T>(s: seq<T>, done: T -> bool, k: nat): seq<T>
    decreases k
  {
    if k == 0 then s else Sweeps(Sweep(s, done), done, k - 1)
  }

  /** With d finished futures, k sweeps with 2^k > d leave exactly the unfinished ones. */
  lemma {:induction false} SweepsClear<T>(s: seq<T>, done: T -> bool, k: nat)
    requires |Finished(s, done)| < Pow2(k)
    ensures Sweeps(s, done, k) == Unfinished(s, done)
    decreases k
  {
    if k == 0 {
      NothingFinished(s, done);
    } else {
      SweepHalves(s, done);
      SweepKeepsUnfinished(s, done);
      SweepsClear(Sweep(s, done), done, k - 1);
    }
  }

  lemma {:induction false} NothingFinished<T>(s: seq<T>, done: T -> bool)
    requires Finished(s, done) == []
    ensures Unfinished(s, done) == s
  {
    if s != [] { NothingFinished(s[1..], done); }
  }

  lemma {:induction false} AllFinishedSweep<T>(s: seq<T>, done: T -> bool)
    requires forall x <- s :: done(x)
    ensures |Sweep(s, done)| == |s| / 2
    decreases |s|
  {
    if |s| > 1 { AllFinishedSweep(s[2..], done); }
  }

  /** n finished futures are cleared by k sweeps exactly when n < 2^k, that is in
      floor(log2 n) + 1 sweeps and no fewer. */
  lemma {:induction false} SweepsExact<T>(s: seq<T>, done: T -> bool, k: nat)
    requires forall x <- s :: done(x)
    ensures Sweeps(s, done, k) == [] <==> |s| < Pow2(k)
    decreases k
  {
    if k > 0 {
      AllFinishedSweep(s, done);
      SweepSubset(s, done);
      SweepsExact(Sweep(s, done), done, k - 1);
    }
  }

  /** The whole join loop: `done(t)` are the statuses that sweep number t sees. */
  function Join<T>(s: seq<T>, done: nat -> T -> bool, t: nat, deadline: nat): seq<T>
    decreases deadline - t
  {
    if t >= deadline || s == [] then s else Join(Sweep(s, done(t)), done, t + 1, deadline)
  }

  /** A future that no sweep sees finished is still waited for at the end. */
  lemma {:induction false} JoinKeeps<T>(s: seq<T>, done: nat -> T -> bool, t: nat, deadline: nat, f: T)
    requires f in s && forall u: nat :: t <= u < deadline ==> !done(u)(f)
    ensures f in Join(s, done, t, deadline)
    decreases deadline - t
  {
    if t < deadline {
      KeepMember(s, x => !done(t)(x), f);
      SweepKeepsUnfinished(s, done(t));
      KeepMember(Sweep(s, done(t)), x => !done(t)(x), f);
      JoinKeeps(Sweep(s, done(t)), done, t + 1, deadline, f);
    }
  }

  lemma {:induction false} KeepMember<T>(s: seq<T>, p: T -> bool, f: T)
    ensures f in Keep(s, p) <==> f in s && p(f)
  {
    if s != [] { KeepMember(s[1..], p, f); }
  }

  /** If all n futures are finished from sweep `start` on, the loop empties its list
      within floor(log2 n) + 1 further sweeps. */
  lemma {:induction false} JoinEmpties<T>(s: seq<T>, done: nat -> T -> bool, t: nat, start: nat, k: nat, deadline: nat)
    requires |s| < Pow2(k) && start + k <= deadline && t + k <= deadline
    requires forall u: nat, f :: start <= u && f in s ==> done(u)(f)
    ensures Join(s, done, t, deadline) == []
    decreases deadline - t
  {
    if s != [] && t < deadline {
      var s' := Sweep(s, done(t));
      SweepSubset(s, done(t));
      if t < start {
        SweepShrinks(s, done(t));
        JoinEmpties(s', done, t + 1, start, k, deadline);
      } else {
        AllFinishedSweep(s, done(t));
        JoinEmpties(s', done, t + 1, t + 1, k - 1, deadline);
      }
    }
  }

  lemma {:induction false} SweepShrinks<T>(s: seq<T>, done: T -> bool)
    ensures |Sweep(s, done)| <= |s|
    decreases |s|
  {
    if s != [] { SweepShrinks(s[1..], done); }
    if |s| > 1 { SweepShrinks(s[2..], done); }
  }

  // ----- the context manager -----------------------------------------------

  /** What a future's result() does once it is finished. */
  datatype Result<+R> = Value(value: R) | Failure(error: string)

  datatype Exit<+R> = BodyRaised | Joined | JoinRaised(error: string)

  class Pool<R> {
    var futures: seq<Result<R>>   // in spawn order
    var results: seq<R>
    var iterIndex: nat

    ghost predicate Valid()
      reads this
    {
      iterIndex <= |futures|
    }

    constructor ()
      ensures Valid() && futures == [] && results == [] && iterIndex == 0
    {
      futures, results, iterIndex := [], [], 0;
    }

    method Spawn(future: Result<R>)
      requires Valid()
      modifies this
      ensures Valid()
      ensures futures == old(futures) + [future] && results == old(results) && iterIndex == old(iterIndex)
    {
      futures := futures + [future];
    }

    /** The join loop of __exit__: futures are named by their spawn index. */
    method AwaitAll(done: nat -> int -> bool, deadline: nat) returns (notDone: seq<int>)
      ensures notDone == Join(seq(|futures|, i => i), done, 0, deadline)
    {
      notDone := seq(|futures|, i => i);
      var t := 0;
      ghost var all := notDone;
      while t < deadline
        invariant t <= deadline && Distinct(notDone)
        invariant Join(notDone, done, t, deadline) == Join(all, done, 0, deadline)
      {
        if notDone == [] { break; }
        SweepDistinct(notDone, done(t));
        notDone := SweepInPlace(notDone, done(t));
        t := t + 1;
      }
    }

    /** __exit__ after the join loop: results in spawn order, or the first failure in
        spawn order with the results before it. */
    method Finish(bodyRaised: bool) returns (exit: Exit<R>)
      requires Valid()
      modifies this
      ensures Valid() && futures == old(futures) && iterIndex == old(iterIndex)
      ensures exit.BodyRaised? <==> bodyRaised
      ensures bodyRaised ==> results == old(results)
      ensures old(results) <= results && |results| <= |old(results)| + |futures|
      ensures forall i :: 0 <= i < |results| - |old(results)| ==> futures[i] == Value(results[|old(results)| + i])
      ensures exit.Joined? ==> |results| == |old(results)| + |futures|
      ensures exit.JoinRaised? ==>
                && |results| < |old(results)| + |futures|
                && futures[|results| - |old(results)|] == Failure(exit.error)
    {
      if bodyRaised { return BodyRaised; }
      var i := 0;
      while i < |futures|
        invariant i <= |futures| && futures == old(futures) && iterIndex == old(iterIndex)
        invariant |results| == |old(results)| + i && old(results) <= results
        invariant forall j :: 0 <= j < i ==> futures[j] == Value(results[|old(results)| + j])
      {
        match futures[i]
        case Failure(e) => return JoinRaised(e);
        case Value(v) => results := results + [v];
        i := i + 1;
      }
      return Joined;
    }

    /** __next__; None is StopIteration. A failed future is yielded as its exception. */
    method Next() returns (out: Option<Result<R>>)
      requires Valid()
      modifies this
      ensures Valid() && futures == old(futures) && results == old(results)
      ensures if old(iterIndex) == |futures| then out == None && iterIndex == 0
              else out == Some(futures[old(iterIndex)]) && iterIndex == old(iterIndex) + 1
    {
      if |futures| == 0 || iterIndex == |futures| {
        iterIndex := 0;
        return None;
      }
      out := Some(futures[iterIndex]);
      iterIndex := iterIndex + 1;
    }
  }

  lemma {:induction false} SweepDistinct<T>(s: seq<T>, done: T -> bool)
    requires Distinct(s)
    ensures Distinct(Sweep(s, done))
    decreases |s|
  {
    if s == [] {
    } else if !done(s[0]) {
      SweepDistinct(s[1..], done);
      SweepSubset(s[1..], done);
      DistinctCons(s[0], Sweep(s[1..], done));
    } else if |s| > 1 {
      SweepDistinct(s[2..], done);
      SweepSubset(s[2..], done);
      DistinctCons(s[1], Sweep(s[2..], done));
    }
  }

  lemma DistinctCons<T>(x: T, rest: seq<T>)
    requires Distinct(rest) && x !in rest
    ensures Distinct([x] + rest)
  {
  }
}
