/** _run_in_batches (ceph/utils.py): the loop over the batches, and the concurrent
    steps of the thread pool under it. */
module Batches {
  import opened Basics

  /** `n` items, numbered from 0, and the requested batch size. */
  datatype Plan = Plan(n: nat, batchSize: int) {
    function Size(): (size: nat)
      ensures size >= 1
    {
      if batchSize > 1 then batchSize else 1
    }
    function End(lo: nat): nat { Min(lo + Size(), n) }
  }

  // ----- the loop ----------------------------------------------------------

  predicate AllOk(ok: nat -> bool, lo: nat, hi: nat) { forall i: nat :: lo <= i < hi ==> ok(i) }

  /** How many items have been attempted when the batches starting at `lo` are over. */
  function Attempted(p: Plan, ok: nat -> bool, lo: nat): nat
    decreases p.n - lo
  {
    if lo >= p.n then p.n
    else if AllOk(ok, lo, p.End(lo)) then Attempted(p, ok, p.End(lo))
    else p.End(lo)
  }

  /** A batch of as many items as were asked for, at least one, unless fewer are left. */
  ghost predicate FullSized(n: nat, batchSize: int, lo: nat, hi: nat) {
    var size := if batchSize > 1 then batchSize else 1;
    lo < hi <= n && (if lo + size <= n then hi == lo + size else hi == n)
  }

  /** The batches tile [0, end): each is full-sized unless it is the last of the plan. */
  ghost predicate Tiles(p: Plan, batches: seq<(nat, nat)>, end: nat) {
    && (forall k :: 0 <= k < |batches| ==> FullSized(p.n, p.batchSize, batches[k].0, batches[k].1))
    && (forall k :: 0 < k < |batches| ==> batches[k].0 == batches[k - 1].1)
    && (if batches == [] then end == 0 else batches[0].0 == 0 && batches[|batches| - 1].1 == end)
  }

  /** One `with parallel()` block: did every worker of the batch return? */
  method RunOne(ok: nat -> bool, lo: nat, hi: nat) returns (good: bool)
    requires lo <= hi
    ensures good == AllOk(ok, lo, hi)
  {
    good := true;
    for i := lo to hi
      invariant good == AllOk(ok, lo, i)
    {
      good := good && ok(i);
    }
  }

  lemma TilesMore(p: Plan, batches: seq<(nat, nat)>, start: nat)
    requires Tiles(p, batches, start) && start < p.n
    ensures Tiles(p, batches + [(start, p.End(start))], p.End(start)) && p.End(start) <= p.n
  {
  }

  lemma AllOkMore(p: Plan, ok: nat -> bool, start: nat)
    requires AllOk(ok, 0, start) && start < p.n
    ensures AllOk(ok, 0, p.End(start)) <==> AllOk(ok, start, p.End(start))
    ensures !AllOk(ok, start, p.End(start)) ==> !AllOk(ok, 0, p.n)
  {
  }

  /** `ok(i)` tells whether the worker returns on item i or raises. The batches are
      returned as the ranges of items handed to the pool. */
  method RunInBatches(p: Plan, ok: nat -> bool) returns (batches: seq<(nat, nat)>, success: bool)
    ensures success == AllOk(ok, 0, p.n)
    ensures Tiles(p, batches, Attempted(p, ok, 0))
  {
    batches := [];
    var start := 0;
    while start < p.n
      invariant start <= p.n && Tiles(p, batches, start)
      invariant Attempted(p, ok, start) == Attempted(p, ok, 0)
      invariant AllOk(ok, 0, start)
    {
      var end := p.End(start);
      TilesMore(p, batches, start);
      var good := RunOne(ok, start, end);
      AllOkMore(p, ok, start);
      batches := batches + [(start, end)];
      if !good { return batches, false; }
      start := end;
    }
    success := true;
  }

  lemma {:induction false} AttemptedBounds(p: Plan, ok: nat -> bool, lo: nat)
    requires lo <= p.n
    ensures lo <= Attempted(p, ok, lo) <= p.n
    ensures AllOk(ok, lo, p.n) ==> Attempted(p, ok, lo) == p.n
    ensures forall i: nat :: lo <= i < p.n && !ok(i) && AllOk(ok, lo, i) ==> i < Attempted(p, ok, lo) <= i + p.Size()
    decreases p.n - lo
  {
    if lo < p.n && AllOk(ok, lo, p.End(lo)) { AttemptedBounds(p, ok, p.End(lo)); }
  }

  /** With a first failing item, exactly the items of the batches up to its own are attempted: as
      many whole batches as fit before it, and one more. */
  lemma AttemptedExactly(p: Plan, ok: nat -> bool, i: nat)
    requires i < p.n && !ok(i) && AllOk(ok, 0, i)
    ensures var size := if p.batchSize > 1 then p.batchSize else 1;
            var whole := i / size * size;
            whole <= i && Attempted(p, ok, 0) == if whole + size <= p.n then whole + size else p.n
  {
    var size := p.Size();
    var k := i / size;
    Quotient(i, size);
    assert AllOk(ok, 0, k * size);
    AttemptedReaches(p, ok, k);
    assert !AllOk(ok, k * size, p.End(k * size));
  }

  lemma {:induction false} FirstFailure(ok: nat -> bool, n: nat) returns (i: nat)
    requires !AllOk(ok, 0, n)
    ensures i < n && !ok(i) && AllOk(ok, 0, i)
  {
    if AllOk(ok, 0, n - 1) { i := n - 1; } else { i := FirstFailure(ok, n - 1); }
  }

  /** All items of the batches before that of item i return. */
  ghost predicate EarlierBatchesOk(ok: nat -> bool, size: nat, i: nat)
    requires size >= 1
  {
    forall j: nat :: j / size < i / size ==> ok(j)
  }

  /** An item is attempted if and only if everything before its own batch returned. */
  lemma AttemptedItems(p: Plan, ok: nat -> bool, i: nat)
    requires i < p.n
    ensures i < Attempted(p, ok, 0) <==> EarlierBatchesOk(ok, if p.batchSize > 1 then p.batchSize else 1, i)
  {
    var low := BatchStart(p, i);
    OkBelow(ok, p.Size(), i, low);
    if AllOk(ok, 0, p.n) {
      AttemptedBounds(p, ok, 0);
    } else {
      var f := FirstFailure(ok, p.n);
      WithFailure(p, ok, f, i);
      UpToFailure(ok, f, low);
    }
  }

  lemma OkBelow(ok: nat -> bool, size: nat, i: nat, low: nat)
    requires size >= 1 && low == i / size * size
    ensures EarlierBatchesOk(ok, size, i) <==> AllOk(ok, 0, low)
  {
    forall j: nat ensures j / size < i / size <==> j < low { EarlierBatch(j, i, size); }
  }

  lemma EarlierBatch(j: nat, i: nat, size: nat)
    requires size >= 1
    ensures j / size < i / size <==> j < i / size * size
  {
    Quotient(j, size);
    if j / size < i / size {
      ProductMonotone(j / size + 1, i / size, size);
    } else {
      ProductMonotone(i / size, j / size, size);
    }
  }

  lemma BatchStart(p: Plan, i: nat) returns (low: nat)
    ensures low == i / p.Size() * p.Size() <= i
  {
    low := i / p.Size() * p.Size();
    Quotient(i, p.Size());
  }

  lemma WithFailure(p: Plan, ok: nat -> bool, f: nat, i: nat)
    requires f < p.n && !ok(f) && AllOk(ok, 0, f) && i < p.n
    ensures i < Attempted(p, ok, 0) <==> i / p.Size() * p.Size() <= f
  {
    AttemptedExactly(p, ok, f);
    SameOrEarlierBatch(i, f, p.Size());
  }

  lemma UpToFailure(ok: nat -> bool, f: nat, n: nat)
    requires !ok(f) && AllOk(ok, 0, f)
    ensures AllOk(ok, 0, n) <==> n <= f
  {
  }

  lemma SameOrEarlierBatch(i: nat, f: nat, size: nat)
    requires size >= 1
    ensures i < f / size * size + size <==> i / size * size <= f
  {
    Quotient(i, size);
    Quotient(f, size);
    if i / size <= f / size {
      ProductMonotone(i / size, f / size, size);
    } else {
      ProductMonotone(f / size + 1, i / size, size);
      NextMultiple(f / size, size);
    }
  }

  lemma Quotient(i: nat, size: nat)
    requires size >= 1
    ensures i / size * size <= i < i / size * size + size
  {
  }

  lemma {:induction false} AttemptedReaches(p: Plan, ok: nat -> bool, k: nat)
    requires k * p.Size() < p.n && AllOk(ok, 0, k * p.Size())
    ensures Attempted(p, ok, 0) == Attempted(p, ok, k * p.Size())
  {
    if k > 0 {
      var lo := (k - 1) * p.Size();
      assert lo + p.Size() == k * p.Size();
      AttemptedReaches(p, ok, k - 1);
    }
  }

  // ----- the concurrent steps ----------------------------------------------

  datatype Phase = Running | Succeeded | Failed

  /** Items [0, spawned) were submitted; `lo` is where the current batch begins;
      `joined` batches have been waited for. */
  datatype State = State(lo: nat, spawned: nat, started: seq<nat>, finished: map<nat, bool>, joined: nat, phase: Phase)

  function Init(p: Plan): State {
    State(0, 0, [], map[], 0, if p.n == 0 then Succeeded else Running)
  }

  datatype Event = Spawn | Start(item: nat) | Finish(item: nat, ok: bool) | Join

  predicate Enabled(p: Plan, s: State, e: Event) {
    s.phase.Running? &&
    match e
    case Spawn => s.spawned < p.End(s.lo)
    case Start(i) => i < s.spawned && i !in s.started
    case Finish(i, _) => i in s.started && i !in s.finished
    case Join => s.spawned == p.End(s.lo) && forall i: nat :: s.lo <= i < s.spawned ==> i in s.finished
  }

  function Do(p: Plan, s: State, e: Event): State
    requires Enabled(p, s, e)
  {
    match e
    case Spawn => s.(spawned := s.spawned + 1)
    case Start(i) => s.(started := s.started + [i])
    case Finish(i, ok) => s.(finished := s.finished[i := ok])
    case Join =>
      var s' := s.(joined := s.joined + 1);
      if exists i: nat :: s.lo <= i < s.spawned && !s.finished[i] then s'.(phase := Failed)
      else if s.spawned == p.n then s'.(phase := Succeeded)
      else s'.(lo := s.spawned)
  }

  ghost predicate Inv(p: Plan, s: State) {
    && s.lo <= s.spawned <= p.End(s.lo)
    && (forall i <- s.started :: i < s.spawned)
    && (forall i, j :: 0 <= i < j < |s.started| ==> s.started[i] != s.started[j])
    && (forall i <- s.finished :: i in s.started)
    && (forall i: nat :: i < s.lo ==> i in s.finished && s.finished[i])
    && (s.phase.Running? ==> s.lo == s.joined * p.Size() && s.lo < p.n)
    && (s.phase.Succeeded? ==> s.spawned == p.n && (forall i: nat :: i < p.n ==> i in s.finished && s.finished[i])
                               && (p.n == 0 || (s.joined >= 1 && s.lo == (s.joined - 1) * p.Size() < p.n))
                               && (p.n == 0 ==> s.joined == 0))
    && (s.phase.Failed? ==> s.spawned == p.End(s.lo) && s.joined >= 1 && s.lo == (s.joined - 1) * p.Size()
                            && (forall i: nat :: s.lo <= i < s.spawned ==> i in s.finished)
                            && (exists i: nat :: s.lo <= i < s.spawned && !s.finished[i]))
  }

  lemma SpawnInv(p: Plan, s: State)
    requires Inv(p, s) && Enabled(p, s, Spawn)
    ensures Inv(p, Do(p, s, Spawn))
  {
  }

  lemma StartInv(p: Plan, s: State, i: nat)
    requires Inv(p, s) && Enabled(p, s, Start(i))
    ensures Inv(p, Do(p, s, Start(i)))
  {
    assert forall j <- s.started + [i] :: j in s.started || j == i;
  }

  lemma FinishInv(p: Plan, s: State, i: nat, ok: bool)
    requires Inv(p, s) && Enabled(p, s, Finish(i, ok))
    ensures Inv(p, Do(p, s, Finish(i, ok)))
  {
  }

  lemma NextMultiple(joined: nat, size: nat)
    ensures (joined + 1) * size == joined * size + size
  {
  }

  lemma JoinInv(p: Plan, s: State)
    requires Inv(p, s) && Enabled(p, s, Join)
    ensures Inv(p, Do(p, s, Join))
  {
    NextMultiple(s.joined, p.Size());
  }

  lemma InvStep(p: Plan, s: State, e: Event)
    requires Inv(p, s) && Enabled(p, s, e)
    ensures Inv(p, Do(p, s, e))
  {
    match e {
      case Spawn => SpawnInv(p, s);
      case Start(i) => StartInv(p, s, i);
      case Finish(i, ok) => FinishInv(p, s, i, ok);
      case Join => JoinInv(p, s);
    }
  }

  /** A run is a schedule: any sequence of events each of which is possible. */
  ghost predicate Possible(p: Plan, events: seq<Event>)
    decreases |events|, 0
  {
    if events == [] then true
    else Possible(p, events[..|events| - 1]) && Enabled(p, After(p, events[..|events| - 1]), events[|events| - 1])
  }

  ghost function After(p: Plan, events: seq<Event>): State
    requires Possible(p, events)
    decreases |events|, 1
  {
    if events == [] then Init(p) else Do(p, After(p, events[..|events| - 1]), events[|events| - 1])
  }

  lemma {:induction false} RunInv(p: Plan, events: seq<Event>)
    requires Possible(p, events)
    ensures Inv(p, After(p, events))
  {
    if events != [] {
      RunInv(p, events[..|events| - 1]);
      InvStep(p, After(p, events[..|events| - 1]), events[|events| - 1]);
    }
  }

  ghost function InFlight(s: State): set<nat> { set i | i in s.started && i !in s.finished }

  lemma {:induction false} RangeSize(items: set<nat>, lo: nat, hi: nat)
    requires lo <= hi && forall i <- items :: lo <= i < hi
    ensures |items| <= hi - lo
  {
    if lo < hi {
      RangeSize(items - {hi - 1}, lo, hi - 1);
    } else {
      assert items == {};
    }
  }

  lemma ProductMonotone(a: nat, b: nat, c: nat)
    requires a <= b
    ensures a * c <= b * c
  {
  }

  /** Item i lies beyond a batch boundary, the k-th, that j lies before. */
  ghost predicate Apart(size: nat, j: nat, k: nat, i: nat) { j < k * size <= i }

  /** In every reachable state of every schedule: at most the requested number of items, or one, are
      in flight; an item has only been started once everything before its batch had returned; no
      item starts twice. */
  lemma AlwaysBounded(p: Plan, events: seq<Event>)
    requires Possible(p, events)
    ensures var s, size := After(p, events), if p.batchSize > 1 then p.batchSize else 1;
            && |InFlight(s)| <= size
            && (forall i, j, k: nat :: i in s.started && Apart(size, j, k, i) ==> j in s.finished && s.finished[j])
            && (forall i, j :: 0 <= i < j < |s.started| ==> s.started[i] != s.started[j])
  {
    RunInv(p, events);
    var s, size := After(p, events), p.Size();
    RangeSize(InFlight(s), s.lo, s.spawned);
    forall i, j, k: nat | i in s.started && Apart(size, j, k, i)
      ensures j in s.finished && s.finished[j]
    {
      Barrier(p, s, i, j, k);
    }
  }

  lemma BoundaryBelow(size: nat, current: nat, k: nat, i: nat)
    requires k * size <= i < (current + 1) * size
    ensures k * size <= current * size
  {
    if k > current { ProductMonotone(current + 1, k, size); } else { ProductMonotone(k, current, size); }
  }

  lemma Barrier(p: Plan, s: State, i: nat, j: nat, k: nat)
    requires Inv(p, s) && i in s.started && Apart(p.Size(), j, k, i)
    ensures j < s.lo
  {
    var size := p.Size();
    var current: nat := if s.phase.Running? then s.joined else s.joined - 1;
    assert (current + 1) * size == current * size + size;
    BoundaryBelow(size, current, k, i);
  }

  /** Success: every item ran exactly once and returned, and there were ceil(n / size) batches. */
  lemma SuccessIsComplete(p: Plan, events: seq<Event>)
    requires Possible(p, events) && After(p, events).phase.Succeeded?
    ensures var s, size := After(p, events), if p.batchSize > 1 then p.batchSize else 1;
            && (forall i: nat :: i in s.started <==> i < p.n)
            && |s.started| == p.n
            && (forall i: nat :: i < p.n ==> i in s.finished && s.finished[i])
            && (if p.n == 0 then s.joined == 0 else (s.joined - 1) * size < p.n <= s.joined * size)
  {
    RunInv(p, events);
    var s := After(p, events);
    DistinctRange(s.started, p.n);
    if p.n > 0 { NextMultiple(s.joined - 1, p.Size()); }
  }

  ghost function Elements(s: seq<nat>): set<nat> { set i | i in s }

  lemma {:induction false} DistinctRange(s: seq<nat>, n: nat)
    requires forall i, j :: 0 <= i < j < |s| ==> s[i] != s[j]
    requires forall i: nat :: i in s <==> i < n
    ensures |s| == n
  {
    SetOfDistinct(s);
    if n > 0 {
      RangeSize(Elements(s), 0, n);
      AllOfRange(Elements(s), n);
    }
  }

  lemma {:induction false} SetOfDistinct(s: seq<nat>)
    requires forall i, j :: 0 <= i < j < |s| ==> s[i] != s[j]
    ensures |Elements(s)| == |s|
  {
    if s != [] {
      SetOfDistinct(s[1..]);
      assert s[0] !in s[1..];
      assert Elements(s) == {s[0]} + Elements(s[1..]);
    }
  }

  lemma {:induction false} AllOfRange(items: set<nat>, n: nat)
    requires forall i: nat :: i < n ==> i in items
    ensures |items| >= n
  {
    if n > 0 {
      AllOfRange(items - {n - 1}, n - 1);
    }
  }

  /** After a failing batch nothing happens any more, and nothing beyond it ever started. */
  lemma FailureStops(p: Plan, events: seq<Event>, e: Event)
    requires Possible(p, events) && After(p, events).phase.Failed?
    ensures !Possible(p, events + [e])
    ensures var s, size := After(p, events), if p.batchSize > 1 then p.batchSize else 1;
            forall i <- s.started :: i < s.lo + size && i < p.n
  {
    RunInv(p, events);
    assert (events + [e])[..|events|] == events;
  }

  lemma CanGoOn(p: Plan, s: State)
    requires Inv(p, s) && s.phase.Running?
    ensures exists e :: Enabled(p, s, e)
  {
    if s.spawned < p.End(s.lo) {
      assert Enabled(p, s, Spawn);
    } else if i: nat :| s.lo <= i < s.spawned && i !in s.finished {
      if i in s.started { assert Enabled(p, s, Finish(i, true)); } else { assert Enabled(p, s, Start(i)); }
    } else {
      assert Enabled(p, s, Join);
    }
  }

  /** A running schedule can always go on, and every schedule ends within 4n steps. */
  lemma AlwaysProgress(p: Plan, events: seq<Event>)
    requires Possible(p, events)
    ensures After(p, events).phase.Running? ==> exists e :: Enabled(p, After(p, events), e)
    ensures |events| <= 4 * p.n
  {
    RunInv(p, events);
    var s := After(p, events);
    if s.phase.Running? { CanGoOn(p, s); }
    Work(p, events);
    WorkBound(p, s);
  }

  /** No more starts, finishes or joins than items were spawned, but for the last join. */
  lemma WorkBound(p: Plan, s: State)
    requires Inv(p, s)
    ensures |s.started| <= s.spawned && |s.finished| <= s.spawned && s.spawned <= p.n && s.joined <= p.n
  {
    SetOfDistinct(s.started);
    RangeSize(Elements(s.started), 0, s.spawned);
    RangeSize(s.finished.Keys, 0, s.spawned);
    JoinedBound(s.joined, p.Size(), s.lo);
  }

  lemma JoinedBound(joined: nat, size: nat, lo: nat)
    requires size >= 1
    ensures lo == joined * size ==> joined <= lo
    ensures joined >= 1 && lo == (joined - 1) * size ==> joined <= lo + 1
  {
  }

  lemma {:induction false} Work(p: Plan, events: seq<Event>)
    requires Possible(p, events)
    ensures var s := After(p, events); |events| == s.spawned + |s.started| + |s.finished| + s.joined
  {
    if events != [] {
      Work(p, events[..|events| - 1]);
      var e := events[|events| - 1];
      var s := After(p, events[..|events| - 1]);
      if e.Finish? { assert s.finished[e.item := e.ok].Keys == s.finished.Keys + {e.item}; }
    }
  }

  ghost predicate Agrees(s: State, ok: nat -> bool) { forall i <- s.finished :: s.finished[i] == ok(i) }

  /** Whatever the schedule, a finished run ends as the plain loop says it does. */
  lemma ScheduleAgreesWithLoop(p: Plan, events: seq<Event>, ok: nat -> bool)
    requires Possible(p, events) && Agrees(After(p, events), ok) && !After(p, events).phase.Running?
    ensures var s := After(p, events);
            && (s.phase.Succeeded? <==> AllOk(ok, 0, p.n))
            && s.spawned == Attempted(p, ok, 0)
  {
    RunInv(p, events);
    AttemptedBounds(p, ok, 0);
    var s := After(p, events);
    if s.phase.Failed? {
      FailedAgrees(p, s, ok);
    } else {
      assert AllOk(ok, 0, p.n);
    }
  }

  lemma FailedAgrees(p: Plan, s: State, ok: nat -> bool)
    requires Inv(p, s) && Agrees(s, ok) && s.phase.Failed?
    ensures !AllOk(ok, 0, p.n) && s.spawned == Attempted(p, ok, 0)
  {
    var i: nat :| s.lo <= i < s.spawned && !s.finished[i];
    assert !ok(i) && AllOk(ok, 0, s.lo);
    AttemptedReaches(p, ok, s.joined - 1);
    assert Attempted(p, ok, s.lo) == p.End(s.lo);
  }
}
