/** The except clauses of CephVMNodeOCP.create (compute/openshift.py) as runs of the namespace:
    when they leave neither a Secret whose deletion was issued nor a bound node. */
module OcpExcept {
  import opened K8sNames
  import opened OcpCluster

  /** A failed create: what was tried, the namespace then, whether a node was bound by then, and
      the two calls of the except clauses, each with the steps of the others before it. */
  datatype Failure = Failure(tried: seq<Event>, at: Cluster, bound: bool, first: seq<Event>, second: seq<Event>) {
    function Between(): Cluster { After(at, first) }
    function End(): Cluster { After(After(at, first), second) }
  }

  ghost predicate IsRead(workers: set<Worker>, me: Worker, s: Cluster, run: seq<Event>) {
    IsCall(workers, me, s, run) && run[|run| - 1].action.ReadVm?
  }

  /** When in a run the worker read its VM. */
  ghost function ReadsAt(me: Worker, run: seq<Event>): set<nat> {
    set i: nat | i < |run| && run[i].worker == me && run[i].action.ReadVm?
  }

  ghost function Reads(me: Worker, run: seq<Event>): nat { |ReadsAt(me, run)| }

  lemma OneRead(workers: set<Worker>, me: Worker, s: Cluster, log: seq<Event>, run: seq<Event>)
    requires IsRead(workers, me, s, run)
    ensures Reads(me, log + run) == Reads(me, log) + 1
  {
    var last := |log| + |run| - 1;
    forall i: nat | |log| <= i < last ensures i !in ReadsAt(me, log + run) {
      assert (log + run)[i] == run[..|run| - 1][i - |log|];
    }
    assert ReadsAt(me, log + run) == ReadsAt(me, log) + {last};
  }

  lemma NoRead(me: Worker, log: seq<Event>, run: seq<Event>)
    requires run != [] && ByOthers(me, run[..|run| - 1]) && !run[|run| - 1].action.ReadVm?
    ensures Reads(me, log + run) == Reads(me, log)
  {
    forall i: nat | |log| <= i < |log| + |run| ensures i !in ReadsAt(me, log + run) {
      if i < |log| + |run| - 1 { assert (log + run)[i] == run[..|run| - 1][i - |log|]; }
    }
    assert ReadsAt(me, log + run) == ReadsAt(me, log);
  }

  /** The first read; then the Secret's deletion if it found no VM, and else a second read unless
      a node is bound. */
  ghost predicate Excepts(workers: set<Worker>, me: Worker, f: Failure) {
    && IsRead(workers, me, f.at, f.first)
    && if me in f.Between().absent then
         IsCall(workers, me, f.Between(), f.second) && f.second[|f.second| - 1].action.DropSecret?
       else if f.bound then f.second == []
       else IsRead(workers, me, f.Between(), f.second)
  }

  /** A node is bound when create raises. */
  predicate Binds(me: Worker, f: Failure) { f.bound || (me !in f.Between().absent && me !in f.End().absent) }

  /** The first read found the VM, and the second, made to bind the node, did not. */
  predicate Lost(me: Worker, f: Failure) {
    !f.bound && me !in f.Between().absent && me in f.End().absent
  }

  /** What create leaves behind is left to somebody: the deletion of the Secret was issued after
      a read that found no VM, or the node is bound, so that delete() finds it. */
  predicate LeftToSomebody(me: Worker, f: Failure) {
    Binds(me, f) || (me in f.End().dropped && me in f.End().absent)
  }

  lemma CallSplits(workers: set<Worker>, me: Worker, s: Cluster, run: seq<Event>)
    requires Separate(workers) && Inv(workers, s) && me in workers && IsCall(workers, me, s, run)
    ensures var mid, a := After(s, run[..|run| - 1]), run[|run| - 1].action;
            && Rely(me, s, mid) && Inv(workers, mid) && Allowed(me, mid, a)
            && After(s, run) == Apply(me, mid, a) && Inv(workers, After(s, run))
  {
    var n := |run| - 1;
    assert run == run[..n] + [run[n]] && [run[n]][1..] == [];
    PossibleBoth(workers, s, run[..n], [run[n]]);
    OthersRelied(workers, me, s, run[..n]);
    AfterBoth(s, run[..n], [run[n]]);
    StepInv(workers, me, After(s, run[..n]), run[n].action);
  }

  /** Create leaves nothing to nobody if and only if the VM is not lost between the two reads. */
  lemma LeftExactly(workers: set<Worker>, me: Worker, f: Failure)
    requires Separate(workers) && Inv(workers, f.at) && me in workers && me !in f.at.dropped
    requires Excepts(workers, me, f)
    ensures LeftToSomebody(me, f) <==> !Lost(me, f)
    ensures Lost(me, f) ==> me !in f.End().dropped && f.second != []
  {
    CallSplits(workers, me, f.at, f.first);
    if f.second != [] { CallSplits(workers, me, f.Between(), f.second); }
  }

  // ----- from which namespaces it can happen -------------------------------

  /** None of our own reads fails with anything but 404. */
  predicate Healthy(me: Worker, run: seq<Event>) {
    forall e <- run :: e.worker == me && e.action.ReadVm? ==> !e.action.fails
  }

  ghost predicate CanLose(workers: set<Worker>, me: Worker, s: Cluster) {
    exists f: Failure :: f.at == s && Excepts(workers, me, f) && Lost(me, f)
  }

  ghost predicate CanLoseHealthily(workers: set<Worker>, me: Worker, s: Cluster) {
    exists f: Failure ::
      f.at == s && Excepts(workers, me, f) && Lost(me, f) && Healthy(me, f.first) && Healthy(me, f.second)
  }

  lemma LostNeedsVm(workers: set<Worker>, me: Worker, f: Failure)
    requires Separate(workers) && Inv(workers, f.at) && me in workers && Excepts(workers, me, f) && Lost(me, f)
    ensures me.vm in f.at.vms
    ensures Healthy(me, f.second) ==> me.vm in f.at.deleting
  {
    CallSplits(workers, me, f.at, f.first);
    CallSplits(workers, me, f.Between(), f.second);
  }

  /** From a namespace s the VM can be lost if and only if it exists, and without failing reads
      if and only if it exists and is under deletion. */
  lemma LostExactly(workers: set<Worker>, me: Worker, s: Cluster)
    requires Separate(workers) && Inv(workers, s) && me in workers
    ensures CanLose(workers, me, s) <==> me.vm in s.vms
    ensures CanLoseHealthily(workers, me, s) <==> me.vm in s.vms && me.vm in s.deleting
  {
    if CanLose(workers, me, s) {
      var f: Failure :| f.at == s && Excepts(workers, me, f) && Lost(me, f);
      LostNeedsVm(workers, me, f);
    }
    if CanLoseHealthily(workers, me, s) {
      var f: Failure :| f.at == s && Excepts(workers, me, f) && Lost(me, f) && Healthy(me, f.first)
                        && Healthy(me, f.second);
      LostNeedsVm(workers, me, f);
    }
    if me.vm in s.vms {
      var f := Failure([], s, false, [Event(me, ReadVm(false))], [Event(me, ReadVm(true))]);
      SecondReadFails(workers, me, f);
    }
    if me.vm in s.vms && me.vm in s.deleting {
      var f := Failure([], s, false, [Event(me, ReadVm(false))], [Event(me, Vanish), Event(me, ReadVm(false))]);
      GoneBetweenReads(workers, me, f);
    }
  }

  lemma OneCall(workers: set<Worker>, me: Worker, s: Cluster, a: Action)
    requires me in workers && Allowed(me, s, a) && !a.Vanish?
    ensures IsCall(workers, me, s, [Event(me, a)]) && After(s, [Event(me, a)]) == Apply(me, s, a)
  {
    assert [] + [Event(me, a)] == [Event(me, a)];
    CallAfter(workers, me, s, [], a);
  }

  /** The VM exists, but the second read fails. */
  lemma SecondReadFails(workers: set<Worker>, me: Worker, f: Failure)
    requires me in workers && me.vm in f.at.vms && !f.bound
    requires f.first == [Event(me, ReadVm(false))] && f.second == [Event(me, ReadVm(true))]
    ensures Excepts(workers, me, f) && Lost(me, f)
    ensures f.End().vms == f.at.vms && f.End().secrets == f.at.secrets && f.End().dropped == f.at.dropped
  {
    OneCall(workers, me, f.at, ReadVm(false));
    OneCall(workers, me, f.Between(), ReadVm(true));
  }

  /** The VM is under deletion, and gone when the second read comes; no read fails. */
  lemma GoneBetweenReads(workers: set<Worker>, me: Worker, f: Failure)
    requires me in workers && me.vm in f.at.vms && me.vm in f.at.deleting && !f.bound
    requires f.first == [Event(me, ReadVm(false))]
    requires f.second == [Event(me, Vanish), Event(me, ReadVm(false))]
    ensures Excepts(workers, me, f) && Lost(me, f) && Healthy(me, f.first) && Healthy(me, f.second)
    ensures me.vm !in f.End().vms && f.End().secrets == f.at.secrets && f.End().dropped == f.at.dropped
  {
    OneCall(workers, me, f.at, ReadVm(false));
    var others := [Event(me, Vanish)];
    assert others[1..] == [] && others + [Event(me, ReadVm(false))] == f.second;
    CallAfter(workers, me, f.Between(), others, ReadVm(false));
  }

  // ----- two whole runs ----------------------------------------------------

  /** create makes the Secret and asks for the VM. */
  function Begun(me: Worker, volumes: seq<string>, applied: bool): seq<Event> {
    [Event(me, PutSecret(true, true))] + [Event(me, CreateVm(volumes, applied))]
  }

  lemma Begins(workers: set<Worker>, me: Worker, s: Cluster, volumes: seq<string>, applied: bool)
    requires me in workers
    ensures Possible(workers, s, Begun(me, volumes, applied))
    ensures After(s, Begun(me, volumes, applied)) ==
            Apply(me, Apply(me, s, PutSecret(true, true)), CreateVm(volumes, applied))
  {
    var s1 := Apply(me, s, PutSecret(true, true));
    OneCall(workers, me, s, PutSecret(true, true));
    OneCall(workers, me, s1, CreateVm(volumes, applied));
    PossibleBoth(workers, s, [Event(me, PutSecret(true, true))], [Event(me, CreateVm(volumes, applied))]);
    AfterBoth(s, [Event(me, PutSecret(true, true))], [Event(me, CreateVm(volumes, applied))]);
  }

  /** create for a VM that is still under deletion, without any failing read: the VM is found by the
      first read and gone at the second, its Secret stays, and nobody deletes it. */
  lemma VmUnderDeletionIsLost(workers: set<Worker>, me: Worker, s: Cluster, volumes: seq<string>)
    requires Separate(workers) && Inv(workers, s) && me in workers && me.vm in s.deleting
    ensures var f := Failure(Begun(me, volumes, false), After(s, Begun(me, volumes, false)), false,
                             [Event(me, ReadVm(false))], [Event(me, Vanish), Event(me, ReadVm(false))]);
            && Possible(workers, s, f.tried) && Excepts(workers, me, f) && Lost(me, f)
            && me.vm !in f.End().vms && SecretName(me.vm) in f.End().secrets && me !in f.End().dropped
  {
    var f := Failure(Begun(me, volumes, false), After(s, Begun(me, volumes, false)), false,
                     [Event(me, ReadVm(false))], [Event(me, Vanish), Event(me, ReadVm(false))]);
    Begins(workers, me, s, volumes, false);
    GoneBetweenReads(workers, me, f);
  }

  /** create from any namespace, with the VM made and found by the first read, and a second read
      that fails: VM and Secret stay, and the node is not bound. */
  lemma FoundVmIsLost(workers: set<Worker>, me: Worker, s: Cluster, volumes: seq<string>)
    requires me in workers
    ensures var f := Failure(Begun(me, volumes, true), After(s, Begun(me, volumes, true)), false,
                             [Event(me, ReadVm(false))], [Event(me, ReadVm(true))]);
            && Possible(workers, s, f.tried) && Excepts(workers, me, f) && Lost(me, f)
            && me.vm in f.End().vms && SecretName(me.vm) in f.End().secrets && me !in f.End().dropped
  {
    var f := Failure(Begun(me, volumes, true), After(s, Begun(me, volumes, true)), false,
                     [Event(me, ReadVm(false))], [Event(me, ReadVm(true))]);
    Begins(workers, me, s, volumes, true);
    SecondReadFails(workers, me, f);
  }
}
