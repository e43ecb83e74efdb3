/** create_ocpvirt_ceph_nodes (ceph/utils.py): the work list, the two batched phases and
    the rollback. */
module Provision {
  import opened Basics
  import opened K8sNames
  import opened NodeNames
  import opened OcpCluster
  import B = Batches

  /** What the cluster file says of one node: its roles and the number of its disks. */
  datatype NodeConf = NodeConf(roles: set<string>, volumes: nat)

  datatype Work = Work(key: nat, vm: string, volumes: nat) {
    function Names(): seq<string> { VolumeNames(vm, volumes) }
  }

  /** One DataVolume to create, and for which node. */
  datatype Job = Job(key: nat, volume: string)

  datatype End = Done | BatchFailed | Mismatch

  function NodeWork(conf: map<nat, NodeConf>, n: Naming, lower: string -> string, key: nat): Work
    requires key in conf
  {
    Work(key, VmName(lower, n, key, conf[key].roles), conf[key].volumes)
  }

  /** The nodes numbered from 1 up to the first gap, and at most 99 of them. */
  function WorkFrom(conf: map<nat, NodeConf>, n: Naming, lower: string -> string, key: nat): seq<Work>
    decreases 100 - key
  {
    if key >= 100 || key !in conf then []
    else [NodeWork(conf, n, lower, key)] + WorkFrom(conf, n, lower, key + 1)
  }

  /** All volumes of the nodes that are not registered, in work order. */
  function Unregistered(work: seq<Work>, registered: set<nat>): seq<string> {
    if work == [] then []
    else
      var n := |work| - 1;
      Unregistered(work[..n], registered) + if work[n].key in registered then [] else work[n].Names()
  }

  function JobsOf(w: Work): (jobs: seq<Job>) {
    seq(w.volumes, i requires 0 <= i < w.volumes => Job(w.key, w.Names()[i]))
  }

  /** All volumes of all nodes, in work order. */
  function AllJobs(work: seq<Work>): seq<Job> {
    if work == [] then []
    else
      var n := |work| - 1;
      AllJobs(work[..n]) + JobsOf(work[n])
  }

  /** How many volumes the first i nodes have. */
  function Offset(work: seq<Work>, i: nat): nat
    requires i <= |work|
  {
    if i == 0 then 0 else Offset(work, i - 1) + work[i - 1].volumes
  }

  lemma {:induction false} OffsetOfPrefix(work: seq<Work>, n: nat, i: nat)
    requires i <= n <= |work|
    ensures Offset(work[..n], i) == Offset(work, i)
  {
    if i > 0 { OffsetOfPrefix(work, n, i - 1); }
  }

  lemma {:induction false} JobCount(work: seq<Work>)
    ensures |AllJobs(work)| == Offset(work, |work|)
  {
    if work != [] {
      var n := |work| - 1;
      JobCount(work[..n]);
      OffsetOfPrefix(work, n, n);
    }
  }

  /** The jobs, one by one: disk idx of node i comes behind all disks of the nodes before it. */
  lemma {:induction false} JobsExactly(work: seq<Work>, i: nat, idx: nat)
    requires i < |work| && idx < work[i].volumes
    ensures |AllJobs(work)| == Offset(work, |work|)
    ensures var at := Offset(work, i) + idx;
            at < |AllJobs(work)| && AllJobs(work)[at] == Job(work[i].key, work[i].vm + "-vol-" + Decimal(idx))
  {
    var n := |work| - 1;
    JobCount(work);
    JobCount(work[..n]);
    OffsetOfPrefix(work, n, n);
    if i < n {
      JobsExactly(work[..n], i, idx);
      OffsetOfPrefix(work, n, i);
    } else {
      assert work[n].Names()[idx] == VolumeName(work[n].vm, idx);
    }
  }

  method BuildJobs(work: seq<Work>) returns (jobs: seq<Job>)
    ensures jobs == AllJobs(work)
  {
    jobs := [];
    for i := 0 to |work|
      invariant jobs == AllJobs(work[..i])
    {
      assert work[..i + 1][..i] == work[..i];
      var names := work[i].Names();
      ghost var before := jobs;
      for k := 0 to |names|
        invariant jobs == before + JobsOf(work[i])[..k]
      {
        assert JobsOf(work[i])[..k + 1] == JobsOf(work[i])[..k] + [Job(work[i].key, names[k])];
        jobs := jobs + [Job(work[i].key, names[k])];
      }
      assert JobsOf(work[i])[..|names|] == JobsOf(work[i]);
    }
    assert work[..|work|] == work;
  }

  lemma NextWork(conf: map<nat, NodeConf>, n: Naming, lower: string -> string, key: nat, work: seq<Work>)
    requires key < 100 && key in conf
    ensures work + WorkFrom(conf, n, lower, key) ==
            (work + [NodeWork(conf, n, lower, key)]) + WorkFrom(conf, n, lower, key + 1)
  {
  }

  method BuildWork(conf: map<nat, NodeConf>, n: Naming, lower: string -> string) returns (work: seq<Work>)
    ensures work == WorkFrom(conf, n, lower, 1)
  {
    work := [];
    var key := 1;
    while key < 100
      invariant 1 <= key <= 100
      invariant work + WorkFrom(conf, n, lower, key) == WorkFrom(conf, n, lower, 1)
      decreases 100 - key
    {
      if key !in conf { break; }
      NextWork(conf, n, lower, key, work);
      work := work + [NodeWork(conf, n, lower, key)];
      key := key + 1;
    }
  }

  method Rollback(work: seq<Work>, registered: set<nat>) returns (deletes: seq<string>)
    ensures deletes == Unregistered(work, registered)
  {
    deletes := [];
    for i := 0 to |work|
      invariant deletes == Unregistered(work[..i], registered)
    {
      assert work[..i + 1][..i] == work[..i];
      if work[i].key !in registered { deletes := deletes + work[i].Names(); }
    }
    assert work[..|work|] == work;
  }

  /** The keys a batched run registers: those of the attempted items whose worker returned. */
  function Registered(work: seq<Work>, ok: nat -> bool, attempted: nat): set<nat> {
    set i: nat | i < attempted && i < |work| && ok(i) :: work[i].key
  }

  /** `volumeOk` and `vmOk` tell which volume job and which node set-up return; `jobs` are the
      volumes whose creation was attempted. */
  method CreateNodes(conf: map<nat, NodeConf>, n: Naming, lower: string -> string, volumeBatch: int, vmBatch: int,
                     volumeOk: nat -> bool, vmOk: nat -> bool)
    returns (end: End, nodes: set<nat>, jobs: seq<Job>, deletes: seq<string>)
    ensures var work := WorkFrom(conf, n, lower, 1);
            && end != Mismatch
            && (end.Done? <==> B.AllOk(volumeOk, 0, |AllJobs(work)|) && B.AllOk(vmOk, 0, |work|))
            && (end.Done? ==> nodes == Keys(work) && jobs == AllJobs(work) && deletes == [])
            && (end.BatchFailed? ==> deletes == Unregistered(work, nodes))
            && jobs == Tried(work, volumeBatch, volumeOk)
            && nodes == (if B.AllOk(volumeOk, 0, |AllJobs(work)|) then NodesOf(work, vmBatch, vmOk) else {})
            && (end.BatchFailed? && B.AllOk(volumeOk, 0, |AllJobs(work)|) ==>
                 exists failed: nat :: failed < |work| && !vmOk(failed) && work[failed].key !in nodes)
  {
    var work := BuildWork(conf, n, lower);
    WorkAscends(conf, n, lower, 1);
    nodes, deletes := {}, [];
    var made;
    jobs, made := CreateVolumes(work, volumeBatch, volumeOk);
    if !made {
      deletes := Rollback(work, nodes);
      return BatchFailed, nodes, jobs, deletes;
    }
    var success;
    success, nodes := SetUpAll(work, vmBatch, vmOk);
    if !success {
      deletes := Rollback(work, nodes);
      return BatchFailed, nodes, jobs, deletes;
    }
    if |work| != 0 && |nodes| != |work| { return Mismatch, nodes, jobs, deletes; }
    end := Done;
  }

  /** The volumes whose creation is attempted. */
  function Tried(work: seq<Work>, volumeBatch: int, volumeOk: nat -> bool): seq<Job> {
    var all := AllJobs(work);
    B.AttemptedBounds(B.Plan(|all|, volumeBatch), volumeOk, 0);
    all[..B.Attempted(B.Plan(|all|, volumeBatch), volumeOk, 0)]
  }

  method CreateVolumes(work: seq<Work>, volumeBatch: int, volumeOk: nat -> bool)
    returns (tried: seq<Job>, made: bool)
    ensures made == B.AllOk(volumeOk, 0, |AllJobs(work)|) && tried == Tried(work, volumeBatch, volumeOk)
    ensures made ==> tried == AllJobs(work)
  {
    var jobs := BuildJobs(work);
    var batches;
    batches, made := B.RunInBatches(B.Plan(|jobs|, volumeBatch), volumeOk);
    B.AttemptedBounds(B.Plan(|jobs|, volumeBatch), volumeOk, 0);
    tried := jobs[..if batches == [] then 0 else batches[|batches| - 1].1];
  }

  /** A prefix of the jobs, up to the end of the first batch in which one fails. */
  lemma TriedExactly(work: seq<Work>, volumeBatch: int, volumeOk: nat -> bool, i: nat)
    requires i < |AllJobs(work)|
    ensures Tried(work, volumeBatch, volumeOk) <= AllJobs(work)
    ensures i < |Tried(work, volumeBatch, volumeOk)| <==>
            B.EarlierBatchesOk(volumeOk, if volumeBatch > 1 then volumeBatch else 1, i)
  {
    TriedPrefix(work, volumeBatch, volumeOk);
    B.AttemptedItems(B.Plan(|AllJobs(work)|, volumeBatch), volumeOk, i);
  }

  lemma TriedPrefix(work: seq<Work>, volumeBatch: int, volumeOk: nat -> bool)
    ensures Tried(work, volumeBatch, volumeOk) <= AllJobs(work)
    ensures |Tried(work, volumeBatch, volumeOk)| == B.Attempted(B.Plan(|AllJobs(work)|, volumeBatch), volumeOk, 0)
  {
    B.AttemptedBounds(B.Plan(|AllJobs(work)|, volumeBatch), volumeOk, 0);
  }

  /** The keys registered when all volumes are made. */
  function NodesOf(work: seq<Work>, vmBatch: int, vmOk: nat -> bool): set<nat> {
    Registered(work, vmOk, B.Attempted(B.Plan(|work|, vmBatch), vmOk, 0))
  }

  /** Those of the nodes whose own set-up returns, and every set-up of the batches before theirs. */
  lemma NodesExactly(work: seq<Work>, vmBatch: int, vmOk: nat -> bool, key: nat)
    ensures var size := if vmBatch > 1 then vmBatch else 1;
            key in NodesOf(work, vmBatch, vmOk) <==>
            exists i: nat :: i < |work| && work[i].key == key && vmOk(i) && B.EarlierBatchesOk(vmOk, size, i)
  {
    var p := B.Plan(|work|, vmBatch);
    forall i: nat | i < |work| ensures i < B.Attempted(p, vmOk, 0) <==> B.EarlierBatchesOk(vmOk, p.Size(), i) {
      B.AttemptedItems(p, vmOk, i);
    }
  }

  ghost predicate Ascending(work: seq<Work>) { forall i, j :: 0 <= i < j < |work| ==> work[i].key < work[j].key }

  /** The batched set-up of the nodes, each worker registering its node at the end. */
  method SetUpAll(work: seq<Work>, vmBatch: int, vmOk: nat -> bool) returns (success: bool, nodes: set<nat>)
    requires Ascending(work)
    ensures success == B.AllOk(vmOk, 0, |work|)
    ensures nodes == Registered(work, vmOk, B.Attempted(B.Plan(|work|, vmBatch), vmOk, 0))
    ensures success ==> nodes == Keys(work) && |nodes| == |work|
    ensures !success ==> exists failed: nat :: failed < |work| && !vmOk(failed) && work[failed].key !in nodes
  {
    var setups := B.Plan(|work|, vmBatch);
    var batches;
    batches, success := B.RunInBatches(setups, vmOk);
    B.AttemptedBounds(setups, vmOk, 0);
    var attempted := if batches == [] then 0 else batches[|batches| - 1].1;
    nodes := Registered(work, vmOk, attempted);
    if success {
      KeyCount(work);
      assert nodes == Keys(work);
    } else {
      var failed := B.FirstFailure(vmOk, |work|);
      assert work[failed].key !in nodes;
    }
  }

  function Keys(work: seq<Work>): set<nat> { set w <- work :: w.key }

  /** The nodes listed from `key` on: those before the first gap and below 100. */
  ghost predicate Listed(conf: map<nat, NodeConf>, key: nat, k: nat) {
    key <= k < 100 && forall i: nat :: key <= i <= k ==> i in conf
  }

  ghost predicate WorkOf(conf: map<nat, NodeConf>, n: Naming, lower: string -> string, w: Work) {
    w.key in conf && w == Work(w.key, VmName(lower, n, w.key, conf[w.key].roles), conf[w.key].volumes)
  }

  lemma WorkStep(conf: map<nat, NodeConf>, n: Naming, lower: string -> string, key: nat)
    requires key < 100 && key in conf
    ensures var work := WorkFrom(conf, n, lower, key);
            && work != [] && WorkOf(conf, n, lower, work[0]) && work[0].key == key
            && work == [work[0]] + WorkFrom(conf, n, lower, key + 1)
  {
  }

  ghost predicate HasKey(work: seq<Work>, k: nat) { exists w <- work :: w.key == k }

  lemma HasKeyCons(w: Work, rest: seq<Work>, k: nat)
    ensures HasKey([w] + rest, k) <==> w.key == k || HasKey(rest, k)
  {
    assert ([w] + rest)[0] == w;
  }

  lemma {:induction false} ListedHasWork(conf: map<nat, NodeConf>, n: Naming, lower: string -> string, key: nat, k: nat)
    requires Listed(conf, key, k)
    ensures HasKey(WorkFrom(conf, n, lower, key), k)
    decreases 100 - key
  {
    WorkStep(conf, n, lower, key);
    HasKeyCons(WorkFrom(conf, n, lower, key)[0], WorkFrom(conf, n, lower, key + 1), k);
    if k > key { ListedHasWork(conf, n, lower, key + 1, k); }
  }

  lemma {:induction false} WorkIsListed(conf: map<nat, NodeConf>, n: Naming, lower: string -> string, key: nat)
    ensures forall w <- WorkFrom(conf, n, lower, key) :: Listed(conf, key, w.key) && WorkOf(conf, n, lower, w)
    decreases 100 - key
  {
    if key < 100 && key in conf {
      WorkStep(conf, n, lower, key);
      WorkIsListed(conf, n, lower, key + 1);
      forall w | w in WorkFrom(conf, n, lower, key)
        ensures Listed(conf, key, w.key) && WorkOf(conf, n, lower, w)
      {
        assert w == WorkFrom(conf, n, lower, key)[0] || w in WorkFrom(conf, n, lower, key + 1);
      }
    }
  }

  /** The work list holds exactly the nodes up to the first gap, each as the file says. */
  lemma WorkExactly(conf: map<nat, NodeConf>, n: Naming, lower: string -> string, key: nat)
    ensures forall w <- WorkFrom(conf, n, lower, key) :: Listed(conf, key, w.key) && WorkOf(conf, n, lower, w)
    ensures forall k: nat :: Listed(conf, key, k) ==> HasKey(WorkFrom(conf, n, lower, key), k)
  {
    WorkIsListed(conf, n, lower, key);
    forall k: nat | Listed(conf, key, k) ensures HasKey(WorkFrom(conf, n, lower, key), k) {
      ListedHasWork(conf, n, lower, key, k);
    }
  }

  lemma {:induction false} WorkAscends(conf: map<nat, NodeConf>, n: Naming, lower: string -> string, key: nat)
    ensures Ascending(WorkFrom(conf, n, lower, key))
    decreases 100 - key
  {
    if key < 100 && key in conf {
      WorkAscends(conf, n, lower, key + 1);
      WorkExactly(conf, n, lower, key + 1);
      AscendingCons(WorkFrom(conf, n, lower, key)[0], WorkFrom(conf, n, lower, key + 1));
    }
  }

  lemma AscendingCons(w: Work, rest: seq<Work>)
    requires Ascending(rest) && forall u <- rest :: w.key < u.key
    ensures Ascending([w] + rest)
  {
  }

  lemma {:induction false} KeyCount(work: seq<Work>)
    requires Ascending(work)
    ensures |Keys(work)| == |work|
  {
    if work != [] {
      var n := |work| - 1;
      KeyCount(work[..n]);
      assert Keys(work) == Keys(work[..n]) + {work[n].key};
      assert work[n].key !in Keys(work[..n]);
    }
  }

  /** Rollback deletes a volume exactly if an unregistered node has a volume of that name. */
  lemma {:induction false} RollbackExactly(work: seq<Work>, registered: set<nat>, vm: string, idx: nat)
    ensures VolumeName(vm, idx) in Unregistered(work, registered)
       <==> exists w <- work :: w.key !in registered && w.vm == vm && idx < w.volumes
  {
    if work != [] {
      var n := |work| - 1;
      assert work == work[..n] + [work[n]];
      RollbackExactly(work[..n], registered, vm, idx);
      NamesExactly(work[n], vm, idx);
    }
  }

  lemma NamesExactly(w: Work, vm: string, idx: nat)
    ensures VolumeName(vm, idx) in w.Names() <==> w.vm == vm && idx < w.volumes
  {
    if VolumeName(vm, idx) in w.Names() {
      var i: nat :| i < w.volumes && w.Names()[i] == VolumeName(vm, idx);
      VolumeNameInjective(vm, idx, w.vm, i);
    }
    if w.vm == vm && idx < w.volumes { assert w.Names()[idx] == VolumeName(vm, idx); }
  }

  /** The names are those of the jobs at these positions: of all whose node is not registered. */
  ghost predicate Undone(jobs: seq<Job>, registered: set<nat>, at: seq<nat>, names: seq<string>) {
    && AscendingBelow(at, |jobs|) && |names| == |at|
    && (forall k :: 0 <= k < |at| ==> at[k] < |jobs| && names[k] == jobs[at[k]].volume)
    && (forall i: nat :: i < |jobs| ==> (i in at <==> jobs[i].key !in registered))
  }

  lemma UndoneMore(jobs: seq<Job>, registered: set<nat>, at: seq<nat>, names: seq<string>, j: Job)
    requires Undone(jobs, registered, at, names)
    ensures if j.key in registered then Undone(jobs + [j], registered, at, names)
            else Undone(jobs + [j], registered, at + [|jobs|], names + [j.volume])
  {
    OneMoreAscends(at, |jobs|);
    assert |jobs| !in at;
    forall i: nat | i < |jobs| ensures (jobs + [j])[i] == jobs[i] {}
  }

  /** The jobs of one more node. */
  lemma {:induction false} UndoneNode(jobs: seq<Job>, registered: set<nat>, at: seq<nat>, names: seq<string>,
                                      w: Work, k: nat) returns (at': seq<nat>)
    requires Undone(jobs, registered, at, names) && k <= w.volumes
    ensures Undone(jobs + JobsOf(w)[..k], registered, at', names + if w.key in registered then [] else w.Names()[..k])
  {
    at' := at;
    if k == 0 {
      assert jobs + JobsOf(w)[..0] == jobs && names + [] == names && names + w.Names()[..0] == names;
    } else {
      at' := UndoneNode(jobs, registered, at, names, w, k - 1);
      var job := JobsOf(w)[k - 1];
      var before := jobs + JobsOf(w)[..k - 1];
      var so := names + if w.key in registered then [] else w.Names()[..k - 1];
      UndoneMore(before, registered, at', so, job);
      assert before + [job] == jobs + JobsOf(w)[..k];
      assert names + w.Names()[..k - 1] + [job.volume] == names + w.Names()[..k];
      if w.key !in registered { at' := at' + [|before|]; }
    }
  }

  /** Rollback undoes the jobs of the unregistered nodes, in the order in which they were handed out. */
  lemma {:induction false} RollbackInOrder(work: seq<Work>, registered: set<nat>) returns (at: seq<nat>)
    ensures Undone(AllJobs(work), registered, at, Unregistered(work, registered))
  {
    at := [];
    if work != [] {
      var n := |work| - 1;
      var w := work[n];
      at := RollbackInOrder(work[..n], registered);
      at := UndoneNode(AllJobs(work[..n]), registered, at, Unregistered(work[..n], registered), w, w.volumes);
      assert JobsOf(w)[..w.volumes] == JobsOf(w) && w.Names()[..w.volumes] == w.Names();
    }
  }

  /** Every volume of every unregistered node goes. */
  lemma RollbackComplete(work: seq<Work>, registered: set<nat>)
    ensures forall w, v :: w in work && w.key !in registered && v in w.Names() ==> v in Unregistered(work, registered)
  {
    forall w, v | w in work && w.key !in registered && v in w.Names() ensures v in Unregistered(work, registered) {
      var idx: nat :| idx < w.volumes && w.Names()[idx] == v;
      RollbackExactly(work, registered, w.vm, idx);
    }
  }

  /** A registered node whose volume is deleted. */
  ghost predicate Loses(work: seq<Work>, registered: set<nat>, w: Work) {
    w in work && w.key in registered && exists v <- w.Names() :: v in Unregistered(work, registered)
  }

  /** A registered node loses a volume if and only if an unregistered node with a volume has its
      VM name. */
  lemma LosesExactly(work: seq<Work>, registered: set<nat>, w: Work)
    requires w in work && w.key in registered
    ensures Loses(work, registered, w) <==>
            w.volumes > 0 && exists u <- work :: u.key !in registered && u.vm == w.vm && u.volumes > 0
  {
    RollbackExactly(work, registered, w.vm, 0);
    if Loses(work, registered, w) {
      var v :| v in w.Names() && v in Unregistered(work, registered);
      var idx: nat :| idx < w.volumes && w.Names()[idx] == v;
      RollbackExactly(work, registered, w.vm, idx);
    } else if w.volumes > 0 {
      NamesExactly(w, w.vm, 0);
    }
  }

  /** In a run: if and only if the number of an unregistered node with a volume collides with its
      own. So never with a cleaned name prefix of up to 57 characters, and from 59 on whenever a
      node with volumes is registered and another is not. */
  lemma LosesByCollision(conf: map<nat, NodeConf>, n: Naming, lower: string -> string, registered: set<nat>, w: Work)
    requires LowersInParts(lower)
    requires var work := WorkFrom(conf, n, lower, 1); w in work && w.key in registered
    ensures var work, length := WorkFrom(conf, n, lower, 1), |Cleaned(lower, n)|;
            && (Loses(work, registered, w) <==>
                w.volumes > 0
                && exists u <- work :: u.key !in registered && u.volumes > 0 && Collide(lower, n, u.key, w.key))
            && (length <= 57 ==> !Loses(work, registered, w))
            && (length >= 59 ==> (Loses(work, registered, w) <==>
                                  w.volumes > 0 && exists u <- work :: u.key !in registered && u.volumes > 0))
  {
    var work := WorkFrom(conf, n, lower, 1);
    LosesExactly(work, registered, w);
    WorkExactly(conf, n, lower, 1);
    forall u | u in work && u.key !in registered
      ensures u.vm == w.vm <==> Collide(lower, n, u.key, w.key)
      ensures |Cleaned(lower, n)| <= 57 ==> u.vm != w.vm
      ensures |Cleaned(lower, n)| >= 59 ==> u.vm == w.vm
    {
      CollideExactly(lower, n, u.key, conf[u.key].roles, w.key, conf[w.key].roles);
      CollideByLength(lower, n, u.key, w.key);
    }
  }

  /** With a long cluster name the failure of node 2 takes the volume of node 1 with it, however
      the set-ups are batched. */
  lemma RollbackHitsRegistered(lower: string -> string, vmBatch: int)
    requires LowersInParts(lower) && KeepsLabels(lower)
    ensures var conf := map[1 := NodeConf({"mon", "osd"}, 3), 2 := NodeConf({"osd"}, 3)];
            var work, vmOk := WorkFrom(conf, LongNaming(), lower, 1), (i: nat) => i == 0;
            && NodesOf(work, vmBatch, vmOk) == {1}
            && exists w: Work :: w.key == 1 && Loses(work, NodesOf(work, vmBatch, vmOk), w)
  {
    var conf := map[1 := NodeConf({"mon", "osd"}, 3), 2 := NodeConf({"osd"}, 3)];
    var work := WorkFrom(conf, LongNaming(), lower, 1);
    TwoNodes(conf, LongNaming(), lower);
    FirstOfTwo(work, vmBatch);
    assert work[0] in work && work[1] in work;
    LongNamingCollides(lower, 1, 2);
    LosesByCollision(conf, LongNaming(), lower, {1}, work[0]);
  }

  lemma TwoNodes(conf: map<nat, NodeConf>, n: Naming, lower: string -> string)
    requires conf.Keys == {1, 2}
    ensures var work := WorkFrom(conf, n, lower, 1);
            && |work| == 2 && work[0].key == 1 && work[1].key == 2
            && work[0].volumes == conf[1].volumes && work[1].volumes == conf[2].volumes
  {
    var rest := WorkFrom(conf, n, lower, 2);
    WorkStep(conf, n, lower, 1);
    WorkStep(conf, n, lower, 2);
    assert WorkFrom(conf, n, lower, 3) == [];
    assert rest == [rest[0]] + [];
  }

  lemma FirstOfTwo(work: seq<Work>, vmBatch: int)
    requires |work| == 2
    ensures NodesOf(work, vmBatch, (i: nat) => i == 0) == {work[0].key}
  {
    var p, vmOk := B.Plan(2, vmBatch), (i: nat) => i == 0;
    assert !vmOk(1);
    if vmBatch <= 1 {
      assert B.Attempted(p, vmOk, 0) == B.Attempted(p, vmOk, 1);
    }
    assert B.Attempted(p, vmOk, 0) == 2;
    assert vmOk(0);
  }

  // ----- the workers of a run ----------------------------------------------

  /** One node object per node of the run. */
  ghost predicate RunWorkers(conf: map<nat, NodeConf>, n: Naming, lower: string -> string, workers: set<Worker>) {
    forall w <- workers :: 1 <= w.id < 100 && w.id in conf && w.vm == VmName(lower, n, w.id, conf[w.id].roles)
  }

  /** The workers of a run are separate, as OcpCluster wants them, exactly if no two of their
      node numbers collide; with a cleaned prefix of up to 57 characters they always are. */
  lemma RunWorkersSeparate(conf: map<nat, NodeConf>, n: Naming, lower: string -> string, workers: set<Worker>)
    requires LowersInParts(lower) && RunWorkers(conf, n, lower, workers)
    ensures Separate(workers) <==> forall v, w | v in workers && w in workers :: !Collide(lower, n, v.id, w.id)
    ensures |Cleaned(lower, n)| <= 57 ==> Separate(workers)
  {
    forall w | w in workers ensures IsLabel(w.vm) {
      SanitizeGivesLabel(lower, GenerateNodeName(n, w.id, conf[w.id].roles));
    }
    forall v, w | v in workers && w in workers && v != w
      ensures !Clash(v.vm, w.vm) && (v.vm == w.vm <==> Collide(lower, n, v.id, w.id))
      ensures |Cleaned(lower, n)| <= 57 ==> v.vm != w.vm
    {
      NeverClash(lower, n, v.id, conf[v.id].roles, w.id, conf[w.id].roles);
      CollideExactly(lower, n, v.id, conf[v.id].roles, w.id, conf[w.id].roles);
      CollideByLength(lower, n, v.id, w.id);
    }
  }
}
