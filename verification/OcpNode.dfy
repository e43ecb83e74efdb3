/** CephVMNodeOCP.create and delete (compute/openshift.py) and the retried set-up of a
    node (ceph/utils.py), step by step against the shared namespace. */
module OcpNode {
  import opened Options
  import opened K8sNames
  import opened OcpAnswers
  import opened OcpCluster
  import opened OcpExcept

  /** How a call ends: normally, with NodeError, NodeDeleteFailure or another exception. */
  datatype End = Normal | NodeError | DeleteFailure | OtherError

  datatype VmObject = VmObject(name: string, volumes: seq<string>)

  class CephVMNodeOCP {
    const api: Api
    const me: Worker              // this node object and the VM name it is used with
    var node: Option<VmObject>
    var precreated: seq<string>
    ghost var readFailed: bool    // did a VM read of ours fail with anything but 404?
    ghost var issued: set<string> // the DataVolumes whose deletion this object issued

    ghost predicate Valid()
      reads this, api
    {
      && api.Valid() && me in api.workers
      && (node.Some? ==> node.value.name == me.vm)
      && (me in api.c.misread ==> readFailed)
    }

    constructor (api: Api, me: Worker, ghost failedBefore: bool)
      requires api.Valid() && me in api.workers && (me in api.c.misread ==> failedBefore)
      ensures Valid() && this.api == api && this.me == me && node == None && precreated == []
      ensures readFailed == failedBefore && issued == {}
    {
      this.api, this.me := api, me;
      node, precreated, readFailed, issued := None, [], failedBefore, {};
    }

    /** _get_vm: a failing read is taken for "no such VM". */
    method GetVm(fails: bool) returns (vm: Option<VmObject>, ghost run: seq<Event>)
      requires Valid()
      modifies api, `readFailed
      ensures Valid() && readFailed == (old(readFailed) || fails)
      ensures api.log == old(api.log) + run && IsRead(api.workers, me, old(api.c), run)
      ensures api.c == After(old(api.c), run) && run[|run| - 1].action.fails == fails
      ensures vm.Some? ==> me.vm in api.c.vms && vm.value == VmObject(me.vm, api.c.vms[me.vm])
      ensures vm.None? <==> me in api.c.absent
      ensures fails ==> vm.None?
      ensures vm.None? && !fails ==> me.vm !in api.c.vms
      ensures me.vm in old(api.c.vms) && vm.None? ==> readFailed || me.vm in old(api.c.deleting)
      ensures Kept(old(api.c), api.c)
    {
      run := api.Call(me, ReadVm(fails));
      readFailed := readFailed || fails;
      vm := if fails || me.vm !in api.c.vms then None else Some(VmObject(me.vm, api.c.vms[me.vm]));
    }

    /** The VM exists, and nobody is taking it away. */
    ghost predicate Stays(s: Cluster) { me.vm in s.vms && me.vm !in s.deleting }

    /** What the steps of others do to the VM. */
    ghost predicate SameVm(s: Cluster, s': Cluster) {
      && (Stays(s) ==> Stays(s') && s'.vms[me.vm] == s.vms[me.vm])
      && (me.vm in s'.deleting ==> me.vm in s.deleting) && (me.vm in s'.vms ==> me.vm in s.vms)
    }

    /** Its deletion was accepted, unless it is gone already. */
    ghost predicate Leaving(s: Cluster) { me.vm in s.vms ==> me.vm in s.deleting }

    /** What reading leaves alone. */
    ghost predicate Kept(s: Cluster, s': Cluster) {
      && SameVm(s, s')
      && (me in s.prepared <==> me in s'.prepared)
      && (me in s.dropped <==> me in s'.dropped)
      && (Leaving(s) ==> Leaving(s'))
      && s.volumeDrops <= s'.volumeDrops
    }

    /** A read of which only the answer matters. */
    method Look(fails: bool) returns (vm: Option<VmObject>)
      requires Valid()
      modifies api, `readFailed
      ensures Valid() && (old(readFailed) ==> readFailed) && Kept(old(api.c), api.c) && old(api.log) <= api.log
      ensures Stays(old(api.c)) ==> (vm.None? <==> fails)
      ensures vm.Some? ==> vm.value.name == me.vm
    {
      ghost var run;
      vm, run := GetVm(fails);
    }

    /** _ensure_cloudinit_secret: create, or replace on 409. */
    method EnsureSecret(answer: SecretAnswer) returns (end: End)
      requires Valid()
      modifies api
      ensures Valid() && old(api.log) <= api.log
      ensures end.Normal? <==> SecretMade(answer)
      ensures end.NodeError? <==> answer.Refused?
      ensures end.Normal? ==> me in api.c.prepared && me !in api.c.dropped
      ensures end.Normal? || end.NodeError? || end.OtherError?
      ensures SameVm(old(api.c), api.c)
    {
      match answer {
        case Created =>
          var _ := api.Call(me, PutSecret(true, true));
          return Normal;
        case Conflict(replaced) =>
          var _ := api.Call(me, PutSecret(replaced, replaced));
          return if replaced then Normal else OtherError;
        case Refused(applied) =>
          var _ := api.Call(me, PutSecret(false, applied));
          return NodeError;
      }
    }

    /** The polls of the wait until ready: true if one of them was satisfied with what it read. */
    method WaitUntilVmReady(polls: seq<Poll<Status>>) returns (ok: bool)
      requires Valid()
      modifies api, `readFailed
      ensures Valid() && (old(readFailed) ==> readFailed)
      ensures Kept(old(api.c), api.c) && old(api.log) <= api.log
      ensures Stays(old(api.c)) ==> (ok <==> GetsReady(polls))
    {
      ghost var stays := Stays(api.c);
      for i := 0 to |polls|
        invariant Valid() && (old(readFailed) ==> readFailed) && Kept(old(api.c), api.c) && old(api.log) <= api.log
        invariant stays ==> StillWaiting(polls, i)
      {
        if stays { ReadyTurn(polls, i); }
        var vm := Look(polls[i].fails);
        if vm.Some? {
          if polls[i].shows.Ready? { return true; }
          if polls[i].shows.Broken? { return false; }
        }
      }
      if stays { ReadyNever(polls); }
      return false;
    }

    /** Each poll refreshes the bound node; the address is read off the VMI. */
    method WaitUntilIpKnown(polls: seq<Poll<Ip>>, last: Poll<Ip>) returns (ok: bool)
      requires Valid()
      modifies api, `readFailed, `node
      ensures Valid() && (old(readFailed) ==> readFailed)
      ensures Kept(old(api.c), api.c) && (old(node).Some? ==> node.Some?) && old(api.log) <= api.log
      ensures Stays(old(api.c)) ==> (ok <==> GetsIp(old(node).Some?, polls, last))
    {
      ghost var bound, stays := node.Some?, Stays(api.c);
      for i := 0 to |polls|
        invariant Valid() && (old(readFailed) ==> readFailed) && Kept(old(api.c), api.c)
        invariant (old(node).Some? ==> node.Some?) && old(api.log) <= api.log
        invariant stays ==> (node.Some? <==> BoundBy(bound, polls, i)) && NoAddress(bound, polls, i)
      {
        if stays { IpTurn(bound, polls, last, i); }
        Refresh(polls[i].fails);
        if node.Some? && polls[i].shows.V4? { return true; }
      }
      if stays { IpLast(bound, polls, last); }
      Refresh(last.fails);
      return node.Some? && !last.shows.NoIp?;
    }

    /** self.node = self._get_vm(vm_name) or self.node */
    method Refresh(fails: bool)
      requires Valid()
      modifies api, `readFailed, `node
      ensures Valid() && (old(readFailed) ==> readFailed) && Kept(old(api.c), api.c) && old(api.log) <= api.log
      ensures old(node).Some? ==> node.Some?
      ensures Stays(old(api.c)) ==> (node.Some? <==> old(node).Some? || !fails)
    {
      var vm := Look(fails);
      if vm.Some? { node := vm; }
    }

    /** The inner try of create: make the VM and wait for it. */
    method CreateAndWait(volumes: seq<string>, a: Answers) returns (end: End)
      requires Valid() && me in api.c.prepared
      modifies api, `readFailed, `node
      ensures Valid() && (old(readFailed) ==> readFailed) && old(api.log) <= api.log
      ensures me in api.c.prepared && (me in api.c.dropped <==> me in old(api.c.dropped))
      ensures me.vm in api.c.deleting ==> me.vm in old(api.c.deleting)
      ensures end.Normal? ==> node.Some?
      ensures if a.vm.Rejected? then end.OtherError? else end.Normal? || end.NodeError?
      ensures a.vm.Accepted? && me.vm !in old(api.c.deleting) ==>
                (end.Normal? <==> Works(a)) && Stays(api.c) && Holds(old(api.c), volumes, api.c.vms[me.vm])
    {
      var _ := api.Call(me, CreateVm(volumes, a.vm.Accepted? || a.vm.applied));
      if a.vm.Rejected? { return OtherError; }
      end := Await(a);
    }

    /** The waits and the reads around them succeed. */
    predicate Works(a: Answers) { GetsReady(a.ready) && GetsIp(!a.bindFails, a.ip, a.lastIp) && !a.rebindFails }

    /** The VM's volumes, new or as they were. */
    ghost predicate Holds(s: Cluster, volumes: seq<string>, now: seq<string>) {
      now == if me.vm in s.vms then s.vms[me.vm] else volumes
    }

    /** self.node = self._get_vm(vm_name) */
    method Bind(fails: bool)
      requires Valid()
      modifies api, `readFailed, `node
      ensures Valid() && (old(readFailed) ==> readFailed) && Kept(old(api.c), api.c) && old(api.log) <= api.log
      ensures Stays(old(api.c)) ==> (node.Some? <==> !fails)
    {
      node := Look(fails);
    }

    /** The waits of create, after the VM was asked for. */
    method Await(a: Answers) returns (end: End)
      requires Valid()
      modifies api, `readFailed, `node
      ensures Valid() && (old(readFailed) ==> readFailed) && Kept(old(api.c), api.c) && old(api.log) <= api.log
      ensures end.Normal? ==> node.Some?
      ensures end.Normal? || end.NodeError?
      ensures Stays(old(api.c)) ==> (end.Normal? <==> Works(a))
    {
      Bind(a.bindFails);
      var ok := AwaitBoth(a);
      return if ok then Normal else NodeError;
    }

    method AwaitBoth(a: Answers) returns (ok: bool)
      requires Valid()
      modifies api, `readFailed, `node
      ensures Valid() && (old(readFailed) ==> readFailed) && Kept(old(api.c), api.c) && old(api.log) <= api.log
      ensures ok ==> node.Some?
      ensures Stays(old(api.c)) ==>
                (ok <==> GetsReady(a.ready) && GetsIp(old(node).Some?, a.ip, a.lastIp) && !a.rebindFails)
    {
      ok := WaitUntilVmReady(a.ready);
      if ok { ok := AwaitAddress(a); }
    }

    /** The wait for an address, and the last read. */
    method AwaitAddress(a: Answers) returns (ok: bool)
      requires Valid()
      modifies api, `readFailed, `node
      ensures Valid() && (old(readFailed) ==> readFailed) && Kept(old(api.c), api.c) && old(api.log) <= api.log
      ensures ok ==> node.Some?
      ensures Stays(old(api.c)) ==> (ok <==> GetsIp(old(node).Some?, a.ip, a.lastIp) && !a.rebindFails)
    {
      ok := WaitUntilIpKnown(a.ip, a.lastIp);
      if ok {
        Bind(a.rebindFails);
        ok := node.Some?;
      }
    }

    /** create. `started` tells whether line 1467 was reached, and `f` what the reads of the except
        clauses found if create then raises: what is left behind is left to nobody exactly if the
        VM was found by the first read and not by the second, which takes a failing read or a VM
        that was already under deletion. */
    method Create(args: Args, a: Answers) returns (end: End, ghost started: bool, ghost f: Failure)
      requires Valid()
      modifies api, this
      ensures Valid() && (old(readFailed) ==> readFailed) && issued == old(issued) && old(api.log) <= api.log
      ensures !Complete(args) ==> end.NodeError? && api.log == old(api.log) && api.c == old(api.c)
      ensures started <==> Starts(args, a)
      ensures me.vm !in old(api.c.deleting) ==> (end.Normal? <==> Succeeds(args, a))
      ensures end.Normal? && me.vm !in old(api.c.deleting) ==>
                Stays(api.c) && SecretName(me.vm) in api.c.secrets &&
                    Holds(old(api.c), [args.rootVolume] + args.volumes, api.c.vms[me.vm])
      ensures end.Normal? ==> node.Some? && me in api.c.prepared
      ensures end.OtherError? <==> Complete(args) && a.secret == Conflict(false)
      ensures end.Normal? || end.NodeError? || (end.OtherError? && !started)
      ensures if started then precreated == args.volumes else node == old(node)
      ensures me.vm in api.c.deleting ==> me.vm in old(api.c.deleting)
      ensures started && !end.Normal? ==> Raised(old(api.c), old(api.log), f) && LeftBehind(f)
      ensures started && !end.Normal? && Lost(me, f) ==> readFailed || me.vm in old(api.c.deleting)
    {
      ghost var log := api.log;
      end := Prepare(args, a.secret);
      started := end.Normal?;
      if !end.Normal? {
        f := Failure([], api.c, false, [], []);
        return;
      }
      end, f := CreateOrDrop([args.rootVolume] + args.volumes, a, old(api.c), log);
    }

    /** create up to line 1466; a normal end is where the try begins. */
    method Prepare(args: Args, answer: SecretAnswer) returns (end: End)
      requires Valid()
      modifies api, `precreated
      ensures Valid() && old(api.log) <= api.log
      ensures !Complete(args) ==> end.NodeError? && api.log == old(api.log) && api.c == old(api.c)
      ensures end.Normal? <==> Complete(args) && SecretMade(answer) && args.image
      ensures end.OtherError? <==> Complete(args) && answer == Conflict(false)
      ensures end.Normal? ==> precreated == args.volumes && me in api.c.prepared && me !in api.c.dropped
      ensures end.Normal? || end.NodeError? || end.OtherError?
      ensures SameVm(old(api.c), api.c)
    {
      if !args.instancetype && (!args.cpu || !args.memory) { return NodeError; }
      if args.instancetype && (args.cpu || args.memory) { return NodeError; }
      if !args.listed { return NodeError; }
      precreated := args.volumes;
      if !args.storage { return NodeError; }
      end := EnsureSecret(answer);
      if end.Normal? && !args.image { end := NodeError; }
    }

    /** Since s, when the log was `log`, the calls of f were made. */
    ghost predicate Raised(s: Cluster, log: seq<Event>, f: Failure)
      reads this, api
    {
      && f.at == After(s, f.tried) && Possible(api.workers, s, f.tried)
      && Excepts(api.workers, me, f) && api.c == f.End()
      && api.log == log + f.tried + f.first + f.second
    }

    /** How node, Secret and VM are left. */
    ghost predicate LeftBehind(f: Failure)
      reads this, api
    {
      && (node.Some? <==> Binds(me, f))
      && (node.Some? || (me in api.c.dropped && me in api.c.absent) <==> !Lost(me, f))
      && (Lost(me, f) ==> me !in api.c.dropped)
      && (node.None? && !Lost(me, f) && !readFailed ==> me.vm !in api.c.vms)
    }

    /** create from line 1467 on: the inner try and its except clauses. */
    method CreateOrDrop(volumes: seq<string>, a: Answers, ghost s: Cluster, ghost log: seq<Event>)
      returns (end: End, ghost f: Failure)
      requires Valid() && me in api.c.prepared && me !in api.c.dropped
      requires log <= api.log && Logged(api.workers, api.start, log, s)
      modifies api, `readFailed, `node
      ensures Valid() && (old(readFailed) ==> readFailed) && old(api.log) <= api.log
      ensures me.vm in api.c.deleting ==> me.vm in old(api.c.deleting)
      ensures if end.Normal? then node.Some? && me in api.c.prepared else end.NodeError?
      ensures me.vm !in old(api.c.deleting) ==> (end.Normal? <==> a.vm.Accepted? && Works(a))
      ensures end.Normal? && me.vm !in old(api.c.deleting) ==>
                Stays(api.c) && Holds(old(api.c), volumes, api.c.vms[me.vm])
      ensures !end.Normal? ==> Raised(s, log, f) && LeftBehind(f)
      ensures !end.Normal? && Lost(me, f) ==> readFailed || me.vm in old(api.c.deleting)
    {
      end := CreateAndWait(volumes, a);
      if end.Normal? {
        f := Failure([], s, true, [], []);
        return;
      }
      ghost var tried := api.log[|log|..];
      LoggedRest(api.workers, api.start, log, s, api.log, api.c);
      f := AfterFailure(tried, a);
      end := NodeError;
    }

    /** _delete_cloudinit_secret */
    method DropOwnSecret(applied: bool) returns (ghost run: seq<Event>)
      requires Valid() && me in api.c.absent
      modifies api
      ensures Valid() && api.log == old(api.log) + run && api.c == After(old(api.c), run)
      ensures IsCall(api.workers, me, old(api.c), run) && run[|run| - 1].action.DropSecret?
      ensures me in api.c.absent && me in api.c.dropped && me !in api.c.prepared
      ensures me.vm in api.c.vms ==> me.vm in old(api.c.vms)
      ensures me.vm in api.c.deleting ==> me.vm in old(api.c.deleting)
      ensures old(api.c).volumeDrops <= api.c.volumeDrops && (Leaving(old(api.c)) ==> Leaving(api.c))
    {
      run := api.Call(me, DropSecret(applied));
    }

    /** self.node = self.node or self._get_vm(vm_name) */
    method BindAgain(fails: bool) returns (ghost run: seq<Event>)
      requires Valid()
      modifies api, `readFailed, `node
      ensures Valid() && (old(readFailed) || fails ==> readFailed)
      ensures api.log == old(api.log) + run && IsRead(api.workers, me, old(api.c), run)
      ensures api.c == After(old(api.c), run) && (node.Some? <==> me !in api.c.absent)
      ensures me in api.c.dropped <==> me in old(api.c.dropped)
      ensures me.vm in api.c.deleting ==> me.vm in old(api.c.deleting)
      ensures me.vm in old(api.c.vms) && node.None? ==> readFailed || me.vm in old(api.c.deleting)
    {
      node, run := GetVm(fails);
    }

    /** The except clauses of create: drop the Secret if the VM is gone, else bind the node. */
    method AfterFailure(ghost tried: seq<Event>, a: Answers) returns (ghost f: Failure)
      requires Valid() && me !in api.c.dropped
      modifies api, `readFailed, `node
      ensures Valid() && (old(readFailed) ==> readFailed)
      ensures me.vm in api.c.deleting ==> me.vm in old(api.c.deleting)
      ensures f.tried == tried && f.at == old(api.c) && f.bound == old(node).Some?
      ensures Excepts(api.workers, me, f) && api.c == f.End() && api.log == old(api.log) + f.first + f.second
      ensures LeftBehind(f)
      ensures Lost(me, f) ==> readFailed || me.vm in old(api.c.deleting)
    {
      var seen, first := GetVm(a.firstFails);
      f := Failure(tried, old(api.c), node.Some?, first, []);
      if seen.None? {
        ghost var second := DropOwnSecret(a.dropApplied);
        f := f.(second := second);
      } else if node.None? {
        ghost var second := BindAgain(a.secondFails);
        f := f.(second := second);
      }
      LeftExactly(api.workers, me, f);
    }

    method DropOne(volume: string)
      requires Valid()
      modifies api, `issued
      ensures Valid() && volume in api.c.volumeDrops && issued == old(issued) + {volume}
      ensures Kept(old(api.c), api.c) && (me in api.c.absent <==> me in old(api.c.absent)) && old(api.log) <= api.log
      ensures me.vm in api.c.vms ==> me.vm in old(api.c.vms)
    {
      var _ := api.Call(me, DropVolume(volume));
      issued := issued + {volume};
    }

    /** cleanup_precreated_datavolumes */
    method DropVolumes(volumes: seq<string>)
      requires Valid()
      modifies api, `issued
      ensures Valid() && (forall v <- volumes :: v in api.c.volumeDrops)
      ensures issued == old(issued) + (set v | v in volumes)
      ensures Kept(old(api.c), api.c) && (me in api.c.absent <==> me in old(api.c.absent)) && old(api.log) <= api.log
      ensures me.vm in api.c.vms ==> me.vm in old(api.c.vms)
    {
      for i := 0 to |volumes|
        invariant Valid() && (forall j :: 0 <= j < i ==> volumes[j] in api.c.volumeDrops)
        invariant issued == old(issued) + (set v | v in volumes[..i])
        invariant Kept(old(api.c), api.c) && (me in api.c.absent <==> me in old(api.c.absent))
        invariant old(api.log) <= api.log
        invariant me.vm in api.c.vms ==> me.vm in old(api.c.vms)
      {
        assert volumes[..i + 1] == volumes[..i] + [volumes[i]];
        DropOne(volumes[i]);
      }
      assert volumes[..|volumes|] == volumes;
    }

    /** The last read found the VM. */
    predicate Sees()
      reads this, api
    {
      me !in api.c.absent && me.vm in api.c.vms
    }

    /** One turn of the wait. */
    method SeesNone(fails: bool) returns (none: bool)
      requires Valid()
      modifies api, `readFailed
      ensures Valid() && (old(readFailed) ==> readFailed) && Kept(old(api.c), api.c) && old(api.log) <= api.log
      ensures Reads(me, api.log) == Reads(me, old(api.log)) + 1
      ensures if none then me in api.c.absent else Sees() && !fails
    {
      ghost var s, log := api.c, api.log;
      var vm, run := GetVm(fails);
      OneRead(api.workers, me, s, log, run);
      none := vm.None?;
    }

    /** It ends badly only if every poll was made and found the VM. */
    method WaitUntilVmDeleted(polls: seq<bool>) returns (gone: bool)
      requires Valid()
      modifies api, `readFailed
      ensures Valid() && (old(readFailed) ==> readFailed)
      ensures Kept(old(api.c), api.c) && old(api.log) <= api.log
      ensures gone ==> me in api.c.absent && polls != []
      ensures !gone ==> Reads(me, api.log) == Reads(me, old(api.log)) + |polls| && NoneFails(polls)
      ensures !gone && polls != [] ==> Sees()
    {
      ghost var before := Reads(me, api.log);
      var i := 0;
      gone := false;
      while i < |polls| && !gone
        invariant 0 <= i <= |polls|
        invariant Valid() && (old(readFailed) ==> readFailed) && Kept(old(api.c), api.c) && old(api.log) <= api.log
        invariant if gone then i > 0 && me in api.c.absent
                  else Reads(me, api.log) == before + i && NoneFails(polls[..i]) && (i > 0 ==> Sees())
        decreases |polls| - i
      {
        gone := SeesNone(polls[i]);
        NoneFailsMore(polls, i);
        i := i + 1;
      }
      assert i == |polls| ==> polls[..i] == polls;
    }

    /** delete. A normal return on a bound node has seen the VM gone, and has issued the
        deletion of every volume it knew of and of the Secret, in this order. It fails only if the
        call does, with anything but 404, or if every poll found the VM. */
    method Delete(a: Removal) returns (end: End)
      requires Valid()
      modifies api, this
      ensures Valid() && (old(readFailed) ==> readFailed) && old(api.log) <= api.log
      ensures end.Normal? || end.DeleteFailure?
      ensures old(node).None? ==>
                end.Normal? && api.c == old(api.c) && api.log == old(api.log) && node == None &&
                    readFailed == old(readFailed) && issued == old(issued)
      ensures end.DeleteFailure? && !a.vm.Failed? ==>
                Reads(me, api.log) == Reads(me, old(api.log)) + |a.polls| && NoneFails(a.polls) &&
                    (a.polls != [] ==> Sees())
      ensures a.vm.Failed? && old(node).Some? ==> end.DeleteFailure?
      ensures a.vm.Deleted? && old(node).Some? ==> Leaving(api.c)
      ensures end.DeleteFailure? ==> node == old(node) && precreated == old(precreated) && issued == old(issued)
      ensures end.DeleteFailure? ==> (me in api.c.prepared <==> me in old(api.c.prepared))
      ensures end.Normal? && old(node).Some? ==>
        && node.None? && precreated == []
        && me in api.c.absent && me in api.c.dropped && me !in api.c.prepared
        && (forall v <- old(precreated) + old(node).value.volumes :: v in api.c.volumeDrops && v in issued)
        && (!readFailed ==> me.vm !in api.c.vms && me.vm !in api.c.deleting)
    {
      if node.None? { return Normal; }
      AskDeletion(a.vm);
      if a.vm.Failed? { return DeleteFailure; }
      var gone := WaitUntilVmDeleted(a.polls);
      if !gone { return DeleteFailure; }
      CleanUp(a.dropApplied);
      end := Normal;
    }

    /** The call to delete the VM. */
    method AskDeletion(answer: DeleteAnswer)
      requires Valid()
      modifies api
      ensures Valid() && old(api.log) <= api.log && Reads(me, api.log) == Reads(me, old(api.log))
      ensures me in api.c.prepared <==> me in old(api.c.prepared)
      ensures answer.Deleted? ==> Leaving(api.c)
    {
      ghost var log := api.log;
      ghost var run := api.Call(me, DeleteVm(answer.Deleted? || (answer.Failed? && answer.applied)));
      NoRead(me, log, run);
    }

    /** What delete does once the VM was seen to be gone. */
    method CleanUp(dropApplied: bool)
      requires Valid() && node.Some? && me in api.c.absent
      modifies api, `node, `precreated, `issued
      ensures Valid() && node.None? && precreated == [] && old(api.log) <= api.log
      ensures me in api.c.absent && me in api.c.dropped && me !in api.c.prepared
      ensures forall v <- old(precreated) + old(node).value.volumes :: v in api.c.volumeDrops && v in issued
      ensures me.vm in api.c.vms ==> me.vm in old(api.c.vms)
      ensures me.vm in api.c.deleting ==> me.vm in old(api.c.deleting)
      ensures Leaving(old(api.c)) ==> Leaving(api.c)
    {
      DropVolumes(precreated + node.value.volumes);
      precreated := [];
      var _ := DropOwnSecret(dropApplied);
      node := None;
    }
  }

  /** What one try came to: whether no deletion of the VM was under way when it began, whether it
      reached line 1467, whether its node was bound when create ended, whether a read has failed,
      the volumes whose deletion it issued, and what the except clauses of create did. */
  datatype Try = Try(clear: bool, started: bool, bound: bool, readFailed: bool, issued: set<string>, f: Failure)

  /** delete() only deletes the volumes of a bound node; on an unbound one it returns at once. */
  ghost predicate VolumesAfter(c: Cluster, volumes: seq<string>, t: Try, cleaned: bool) {
    if t.bound && cleaned then forall v <- volumes :: v in t.issued && v in c.volumeDrops else t.issued == {}
  }

  /** One try, with the clean-up of its except clause. */
  method SetupOnce(api: Api, me: Worker, args: Args, a: Answers, removal: Removal, ghost failedBefore: bool)
    returns (end: End, node: Option<CephVMNodeOCP>, ghost t: Try)
    requires api.Valid() && me in api.workers && (me in api.c.misread ==> failedBefore)
    modifies api
    ensures api.Valid() && (me in api.c.misread ==> t.readFailed) && (failedBefore ==> t.readFailed)
    ensures old(api.c).volumeDrops <= api.c.volumeDrops
    ensures end.Normal? <==> node.Some?
    ensures t.clear <==> me.vm !in old(api.c.deleting)
    ensures t.clear ==> (end.Normal? <==> args.given && Succeeds(args, a))
    ensures !args.given || !Complete(args) ==> end.NodeError? && api.log == old(api.log) && api.c == old(api.c)
    ensures node.Some? ==> fresh(node.value) && node.value.Valid() && node.value.me == me && node.value.node.Some?
                           && me in api.c.prepared
    ensures end.NodeError? && !t.readFailed && me.vm !in old(api.c.deleting) ==>
              me.vm !in api.c.deleting && (t.started ==> me.vm !in api.c.vms && me in api.c.dropped)
    ensures end.NodeError? && t.started ==> Cleaned(api.workers, api.c, me, t)
    ensures VolumesAfter(api.c, args.volumes, t, end.NodeError?)
  {
    ghost var clear := me.vm !in api.c.deleting;
    if !args.listed || !args.given {
      t := Try(clear, false, false, failedBefore, {}, Failure([], api.c, false, [], []));
      return NodeError, None, t;
    }
    var vm := new CephVMNodeOCP(api, me, failedBefore);
    ghost var started, f;
    ghost var s, log := api.c, api.log;
    end, started, f := vm.Create(args, a);
    ghost var bound := vm.node.Some?;
    if end.NodeError? {
      var deleted := vm.Delete(removal);
      if deleted.DeleteFailure? { end := DeleteFailure; }
    }
    LoggedRest(api.workers, api.start, log, s, api.log, api.c);
    t := Try(clear, started, bound, vm.readFailed, vm.issued, f);
    node := if end.Normal? then Some(vm) else None;
  }

  /** After the clean-up of a try the deletion of the Secret was issued, unless the VM was found
      by the first and not by the second read of the except clauses. */
  ghost predicate Cleaned(workers: set<Worker>, c: Cluster, me: Worker, t: Try) {
    && Excepts(workers, me, t.f) && (t.bound <==> Binds(me, t.f))
    && (me in c.dropped <==> !Lost(me, t.f))
  }

  /** The deletion of a pre-created volume was issued if and only if one of the first `failed`
      tries, those that were cleaned up, had bound its node. */
  ghost predicate VolumesOfTries(c: Cluster, volumes: seq<string>, tries: seq<Try>, failed: nat)
    requires failed <= |tries|
  {
    forall v <- volumes ::
      && ((exists i :: 0 <= i < |tries| && v in tries[i].issued) <==> exists i :: 0 <= i < failed && tries[i].bound)
      && ((exists i :: 0 <= i < failed && tries[i].bound) ==> v in c.volumeDrops)
  }

  lemma OneMoreTry(c: Cluster, c': Cluster, volumes: seq<string>, tries: seq<Try>, t: Try, cleaned: bool)
    requires VolumesOfTries(c, volumes, tries, |tries|) && VolumesAfter(c', volumes, t, cleaned)
    requires c.volumeDrops <= c'.volumeDrops
    ensures VolumesOfTries(c', volumes, tries + [t], |tries| + if cleaned then 1 else 0)
  {
    var more, n := tries + [t], |tries|;
    assert more[n] == t && forall i :: 0 <= i < n ==> more[i] == tries[i];
    var failed := n + if cleaned then 1 else 0;
    forall v | v in volumes
      ensures (exists i :: 0 <= i < |more| && v in more[i].issued) <==> exists i :: 0 <= i < failed && more[i].bound
      ensures (exists i :: 0 <= i < failed && more[i].bound) ==> v in c'.volumeDrops
    {
      if i :| 0 <= i < n && v in tries[i].issued { assert v in more[i].issued; }
      if i :| 0 <= i < n && tries[i].bound { assert more[i].bound; }
      if cleaned && t.bound { assert more[n].bound && v in more[n].issued; }
    }
  }

  /** While no deletion of the VM is under way, a try succeeds exactly if its answers let it, and
      is then the last one. */
  ghost predicate FirstSuccess(args: Args, answers: nat -> Answers, tries: seq<Try>, ok: bool) {
    && (forall i :: 0 <= i < |tries| && tries[i].clear ==>
          (args.given && Succeeds(args, answers(i)) <==> ok && i == |tries| - 1))
    && (forall i :: 0 < i < |tries| && tries[i - 1].clear && !tries[i - 1].readFailed ==> tries[i].clear)
  }

  lemma OneMoreSuccess(args: Args, answers: nat -> Answers, tries: seq<Try>, t: Try, ok: bool)
    requires FirstSuccess(args, answers, tries, false)
    requires t.clear ==> (args.given && Succeeds(args, answers(|tries|)) <==> ok)
    requires tries != [] && tries[|tries| - 1].clear && !tries[|tries| - 1].readFailed ==> t.clear
    ensures FirstSuccess(args, answers, tries + [t], ok)
  {
  }

  /** All tries so far ended in NodeError and were cleaned up. */
  ghost predicate Trying(api: Api, me: Worker, args: Args, answers: nat -> Answers, start: Cluster,
                         tries: seq<Try>, failed: bool)
    reads api
  {
    && api.Valid() && me in api.workers && (me in api.c.misread ==> failed)
    && (!failed && me.vm !in start.deleting ==> me.vm !in api.c.deleting)
    && VolumesOfTries(api.c, args.volumes, tries, |tries|) && FirstSuccess(args, answers, tries, false)
    && (tries == [] ==> api.c == start)
    && (tries != [] ==> StartsClear(me, start, tries) && LastLeaves(api.c, me, tries[|tries| - 1], failed))
  }

  ghost predicate StartsClear(me: Worker, start: Cluster, tries: seq<Try>)
    requires tries != []
  {
    tries[0].clear <==> me.vm !in start.deleting
  }

  ghost predicate LastLeaves(c: Cluster, me: Worker, t: Try, failed: bool) {
    t.readFailed == failed && (t.clear && !failed ==> me.vm !in c.deleting)
  }

  /** One more try. */
  method NextTry(api: Api, me: Worker, args: Args, answers: nat -> Answers, removal: Removal, n: nat,
                 ghost start: Cluster, ghost tries: seq<Try>, ghost failed: bool)
    returns (end: End, node: Option<CephVMNodeOCP>, ghost t: Try)
    requires Trying(api, me, args, answers, start, tries, failed) && n == |tries|
    modifies api
    ensures api.Valid() && (end.Normal? <==> node.Some?)
    ensures node.Some? ==> fresh(node.value) && node.value.Valid() && node.value.me == me && node.value.node.Some?
                           && me in api.c.prepared
    ensures end.NodeError? ==> Trying(api, me, args, answers, start, tries + [t], t.readFailed)
    ensures FirstSuccess(args, answers, tries + [t], end.Normal?) && StartsClear(me, start, tries + [t])
    ensures VolumesOfTries(api.c, args.volumes, tries + [t], |tries| + if end.NodeError? then 1 else 0)
    ensures !args.given || !Complete(args) ==> end.NodeError? && api.log == old(api.log)
    ensures end.NodeError? && t.started ==> Cleaned(api.workers, api.c, me, t)
    ensures end.NodeError? && t.started && !t.readFailed && me.vm !in start.deleting ==>
              me.vm !in api.c.vms && me in api.c.dropped
  {
    ghost var was := api.c;
    end, node, t := SetupOnce(api, me, args, answers(n), removal, failed);
    OneMoreTry(was, api.c, args.volumes, tries, t, end.NodeError?);
    OneMoreSuccess(args, answers, tries, t, end.Normal?);
  }

  /** setup_vm_node_ocpvirt under its retry decorator: three tries, each with a fresh node
      object; NodeError is retried after the node was deleted, anything else is not. */
  method SetupVmNode(api: Api, me: Worker, args: Args, answers: nat -> Answers, removals: nat -> Removal,
                     ghost failedBefore: bool)
    returns (end: End, vm: Option<CephVMNodeOCP>, attempts: nat, ghost tries: seq<Try>)
    requires api.Valid() && me in api.workers && (me in api.c.misread ==> failedBefore)
    modifies api
    ensures api.Valid()
    ensures 1 <= attempts <= 3 && |tries| == attempts
    ensures end.NodeError? ==> attempts == 3
    ensures end.Normal? <==> vm.Some?
    ensures vm.Some? ==> fresh(vm.value) && vm.value.Valid() && vm.value.me == me && vm.value.node.Some?
                         && me in api.c.prepared
    // The first try whose answers let it succeed does, and it is the last one.
    ensures FirstSuccess(args, answers, tries, end.Normal?) && StartsClear(me, old(api.c), tries)
    ensures !args.given || !Complete(args) ==> end.NodeError? && api.log == old(api.log)
    // Giving up after the last try reached the VM: the deletion of its Secret was issued exactly
    // if that try did not lose the VM between its two reads, and without failing reads and a VM
    // that was already under deletion there is no VM left, and it was issued.
    ensures end.NodeError? && tries[2].started ==> Cleaned(api.workers, api.c, me, tries[2])
    ensures end.NodeError? && tries[2].started && !tries[2].readFailed && me.vm !in old(api.c.deleting) ==>
              me.vm !in api.c.vms && me in api.c.dropped
    // However it ends, the pre-created volumes go exactly if a try that failed and was cleaned
    // up had bound its node.
    ensures VolumesOfTries(api.c, args.volumes, tries, if end.NodeError? then attempts else attempts - 1)
  {
    var mtries := 3;
    ghost var failed := failedBefore;
    attempts, tries := 0, [];
    while mtries > 1
      invariant mtries + attempts == 3 && 1 <= mtries && |tries| == attempts
      invariant Trying(api, me, args, answers, old(api.c), tries, failed)
      invariant !args.given || !Complete(args) ==> api.log == old(api.log)
    {
      ghost var t;
      end, vm, t := NextTry(api, me, args, answers, removals(attempts), attempts, old(api.c), tries, failed);
      attempts, tries, failed := attempts + 1, tries + [t], t.readFailed;
      if !end.NodeError? { return; }
      mtries := mtries - 1;
    }
    ghost var t;
    end, vm, t := NextTry(api, me, args, answers, removals(attempts), attempts, old(api.c), tries, failed);
    attempts, tries := attempts + 1, tries + [t];
  }
}
