/** The parts of the OSD accounting of OsdVolumes (ceph/ceph.py), position by position. */
module OsdExact {
  import opened Basics
  import opened OsdVolumes

  /** The positions of the volumes with a status, all of them and in order. */
  lemma {:induction false} WithExactly(vs: seq<NodeVolume>, st: Status)
    ensures forall i: nat :: i in With(vs, st) <==> i < |vs| && vs[i].status == st
    ensures forall j, k :: 0 <= j < k < |With(vs, st)| ==> With(vs, st)[j] < With(vs, st)[k]
  {
    WithAscending(vs, st);
    if vs != [] {
      var n := |vs| - 1;
      WithExactly(vs[..n], st);
    }
  }

  /** Of all volumes with the one status, the first one gets the other; nothing else changes. */
  lemma FlipFirstExactly(vs: seq<NodeVolume>, from: Status, to: Status, i: nat)
    requires i < |vs| && vs[i].status == from && forall j :: 0 <= j < i ==> vs[j].status != from
    ensures With(vs, from) != [] && FlipFirst(vs, from, to) == vs[i := NodeVolume(to, vs[i].path)]
  {
    WithExactly(vs, from);
    var r := With(vs, from);
    assert i in r && vs[r[0]].status == from;
    var k :| 0 <= k < |r| && r[k] == i;
    assert r[0] <= r[k];
  }

  /** The first object of the identity, if there is one. */
  lemma {:induction false} IndexOfExactly(objects: seq<CephObject>, id: nat, from: nat)
    requires from <= |objects|
    ensures var i := IndexOf(objects, id, from);
            && from <= i <= |objects| && (i < |objects| ==> objects[i].id == id)
            && forall j :: from <= j < i ==> objects[j].id != id
    decreases |objects| - from
  {
    if from < |objects| && objects[from].id != id { IndexOfExactly(objects, id, from + 1); }
  }

  /** The objects made are those of the roles other than "pool", in order. */
  lemma {:induction false} NoPoolExactly(roles: seq<string>) returns (at: seq<nat>)
    ensures Picks(roles, at, NoPool(roles))
    ensures forall i: nat :: i < |roles| ==> (i in at <==> roles[i] != "pool")
  {
    at := [];
    if roles != [] {
      var n := |roles| - 1;
      assert roles == roles[..n] + [roles[n]];
      at := NoPoolExactly(roles[..n]);
      PicksMore(roles[..n], at, NoPool(roles[..n]), roles[n]);
      if roles[n] != "pool" { at := at + [n]; }
    }
  }

  /** The devices that are not reserved, in order. */
  lemma {:induction false} WithoutExactly(devices: seq<Device>, out: set<Device>) returns (at: seq<nat>)
    ensures Picks(devices, at, Without(devices, out))
    ensures forall i: nat :: i < |devices| ==> (i in at <==> devices[i] !in out)
  {
    at := [];
    if devices != [] {
      var n := |devices| - 1;
      WithoutMore(devices[..n], devices[n], out);
      assert devices == devices[..n] + [devices[n]];
      at := WithoutExactly(devices[..n], out);
      PicksMore(devices[..n], at, Without(devices[..n], out), devices[n]);
      if devices[n] !in out { at := at + [n]; }
    }
  }

  lemma {:induction false} WithoutMore(devices: seq<Device>, d: Device, out: set<Device>)
    ensures Without(devices + [d], out) == Without(devices, out) + if d in out then [] else [d]
  {
    if devices == [] {
      assert [] + [d] == [d] && [d][1..] == [];
    } else {
      assert (devices + [d])[1..] == devices[1..] + [d];
      WithoutMore(devices[1..], d, out);
    }
  }

  /** The k-th device is the path of the k-th allocated volume on baremetal, and else the disk
      "/dev/vd" with the k-th letter from b on. */
  lemma DevicesExactly(vs: seq<NodeVolume>, baremetal: bool, k: nat)
    requires k < |With(vs, Allocated)|
    ensures |Devices(vs, baremetal)| == |With(vs, Allocated)|
    ensures Devices(vs, baremetal)[k] ==
            if baremetal then Path(vs[With(vs, Allocated)[k]].path) else Virtio('b' as int + k)
  {
  }

  /** What is behind the last slash of a path, or all of it. */
  lemma BaseNameExactly(front: string, name: string)
    requires '/' !in name
    ensures BaseName(name) == name && BaseName(front + "/" + name) == name
  {
    BaseAlone(name);
    BaseOfJoin(front, name);
  }

  lemma {:induction false} BaseAlone(name: string)
    requires '/' !in name
    ensures BaseName(name) == name
  {
    if name != "" {
      var n := |name| - 1;
      assert name[n] in name && forall c <- name[..n] :: c in name;
      BaseAlone(name[..n]);
    }
  }

  /** Assigning devices changes nothing but the devices of the OSDs. */
  lemma {:induction false} OnlyOsdsAreServed(objects: seq<CephObject>, devices: seq<Device>, i: nat)
    requires i < |objects|
    ensures |Assign(objects, devices)| == |objects|
    ensures var o := Assign(objects, devices)[i];
            o.id == objects[i].id && o.role == objects[i].role && (o.role != "osd" ==> o == objects[i])
  {
    AssignKeeps(objects, devices);
    if i > 0 { OnlyOsdsAreServed(objects[1..], Serve(objects[0], devices).1, i - 1); }
  }

  lemma {:induction false} ReserveFrees(vs: seq<NodeVolume>, n: nat)
    requires n <= |With(vs, Free)|
    ensures With(Reserve(vs, n), Free) == With(vs, Free)[n..] && |Reserve(vs, n)| == |vs|
  {
    if n > 0 {
      ReserveFrees(vs, n - 1);
      WithoutFirst(Reserve(vs, n - 1));
    }
  }

  /** Dedicated journals take the first free volumes, as many as there are journals. */
  lemma {:induction false} ReserveExactly(vs: seq<NodeVolume>, n: nat, i: nat)
    requires n <= |With(vs, Free)| && i < |vs|
    ensures |Reserve(vs, n)| == |vs|
    ensures Reserve(vs, n)[i] == if i in With(vs, Free)[..n] then NodeVolume(Allocated, vs[i].path) else vs[i]
  {
    if n > 0 {
      var free := With(vs, Free);
      ReserveExactly(vs, n - 1, i);
      ReserveFrees(vs, n - 1);
      var j := ReserveStep(vs, n - 1);
      OneMoreAllocated(vs, Reserve(vs, n - 1), free, n - 1, i);
    }
  }

  lemma OneMoreAllocated(vs: seq<NodeVolume>, before: seq<NodeVolume>, free: seq<nat>, n: nat, i: nat)
    requires i < |vs| == |before| && n < |free| && free[n] < |vs|
    requires before[i] == if i in free[..n] then NodeVolume(Allocated, vs[i].path) else vs[i]
    ensures Allocate(before, free[n])[i] == if i in free[..n + 1] then NodeVolume(Allocated, vs[i].path) else vs[i]
  {
    Prefix(free, n, i);
  }

  lemma Prefix(at: seq<nat>, n: nat, i: nat)
    requires n < |at|
    ensures i in at[..n + 1] <==> i in at[..n] || i == at[n]
    ensures at[n..][0] == at[n]
  {
    assert at[..n + 1] == at[..n] + [at[n]];
  }

  lemma WithoutFirst(vs: seq<NodeVolume>)
    requires With(vs, Free) != []
    ensures With(FlipFirst(vs, Free, Allocated), Free) == With(vs, Free)[1..]
  {
    var free, left := With(vs, Free), With(FlipFirst(vs, Free, Allocated), Free);
    WithExactly(vs, Free);
    WithExactly(FlipFirst(vs, Free, Allocated), Free);
    FlipFirstCounts(vs, Free, Allocated);
    SameAscending(free[1..], left);
  }

  lemma {:induction false} SameAscending(a: seq<nat>, b: seq<nat>)
    requires |a| == |b| && forall i: nat :: i in a <==> i in b
    requires forall j, k :: 0 <= j < k < |a| ==> a[j] < a[k]
    requires forall j, k :: 0 <= j < k < |b| ==> b[j] < b[k]
    ensures a == b
  {
    if a != [] {
      assert a[0] in b && b[0] in a;
      assert a[0] == b[0];
      forall i: nat | i in a[1..] ensures i in b[1..] { assert i in a && i != a[0]; }
      forall i: nat | i in b[1..] ensures i in a[1..] { assert i in b && i != b[0]; }
      SameAscending(a[1..], b[1..]);
    }
  }
}
