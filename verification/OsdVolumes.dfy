/** OSD and volume accounting on a node (ceph/ceph.py). */
module OsdVolumes {
  import opened Basics
  import opened Options

  datatype Status = Free | Allocated

  /** A device path, or the n-th virtio disk name "/dev/vd" + chr(code). */
  datatype Device = Path(path: string) | Virtio(code: nat)

  datatype NodeVolume = NodeVolume(status: Status, path: string)

  /** A ceph object on the node; `id` is its identity. */
  datatype CephObject = CephObject(id: nat, role: string, device: Option<Device>)

  // ----- counting ----------------------------------------------------------

  /** get_free_volumes / get_allocated_volumes, as positions in the volume list. */
  function With(vs: seq<NodeVolume>, st: Status): (r: seq<nat>)
    ensures forall k :: 0 <= k < |r| ==> r[k] < |vs| && vs[r[k]].status == st
    ensures r != [] <==> exists i: nat :: i < |vs| && vs[i].status == st
  {
    if vs == [] then [] else
    var n := |vs| - 1;
    var init := With(vs[..n], st);
    if vs[n].status == st then init + [n] else init
  }

  function Osds(objects: seq<CephObject>): nat {
    if objects == [] then 0 else (if objects[0].role == "osd" then 1 else 0) + Osds(objects[1..])
  }

  lemma {:induction false} FlipCounts(vs: seq<NodeVolume>, i: nat, st: Status)
    requires i < |vs| && vs[i].status != st
    ensures |With(vs[i := vs[i].(status := st)], st)| == |With(vs, st)| + 1
    ensures forall other :: other != st && other == vs[i].status ==>
              |With(vs[i := vs[i].(status := st)], other)| == |With(vs, other)| - 1
  {
    var n := |vs| - 1;
    var ws := vs[i := vs[i].(status := st)];
    if i < n {
      FlipCounts(vs[..n], i, st);
      assert ws[..n] == vs[..n][i := vs[i].(status := st)];
    } else {
      assert ws[..n] == vs[..n];
    }
  }

  /** The first volume with one status gets the other. */
  function FlipFirst(vs: seq<NodeVolume>, from: Status, to: Status): seq<NodeVolume>
    requires With(vs, from) != []
  {
    var i := With(vs, from)[0];
    vs[i := vs[i].(status := to)]
  }

  lemma FlipFirstCounts(vs: seq<NodeVolume>, from: Status, to: Status)
    requires With(vs, from) != [] && from != to
    ensures |With(FlipFirst(vs, from, to), to)| == |With(vs, to)| + 1
    ensures |With(FlipFirst(vs, from, to), from)| == |With(vs, from)| - 1
  {
    FlipCounts(vs, With(vs, from)[0], to);
  }

  /** The first n free volumes are allocated. */
  function Reserve(vs: seq<NodeVolume>, n: nat): (r: seq<NodeVolume>)
    requires n <= |With(vs, Free)|
    ensures |With(r, Free)| == |With(vs, Free)| - n && |With(r, Allocated)| == |With(vs, Allocated)| + n
  {
    if n == 0 then vs
    else
      var before := Reserve(vs, n - 1);
      FlipFirstCounts(before, Free, Allocated);
      FlipFirst(before, Free, Allocated)
  }

  lemma ReserveMore(vs: seq<NodeVolume>, n: nat)
    requires n < |With(vs, Free)|
    ensures With(Reserve(vs, n), Free) != []
    ensures Reserve(vs, n + 1) == FlipFirst(Reserve(vs, n), Free, Allocated)
  {
  }

  function Allocate(vs: seq<NodeVolume>, i: nat): seq<NodeVolume>
    requires i < |vs|
  {
    vs[i := vs[i].(status := Allocated)]
  }

  lemma ReserveStep(vs: seq<NodeVolume>, n: nat) returns (i: nat)
    requires n < |With(vs, Free)|
    ensures var before := Reserve(vs, n);
            && With(before, Free) != [] && i == With(before, Free)[0] && i < |before|
            && Reserve(vs, n + 1) == Allocate(before, i)
  {
    i := With(Reserve(vs, n), Free)[0];
  }

  lemma {:induction false} FreeOrAllocated(vs: seq<NodeVolume>)
    ensures |With(vs, Free)| + |With(vs, Allocated)| == |vs|
  {
    if vs != [] { FreeOrAllocated(vs[..|vs| - 1]); }
  }

  lemma {:induction false} OsdsAppend(objects: seq<CephObject>, o: CephObject)
    ensures Osds(objects + [o]) == Osds(objects) + if o.role == "osd" then 1 else 0
  {
    if objects != [] {
      OsdsAppend(objects[1..], o);
      assert (objects + [o])[1..] == objects[1..] + [o];
    }
  }

  lemma {:induction false} OsdsRemove(objects: seq<CephObject>, i: nat)
    requires i < |objects|
    ensures Osds(objects[..i] + objects[i + 1..]) == Osds(objects) - if objects[i].role == "osd" then 1 else 0
  {
    if i > 0 {
      var rest := objects[..i] + objects[i + 1..];
      OsdsRemove(objects[1..], i - 1);
      assert rest[0] == objects[0] && rest[1..] == objects[1..][..i - 1] + objects[1..][i..];
    } else {
      assert objects[..0] + objects[1..] == objects[1..];
    }
  }

  function OsdRoles(roles: seq<string>): nat {
    if roles == [] then 0 else OsdRoles(roles[..|roles| - 1]) + if roles[|roles| - 1] == "osd" then 1 else 0
  }

  /** The roles that become objects: all but "pool". */
  function NoPool(roles: seq<string>): seq<string> {
    if roles == [] then []
    else NoPool(roles[..|roles| - 1]) + if roles[|roles| - 1] == "pool" then [] else [roles[|roles| - 1]]
  }

  /** Objects for these roles in this order, and nothing but OSDs behind them. */
  ghost predicate Leads(roles: seq<string>, objects: seq<CephObject>) {
    && |roles| <= |objects|
    && (forall i :: 0 <= i < |roles| ==> objects[i].role == roles[i])
    && (forall i :: |roles| <= i < |objects| ==> objects[i].role == "osd")
  }

  // ----- devices -----------------------------------------------------------

  function BaseName(path: string): string {
    if path == "" || path[|path| - 1] == '/' then "" else BaseName(path[..|path| - 1]) + [path[|path| - 1]]
  }

  function Base(d: Device): Device { if d.Path? then Path(BaseName(d.path)) else d }

  /** What setup_osd_devices makes of a popped device: the empty path counts as none. */
  function Mounted(d: Device): Option<Device> { if d == Path("") then None else Some(Base(d)) }

  /** One turn of the loop: an OSD takes the last device that is left, if there is one. */
  function Serve(o: CephObject, left: seq<Device>): (CephObject, seq<Device>) {
    if o.role != "osd" then (o, left)
    else if left == [] then (o.(device := None), [])
    else (o.(device := Mounted(left[|left| - 1])), left[..|left| - 1])
  }

  function Assign(objects: seq<CephObject>, devices: seq<Device>): seq<CephObject> {
    if objects == [] then []
    else
      var (o, left) := Serve(objects[0], devices);
      [o] + Assign(objects[1..], left)
  }

  lemma {:induction false} AssignKeeps(objects: seq<CephObject>, devices: seq<Device>)
    ensures |Assign(objects, devices)| == |objects|
    ensures forall i :: 0 <= i < |objects| ==>
              Assign(objects, devices)[i] == objects[i].(device := Assign(objects, devices)[i].device)
  {
    if objects != [] { AssignKeeps(objects[1..], Serve(objects[0], devices).1); }
  }

  function IndexOf(objects: seq<CephObject>, id: nat, from: nat): nat
    decreases |objects| - from
  {
    if from >= |objects| || objects[from].id == id then from else IndexOf(objects, id, from + 1)
  }

  /** OsdScenario: collocated and lvm share one path; otherwise devices are dedicated. */
  datatype Scenario = OwnDevice | Dedicated(journals: set<Device>)

  class CephNode {
    var volumes: seq<NodeVolume>
    var objects: seq<CephObject>
    var nextId: nat
    ghost var reserved: nat       // volumes allocated for dedicated journals

    /** OSD objects, plus journal volumes, and ALLOCATED volumes stay equal in number. */
    ghost predicate Valid()
      reads this
    {
      |With(volumes, Allocated)| == Osds(objects) + reserved
    }

    constructor (paths: seq<string>)
      ensures Valid() && objects == [] && reserved == 0
      ensures volumes == seq(|paths|, i requires 0 <= i < |paths| => NodeVolume(Free, paths[i]))
    {
      volumes := seq(|paths|, i requires 0 <= i < |paths| => NodeVolume(Free, paths[i]));
      objects, nextId, reserved := [], 0, 0;
    }

    /** CephObjectFactory.create_ceph_object followed by the append; false is the
        RuntimeError for an OSD without a free volume. */
    method CreateCephObject(role: string) returns (ok: bool)
      requires Valid() && role != "pool"
      modifies this
      ensures Valid() && reserved == old(reserved)
      ensures ok == (role == "osd" ==> old(With(volumes, Free)) != [])
      ensures !ok ==> volumes == old(volumes) && objects == old(objects)
      ensures ok ==> objects == old(objects) + [CephObject(old(nextId), role, None)]
      ensures ok && role != "osd" ==> volumes == old(volumes)
      ensures ok && role == "osd" ==>
        && volumes == FlipFirst(old(volumes), Free, Allocated)
        && |With(volumes, Free)| == old(|With(volumes, Free)|) - 1
    {
      if role == "osd" {
        var free := With(volumes, Free);
        if |free| == 0 { return false; }
        FlipFirstCounts(volumes, Free, Allocated);
        volumes := volumes[free[0] := volumes[free[0]].(status := Allocated)];
      }
      OsdsAppend(objects, CephObject(nextId, role, None));
      objects := objects + [CephObject(nextId, role, None)];
      nextId := nextId + 1;
      ok := true;
    }

    /** One object per role so far, and as many OSDs as OSD roles. */
    ghost predicate Made(roles: seq<string>)
      reads this
    {
      Osds(objects) == OsdRoles(roles) && |objects| == |NoPool(roles)| && Leads(NoPool(roles), objects)
    }

    method CreateForRole(role: string, ghost sofar: seq<string>) returns (ok: bool)
      requires Valid() && reserved == 0 && Made(sofar)
      modifies this
      ensures Valid() && reserved == 0 && |volumes| == old(|volumes|)
      ensures ok ==> Made(sofar + [role])
      ensures ok == (OsdRoles(sofar + [role]) <= |volumes|)
    {
      assert (sofar + [role])[..|sofar|] == sofar;
      FreeOrAllocated(volumes);
      if role == "pool" { return true; }
      ghost var before := objects;
      ok := CreateCephObject(role);
      if ok { OsdsAppend(before, objects[|objects| - 1]); }
    }

    /** The comprehension over the role list. */
    method CreateForRoles(roles: seq<string>) returns (ok: bool)
      requires Valid() && objects == [] && reserved == 0
      modifies this
      ensures Valid() && reserved == 0 && |volumes| == old(|volumes|)
      ensures ok == (OsdRoles(roles) <= old(|volumes|))
      ensures ok ==> Osds(objects) == OsdRoles(roles) && |objects| == |NoPool(roles)| && Leads(NoPool(roles), objects)
    {
      for i := 0 to |roles|
        invariant Valid() && reserved == 0 && |volumes| == old(|volumes|)
        invariant Made(roles[..i]) && OsdRoles(roles[..i]) <= |volumes|
      {
        assert roles[..i + 1] == roles[..i] + [roles[i]];
        OsdRolesGrow(roles, i + 1);
        ok := CreateForRole(roles[i], roles[..i]);
        if !ok { return; }
      }
      assert roles[..|roles|] == roles;
      ok := true;
    }

    /** The while loop that makes OSDs of the volumes that are left. */
    method FillWithOsds()
      requires Valid()
      modifies this
      ensures Valid() && reserved == old(reserved) && |volumes| == old(|volumes|)
      ensures old(objects) <= objects && forall i :: |old(objects)| <= i < |objects| ==> objects[i].role == "osd"
      ensures old(Osds(objects)) > 0 ==> With(volumes, Free) == []
      ensures old(Osds(objects)) == 0 ==> objects == old(objects) && volumes == old(volumes)
    {
      while Osds(objects) > 0 && With(volumes, Free) != []
        invariant Valid() && reserved == old(reserved) && |volumes| == old(|volumes|)
        invariant old(objects) <= objects && forall i :: |old(objects)| <= i < |objects| ==> objects[i].role == "osd"
        invariant Osds(objects) >= old(Osds(objects))
        invariant old(Osds(objects)) == 0 ==> objects == old(objects) && volumes == old(volumes)
        decreases |With(volumes, Free)|
      {
        ghost var before := objects;
        var created := CreateCephObject("osd");
        OsdsAppend(before, objects[|objects| - 1]);
      }
    }

    /** The end of CephNode.__init__: one object per role, then OSDs while volumes last. */
    method Populate(roles: seq<string>) returns (ok: bool)
      requires Valid() && objects == [] && reserved == 0
      modifies this
      ensures Valid() && reserved == 0 && |volumes| == old(|volumes|)
      ensures ok == (OsdRoles(roles) <= old(|volumes|))
      ensures ok ==> Leads(NoPool(roles), objects)
      ensures ok && OsdRoles(roles) > 0 ==> With(volumes, Free) == [] && Osds(objects) == |volumes|
      ensures ok && OsdRoles(roles) == 0 ==> With(volumes, Allocated) == [] && Osds(objects) == 0
    {
      ok := CreateForRoles(roles);
      if ok {
        FillWithOsds();
        FreeOrAllocated(volumes);
      }
    }

    /** remove_ceph_object; false is the ValueError for an object that is not there. The
        index into the allocated volumes never fails. */
    method RemoveCephObject(id: nat) returns (ok: bool)
      requires Valid()
      modifies this
      ensures Valid() && reserved == old(reserved)
      ensures ok == (IndexOf(old(objects), id, 0) < old(|objects|))
      ensures !ok ==> volumes == old(volumes) && objects == old(objects)
      ensures ok ==>
        var i, was := IndexOf(old(objects), id, 0), old(objects);
        && objects == was[..i] + was[i + 1..]
        && (if was[i].role == "osd" then old(With(volumes, Allocated)) != [] &&
             volumes == FlipFirst(old(volumes), Allocated, Free)
            else volumes == old(volumes))
    {
      var i := 0;
      while i < |objects| && objects[i].id != id
        invariant i <= |objects| && IndexOf(objects, id, i) == IndexOf(objects, id, 0)
      {
        i := i + 1;
      }
      if i == |objects| { return false; }
      var o := objects[i];
      OsdsRemove(objects, i);
      objects := objects[..i] + objects[i + 1..];
      if o.role == "osd" {
        var taken := With(volumes, Allocated);
        FlipFirstCounts(volumes, Allocated, Free);
        volumes := volumes[taken[0] := volumes[taken[0]].(status := Free)];
      }
      ok := true;
    }

    /** Ceph.get_osd_devices */
    method GetOsdDevices(baremetal: bool, scenario: Scenario) returns (devices: seq<Device>)
      requires Valid()
      modifies `volumes, `reserved
      ensures Valid()
      ensures scenario.OwnDevice? ==> volumes == old(volumes) && reserved == old(reserved)
      ensures scenario.OwnDevice? ==> devices == Devices(old(volumes), baremetal)
      ensures scenario.Dedicated? ==> devices == Without(Devices(old(volumes), baremetal), scenario.journals)
      ensures scenario.Dedicated? ==>
                reserved == old(reserved) +
                    if old(|With(volumes, Free)|) >= |scenario.journals| then |scenario.journals| else 0
      ensures scenario.Dedicated? ==>
                volumes == if old(|With(volumes, Free)|) >= |scenario.journals|
                           then Reserve(old(volumes), |scenario.journals|) else old(volumes)
    {
      devices := Devices(volumes, baremetal);
      if scenario.OwnDevice? { return; }
      var n := |scenario.journals|;
      if |With(volumes, Free)| >= n { ReserveVolumes(n); }
      devices := Without(devices, scenario.journals);
    }

    /** One free volume for each dedicated journal. */
    method ReserveVolumes(n: nat)
      requires Valid() && n <= |With(volumes, Free)|
      modifies `volumes, `reserved
      ensures Valid() && volumes == Reserve(old(volumes), n) && reserved == old(reserved) + n
    {
      ghost var was := volumes;
      for k := 0 to n
        invariant volumes == Reserve(was, k) && reserved == old(reserved) + k
      {
        ReserveMore(was, k);
        AllocateFirst();
        reserved := reserved + 1;
      }
    }

    method AllocateFirst()
      requires With(volumes, Free) != []
      modifies `volumes
      ensures volumes == FlipFirst(old(volumes), Free, Allocated)
    {
      var first := With(volumes, Free)[0];
      volumes := volumes[first := volumes[first].(status := Allocated)];
    }

    /** Ceph.setup_osd_devices */
    method SetupOsdDevices(devices: seq<Device>)
      requires Valid()
      modifies `objects
      ensures Valid()
      ensures objects == Assign(old(objects), devices)
    {
      var left := devices;
      var i := 0;
      ghost var was, rest, all := objects, objects, Assign(objects, devices);
      TurnEnds(objects, 0, rest, left, all);
      while i < |objects|
        invariant i <= |objects| == |was|
        invariant Turn(objects, i, rest, left, all)
      {
        AssignTurn(objects, i, rest, left, all);
        var (osd, others) := Serve(objects[i], left);
        objects, left := objects[i := osd], others;
        rest, i := rest[1..], i + 1;
      }
      TurnEnds(objects, i, rest, left, all);
      AssignOsds(was, devices);
    }

    /** The two calls in a row, as the ansible inventory set-up makes them. With one device
        per OSD every OSD gets a device of its own and none is left inactive, always on virtual
        machines, and on baremetal exactly if the last components of the allocated volumes'
        paths are all there and all differ. */
    method AssignDevices(baremetal: bool, scenario: Scenario) returns (devices: seq<Device>)
      requires Valid()
      modifies this
      ensures Valid()
      ensures |OsdDevices(objects)| == Osds(objects)
      ensures scenario.OwnDevice? && reserved == 0 ==>
                (AllActive(OsdDevices(objects)) <==> (baremetal ==> GoodNames(volumes)))
    {
      devices := GetOsdDevices(baremetal, scenario);
      ghost var was := objects;
      SetupOsdDevices(devices);
      AssignOrder(was, devices);
      AssignOsds(was, devices);
      if scenario.OwnDevice? && reserved == 0 {
        DevicesDistinct(volumes, baremetal);
        EveryOsdActive(was, devices);
      }
    }
  }

  lemma AssignOsds(objects: seq<CephObject>, devices: seq<Device>)
    ensures Osds(Assign(objects, devices)) == Osds(objects)
  {
    AssignKeeps(objects, devices);
    SameOsds(objects, Assign(objects, devices));
  }

  /** Before turn i: the objects from i on are untouched, and serving them gives `all`. */
  ghost predicate Turn(now: seq<CephObject>, i: nat, rest: seq<CephObject>, left: seq<Device>, all: seq<CephObject>) {
    i <= |now| && now[i..] == rest && now[..i] + Assign(rest, left) == all
  }

  lemma TurnEnds(now: seq<CephObject>, i: nat, rest: seq<CephObject>, left: seq<Device>, all: seq<CephObject>)
    ensures i == 0 && rest == now && all == Assign(now, left) ==> Turn(now, i, rest, left, all)
    ensures i == |now| && Turn(now, i, rest, left, all) ==> now == all
  {
    assert now[..0] == [] && now[..|now|] == now;
  }

  lemma AssignTurn(now: seq<CephObject>, i: nat, rest: seq<CephObject>, left: seq<Device>, all: seq<CephObject>)
    requires i < |now| && Turn(now, i, rest, left, all)
    ensures var (o, left') := Serve(now[i], left);
            Turn(now[i := o], i + 1, rest[1..], left', all)
    ensures now[i := now[i]] == now
  {
    var (o, left') := Serve(now[i], left);
    assert now[i := o][..i + 1] == now[..i] + [o];
  }

  lemma {:induction false} OsdRolesGrow(roles: seq<string>, i: nat)
    requires i <= |roles|
    ensures OsdRoles(roles[..i]) <= OsdRoles(roles)
    decreases |roles| - i
  {
    if i < |roles| {
      assert roles[..i + 1][..i] == roles[..i];
      OsdRolesGrow(roles, i + 1);
    } else {
      assert roles[..i] == roles;
    }
  }

  lemma {:induction false} SameOsds(a: seq<CephObject>, b: seq<CephObject>)
    requires |a| == |b| && forall i :: 0 <= i < |a| ==> a[i].role == b[i].role
    ensures Osds(a) == Osds(b)
  {
    if a != [] { SameOsds(a[1..], b[1..]); }
  }

  /** The devices of the allocated volumes: their paths, or /dev/vdb, /dev/vdc, ... */
  function Devices(vs: seq<NodeVolume>, baremetal: bool): seq<Device> {
    var taken := With(vs, Allocated);
    if baremetal then seq(|taken|, i requires 0 <= i < |taken| => Path(vs[taken[i]].path))
    else seq(|taken|, i requires 0 <= i => Virtio(98 + i))
  }

  function Without(devices: seq<Device>, out: set<Device>): seq<Device> {
    if devices == [] then []
    else (if devices[0] in out then [] else [devices[0]]) + Without(devices[1..], out)
  }

  /** The devices of the OSD objects, in list order. */
  function OsdDevices(objects: seq<CephObject>): seq<Option<Device>> {
    if objects == [] then []
    else (if objects[0].role == "osd" then [objects[0].device] else []) + OsdDevices(objects[1..])
  }

  /** CephOsd.is_active: there is a device and its name is not empty. */
  predicate Active(device: Option<Device>) { device.Some? && device.value != Path("") }

  ghost predicate AllActive(devices: seq<Option<Device>>) {
    && (forall i :: 0 <= i < |devices| ==> Active(devices[i]))
    && (forall i, j :: 0 <= i < j < |devices| ==> devices[i] != devices[j])
  }

  /** The j-th OSD gets the j-th device from the end, and none once they run out. */
  lemma {:induction false} AssignOrder(objects: seq<CephObject>, devices: seq<Device>)
    ensures var given := OsdDevices(Assign(objects, devices));
            && |given| == Osds(objects)
            && forall j :: 0 <= j < |given| ==>
                 given[j] == if j < |devices| then Mounted(devices[|devices| - 1 - j]) else None
  {
    if objects != [] {
      var left := Serve(objects[0], devices).1;
      AssignOrder(objects[1..], left);
      AssignFirst(objects, devices);
      var given, rest := OsdDevices(Assign(objects, devices)), OsdDevices(Assign(objects[1..], left));
      forall j | 0 < j < |given| && objects[0].role == "osd" ensures given[j] == rest[j - 1] {}
    }
  }

  lemma AssignFirst(objects: seq<CephObject>, devices: seq<Device>)
    requires objects != []
    ensures var (o, left) := Serve(objects[0], devices);
            OsdDevices(Assign(objects, devices)) ==
            (if o.role == "osd" then [o.device] else []) + OsdDevices(Assign(objects[1..], left))
  {
    var (o, left) := Serve(objects[0], devices);
    assert Assign(objects, devices)[1..] == Assign(objects[1..], left);
  }

  ghost predicate Distinguishable(devices: seq<Device>) {
    && (forall i :: 0 <= i < |devices| ==> Active(Mounted(devices[i])))
    && (forall i, j :: 0 <= i < j < |devices| ==> Mounted(devices[i]) != Mounted(devices[j]))
  }

  /** With one device per OSD, the OSDs are all active on devices of their own if and only if the
      devices can be told apart by what is left of their paths. */
  lemma EveryOsdActive(objects: seq<CephObject>, devices: seq<Device>)
    requires |devices| == Osds(objects)
    ensures AllActive(OsdDevices(Assign(objects, devices))) <==> Distinguishable(devices)
    ensures |OsdDevices(Assign(objects, devices))| == Osds(Assign(objects, devices))
  {
    AssignOrder(objects, devices);
    AssignOsds(objects, devices);
    var given, n := OsdDevices(Assign(objects, devices)), |devices|;
    if AllActive(given) {
      forall i | 0 <= i < n ensures Active(Mounted(devices[i])) {
        assert given[n - 1 - i] == Mounted(devices[i]);
      }
      forall i, j | 0 <= i < j < n ensures Mounted(devices[i]) != Mounted(devices[j]) {
        assert given[n - 1 - j] == Mounted(devices[j]) && given[n - 1 - i] == Mounted(devices[i]);
      }
    }
  }

  /** Too few devices leave exactly the surplus OSDs inactive, and those that got a device
      without a name. */
  lemma SurplusInactive(objects: seq<CephObject>, devices: seq<Device>, j: nat)
    requires j < Osds(objects)
    ensures j < |OsdDevices(Assign(objects, devices))|
    ensures Active(OsdDevices(Assign(objects, devices))[j]) <==>
            j < |devices| && Active(Mounted(devices[|devices| - 1 - j]))
  {
    AssignOrder(objects, devices);
  }

  /** The last components of the allocated volumes' paths are all there and all differ. */
  ghost predicate GoodNames(vs: seq<NodeVolume>) {
    && (forall i :: 0 <= i < |vs| && vs[i].status == Allocated ==> BaseName(vs[i].path) != "")
    && (forall i, j :: 0 <= i < j < |vs| && vs[i].status == vs[j].status == Allocated ==>
          BaseName(vs[i].path) != BaseName(vs[j].path))
  }

  lemma {:induction false} WithAscending(vs: seq<NodeVolume>, st: Status)
    ensures AscendingBelow(With(vs, st), |vs|)
  {
    if vs != [] {
      WithAscending(vs[..|vs| - 1], st);
      OneMoreAscends(With(vs[..|vs| - 1], st), |vs| - 1);
    }
  }

  lemma {:induction false} WithFinds(vs: seq<NodeVolume>, st: Status, i: nat) returns (k: nat)
    requires i < |vs| && vs[i].status == st
    ensures k < |With(vs, st)| && With(vs, st)[k] == i
  {
    var n := |vs| - 1;
    var init := With(vs[..n], st);
    if i == n {
      k := |init|;
      assert With(vs, st) == init + [n];
    } else {
      k := WithFinds(vs[..n], st, i);
      assert init <= With(vs, st);
    }
  }

  /** Virtual disks can always be told apart, block devices exactly by their names. */
  lemma DevicesDistinct(vs: seq<NodeVolume>, baremetal: bool)
    ensures Distinguishable(Devices(vs, baremetal)) <==> (baremetal ==> GoodNames(vs))
    ensures |Devices(vs, baremetal)| == |With(vs, Allocated)|
  {
    if baremetal {
      if Distinguishable(Devices(vs, true)) { NamesFromDevices(vs); }
      if GoodNames(vs) { DevicesFromNames(vs); }
    }
  }

  lemma MountedName(vs: seq<NodeVolume>, k: nat)
    requires k < |With(vs, Allocated)|
    ensures var name, mounted := BaseName(vs[With(vs, Allocated)[k]].path), Mounted(Devices(vs, true)[k]);
            (Active(mounted) <==> name != "") && (name != "" ==> mounted == Some(Path(name)))
  {
  }

  lemma DevicesFromNames(vs: seq<NodeVolume>)
    requires GoodNames(vs)
    ensures Distinguishable(Devices(vs, true))
  {
    var taken := With(vs, Allocated);
    WithAscending(vs, Allocated);
    forall k | 0 <= k < |taken| ensures Active(Mounted(Devices(vs, true)[k])) { MountedName(vs, k); }
    forall k, m | 0 <= k < m < |taken| ensures Mounted(Devices(vs, true)[k]) != Mounted(Devices(vs, true)[m]) {
      MountedName(vs, k);
      MountedName(vs, m);
      assert taken[k] < taken[m];
    }
  }

  lemma NamesFromDevices(vs: seq<NodeVolume>)
    requires Distinguishable(Devices(vs, true))
    ensures GoodNames(vs)
  {
    forall i | 0 <= i < |vs| && vs[i].status == Allocated ensures BaseName(vs[i].path) != "" {
      var k := WithFinds(vs, Allocated, i);
      MountedName(vs, k);
    }
    forall i, j | 0 <= i < j < |vs| && vs[i].status == vs[j].status == Allocated
      ensures BaseName(vs[i].path) != BaseName(vs[j].path)
    {
      var k := WithFinds(vs, Allocated, i);
      var m := WithFinds(vs, Allocated, j);
      MountedName(vs, k);
      MountedName(vs, m);
      assert Mounted(Devices(vs, true)[k]) != Mounted(Devices(vs, true)[m]);
    }
  }

  lemma {:induction false} BaseOfJoin(directory: string, name: string)
    requires '/' !in name
    ensures BaseName(directory + "/" + name) == name
  {
    var path := directory + "/" + name;
    if name != "" {
      var n := |name| - 1;
      assert path[..|path| - 1] == directory + "/" + name[..n] && path[|path| - 1] == name[n];
      BaseOfJoin(directory, name[..n]);
    } else {
      assert path[|path| - 1] == '/';
    }
  }

  /** Two block devices of one name under different directories: both OSDs get it. */
  lemma OneNameTwoPaths(objects: seq<CephObject>, a: string, b: string, name: string)
    requires Osds(objects) == 2 && name != "" && '/' !in name
    ensures var vs := [NodeVolume(Allocated, a + "/" + name), NodeVolume(Allocated, b + "/" + name)];
            OsdDevices(Assign(objects, Devices(vs, true))) == [Some(Path(name)), Some(Path(name))]
  {
    var vs := [NodeVolume(Allocated, a + "/" + name), NodeVolume(Allocated, b + "/" + name)];
    BothTaken(vs);
    BaseOfJoin(a, name);
    BaseOfJoin(b, name);
    AssignOrder(objects, Devices(vs, true));
  }

  lemma BothTaken(vs: seq<NodeVolume>)
    requires |vs| == 2 && vs[0].status == vs[1].status == Allocated
    ensures Devices(vs, true) == [Path(vs[0].path), Path(vs[1].path)]
  {
    assert With(vs[..1][..0], Allocated) == [];
    assert With(vs[..1], Allocated) == [] + [0];
    assert With(vs, Allocated) == [0] + [1];
  }

  lemma XUnder(directory: string)
    requires directory != "" && directory[|directory| - 1] == '/'
    ensures BaseName(directory + "x") == "x"
  {
    assert (directory + "x")[..|directory|] == directory;
    assert BaseName(directory) == "";
  }
}
