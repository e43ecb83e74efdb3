/** Rewriting the monmap to v2-only addresses and checking it (utility/odf_defaults.py). */
module Monmap {
  import opened Options
  import opened MonAddress

  // ----- monmap entries ----------------------------------------------------

  datatype Addr = Addr(kind: string, addr: string)

  /** A mon of the dump; an empty name, vector or string stands for a missing one. */
  datatype Mon = Mon(name: string, vec: seq<Addr>, publicAddr: string, addr: string)

  /** The first usable address of a kind. */
  function FirstIp(vec: seq<Addr>, kind: string): string {
    if vec == [] then ""
    else
      var ip := if vec[0].kind == kind then IpFrom(vec[0].addr) else None;
      if ip.Some? && ip.value != "" then ip.value else FirstIp(vec[1..], kind)
  }

  function Or(a: string, b: string): string { if a != "" then a else b }

  function IpOrEmpty(address: string): string { match IpFrom(address) case Some(ip) => ip case None => "" }

  /** _mon_name_and_ip: v2 before v1 before the plain strings; no result without a name or an address. */
  function NameAndIp(mon: Mon): (r: Option<(string, string)>)
    ensures r.Some? ==> r.value.0 == mon.name != "" && r.value.1 != ""
  {
    var ip := Or(FirstIp(mon.vec, "v2"),
        Or(FirstIp(mon.vec, "v1"), Or(IpOrEmpty(mon.publicAddr), IpOrEmpty(mon.addr))));
    if mon.name == "" || ip == "" then None else Some((mon.name, ip))
  }

  predicate Usable(a: Addr, kind: string) { a.kind == kind && IpOrEmpty(a.addr) != "" }

  lemma {:induction false} FirstIpExactly(vec: seq<Addr>, kind: string) returns (k: nat)
    ensures FirstIp(vec, kind) == "" ==> forall a <- vec :: !Usable(a, kind)
    ensures FirstIp(vec, kind) != "" ==>
              && k < |vec| && Usable(vec[k], kind) && FirstIp(vec, kind) == IpOrEmpty(vec[k].addr)
              && forall j :: 0 <= j < k ==> !Usable(vec[j], kind)
  {
    k := 0;
    if vec != [] && !Usable(vec[0], kind) {
      k := FirstIpExactly(vec[1..], kind);
      k := k + 1;
    }
  }

  /** The host of a mon is that of its first usable v2 address; without one, of its first
      usable v1 address; and only then that of the plain strings. */
  lemma PrefersV2(mon: Mon)
    requires mon.name != ""
    ensures (exists a <- mon.vec :: Usable(a, "v2")) ==>
              exists k :: 0 <= k < |mon.vec| && Usable(mon.vec[k], "v2") &&
                  (forall j :: 0 <= j < k ==> !Usable(mon.vec[j], "v2"))
                          && NameAndIp(mon) == Some((mon.name, IpOrEmpty(mon.vec[k].addr)))
    ensures (forall a <- mon.vec :: !Usable(a, "v2")) && (exists a <- mon.vec :: Usable(a, "v1")) ==>
              exists k :: 0 <= k < |mon.vec| && Usable(mon.vec[k], "v1") &&
                  (forall j :: 0 <= j < k ==> !Usable(mon.vec[j], "v1"))
                          && NameAndIp(mon) == Some((mon.name, IpOrEmpty(mon.vec[k].addr)))
    ensures (forall a <- mon.vec :: !Usable(a, "v2") && !Usable(a, "v1")) ==>
              NameAndIp(mon) == (var ip := Or(IpOrEmpty(mon.publicAddr), IpOrEmpty(mon.addr));
                                 if ip == "" then None else Some((mon.name, ip)))
  {
    var k2 := FirstIpExactly(mon.vec, "v2");
    var k1 := FirstIpExactly(mon.vec, "v1");
  }

  // ----- apply_v2_only_mon_addrs -------------------------------------------

  /** What one set-addrs call does: works, changes nothing and raises, or works and raises. */
  datatype Fault = Fine | Rejected | LateError
  datatype Failure = BadJson | NoMons | Unresolved(index: nat) | SetFailed(name: string)

  /** The entry after ceph mon set-addrs NAME [v2:HOST:3300/0]. */
  function V2Mon(name: string, host: string): Mon {
    Mon(name, [Addr("v2", Printed(host))], Printed(host) + "/0", Printed(host) + "/0")
  }

  function Rewritten(mons: seq<Mon>, name: string, host: string): (r: seq<Mon>)
    ensures |r| == |mons| && forall i :: 0 <= i < |r| ==> r[i].name == mons[i].name
  {
    seq(|mons|, i requires 0 <= i < |mons| => if mons[i].name == name then V2Mon(name, host) else mons[i])
  }

  /** The cluster's monmap, as the set-addrs command changes it. */
  class Cluster {
    var mons: seq<Mon>

    method SetAddrs(name: string, host: string, fault: Fault) returns (ok: bool)
      modifies this
      ensures ok <==> fault.Fine?
      ensures mons == if fault.Rejected? then old(mons) else Rewritten(old(mons), name, host)
    {
      if !fault.Rejected? { mons := Rewritten(mons, name, host); }
      ok := fault.Fine?;
    }
  }

  type Progress = (seq<Mon>, seq<Failure>)

  /** One turn of the loop: the monmap and the failures after the n-th mon of the dump. */
  function OneApplied(mon: Mon, n: nat, fault: Fault, sofar: Progress): (r: Progress)
    ensures |r.0| == |sofar.0| && forall i :: 0 <= i < |r.0| ==> r.0[i].name == sofar.0[i].name
    ensures r.1 == [] ==> sofar.1 == []
  {
    match NameAndIp(mon)
    case None => (sofar.0, sofar.1 + [Unresolved(n)])
    case Some((name, ip)) =>
      (if fault.Rejected? then sofar.0 else Rewritten(sofar.0, name, ip),
       if fault.Fine? then sofar.1 else sofar.1 + [SetFailed(name)])
  }

  /** The loop over a dump: the monmap it leaves and the failures it reports. */
  function Applied(dump: seq<Mon>, mons: seq<Mon>, faults: nat -> Fault): (r: Progress)
    ensures |r.0| == |mons| && forall i :: 0 <= i < |mons| ==> r.0[i].name == mons[i].name
  {
    if dump == [] then (mons, [])
    else
      var n := |dump| - 1;
      OneApplied(dump[n], n, faults(n), Applied(dump[..n], mons, faults))
  }

  method ApplyOne(cluster: Cluster, mon: Mon, n: nat, fault: Fault, failures0: seq<Failure>)
    returns (failures: seq<Failure>)
    modifies cluster
    ensures (cluster.mons, failures) == OneApplied(mon, n, fault, (old(cluster.mons), failures0))
  {
    failures := failures0;
    var parsed := NameAndIp(mon);
    if parsed.None? {
      failures := failures + [Unresolved(n)];
    } else {
      var (name, ip) := parsed.value;
      var ok := cluster.SetAddrs(name, ip, fault);
      if !ok { failures := failures + [SetFailed(name)]; }
    }
  }

  lemma AppliedMore(dump: seq<Mon>, i: nat, faults: nat -> Fault)
    requires i < |dump|
    ensures Applied(dump[..i + 1], dump, faults) == OneApplied(dump[i], i, faults(i), Applied(dump[..i], dump, faults))
  {
    var first := dump[..i + 1];
    assert first[..i] == dump[..i] && first[i] == dump[i];
    AppliedLast(first, dump, faults);
  }

  lemma AppliedLast(dump: seq<Mon>, mons: seq<Mon>, faults: nat -> Fault)
    requires dump != []
    ensures var n := |dump| - 1;
            Applied(dump, mons, faults) == OneApplied(dump[n], n, faults(n), Applied(dump[..n], mons, faults))
  {
  }

  method ApplyV2Only(cluster: Cluster, readable: bool, faults: nat -> Fault) returns (failures: seq<Failure>)
    modifies cluster
    ensures var was := old(cluster.mons);
            if !readable then cluster.mons == was && failures == [BadJson]
            else if was == [] then cluster.mons == was && failures == [NoMons]
            else (cluster.mons, failures) == Applied(was, was, faults)
  {
    if !readable { return [BadJson]; }
    var dump := cluster.mons;
    if dump == [] { return [NoMons]; }
    failures := [];
    for i := 0 to |dump|
      invariant (cluster.mons, failures) == Applied(dump[..i], dump, faults)
    {
      AppliedMore(dump, i, faults);
      failures := ApplyOne(cluster, dump[i], i, faults(i), failures);
    }
    assert dump[..|dump|] == dump;
  }

  // ----- the monmap part of verify_odf_defaults ----------------------------

  datatype Mismatch =
    | StillV1(name: string)
    | MissingV2(name: string)
    | PublicV1(name: string)
    | PublicNotV2(name: string)

  predicate Contains(s: string, part: string) { part <= s || (s != "" && Contains(s[1..], part)) }

  predicate HasKind(vec: seq<Addr>, kind: string) { exists a <- vec :: a.kind == kind }

  predicate V2Only(mon: Mon) {
    if mon.vec != [] then HasKind(mon.vec, "v2") && !HasKind(mon.vec, "v1")
    else
      var public := Or(mon.publicAddr, mon.addr);
      && !Contains(public, "v1:") && !Contains(public, ":6789")
      && (Contains(public, "v2:") || Contains(public, ":3300"))
  }

  function MonMismatches(mon: Mon): (r: seq<Mismatch>)
    ensures r == [] <==> V2Only(mon)
  {
    if mon.vec != [] then
      (if HasKind(mon.vec, "v1") then [StillV1(mon.name)] else [])
      + if HasKind(mon.vec, "v2") then [] else [MissingV2(mon.name)]
    else
      var public := Or(mon.publicAddr, mon.addr);
      (if Contains(public, "v1:") || Contains(public, ":6789") then [PublicV1(mon.name)] else [])
      + if Contains(public, "v2:") || Contains(public, ":3300") then [] else [PublicNotV2(mon.name)]
  }

  method VerifyMonmap(mons: seq<Mon>) returns (mismatches: seq<Mismatch>)
    ensures mismatches == [] <==> forall m <- mons :: V2Only(m)
    ensures forall x :: x in mismatches <==> exists m <- mons :: x in MonMismatches(m)
  {
    mismatches := [];
    for i := 0 to |mons|
      invariant mismatches == [] <==> forall m <- mons[..i] :: V2Only(m)
      invariant forall x :: x in mismatches <==> exists m <- mons[..i] :: x in MonMismatches(m)
    {
      assert mons[..i + 1] == mons[..i] + [mons[i]];
      mismatches := mismatches + MonMismatches(mons[i]);
    }
    assert mons[..|mons|] == mons;
  }

  // ----- what the two promise together -------------------------------------

  lemma OneIsV2Only(mon: Mon, n: nat, fault: Fault, sofar: Progress, i: nat)
    requires i < |sofar.0| && OneApplied(mon, n, fault, sofar).1 == []
    ensures NameAndIp(mon).Some? && fault.Fine?
    ensures V2Only(sofar.0[i]) || mon.name == sofar.0[i].name ==> V2Only(OneApplied(mon, n, fault, sofar).0[i])
  {
    V2MonIsV2Only(mon.name, if NameAndIp(mon).Some? then NameAndIp(mon).value.1 else "");
  }

  predicate Named(dump: seq<Mon>, name: string) { exists m <- dump :: m.name == name }

  lemma NamedMore(dump: seq<Mon>, name: string)
    requires dump != []
    ensures Named(dump, name) <==> Named(dump[..|dump| - 1], name) || dump[|dump| - 1].name == name
  {
    assert dump == dump[..|dump| - 1] + [dump[|dump| - 1]];
  }

  lemma {:induction false} AppliedNames(dump: seq<Mon>, mons: seq<Mon>, faults: nat -> Fault, i: nat)
    requires Applied(dump, mons, faults).1 == [] && i < |mons|
    ensures Named(dump, mons[i].name) ==> V2Only(Applied(dump, mons, faults).0[i])
  {
    if dump != [] {
      var n := |dump| - 1;
      NamedMore(dump, mons[i].name);
      OneIsV2Only(dump[n], n, faults(n), Applied(dump[..n], mons, faults), i);
      AppliedNames(dump[..n], mons, faults, i);
    }
  }

  lemma V2MonIsV2Only(name: string, host: string)
    ensures V2Only(V2Mon(name, host))
  {
    assert V2Mon(name, host).vec[0].kind == "v2";
  }

  /** After a run without failures the check reports nothing. */
  lemma NoFailuresNoMismatch(mons: seq<Mon>, faults: nat -> Fault)
    requires Applied(mons, mons, faults).1 == []
    ensures forall m <- Applied(mons, mons, faults).0 :: V2Only(m)
  {
    var after := Applied(mons, mons, faults).0;
    forall i | 0 <= i < |after| ensures V2Only(after[i]) {
      assert mons[i] in mons && Named(mons, mons[i].name);
      AppliedNames(mons, mons, faults, i);
    }
  }

  predicate UniqueNames(mons: seq<Mon>) { forall i, j :: 0 <= i < j < |mons| ==> mons[i].name != mons[j].name }

  /** A run without failures rewrites each mon of the dump with its own address. */
  lemma {:induction false} AppliedExactly(dump: seq<Mon>, mons: seq<Mon>, faults: nat -> Fault, i: nat)
    requires dump <= mons && UniqueNames(mons) && Applied(dump, mons, faults).1 == [] && i < |mons|
    ensures i < |dump| ==> NameAndIp(mons[i]).Some?
    ensures Applied(dump, mons, faults).0[i] ==
            if i < |dump| then V2Mon(mons[i].name, NameAndIp(mons[i]).value.1) else mons[i]
  {
    if dump != [] {
      var n := |dump| - 1;
      AppliedExactly(dump[..n], mons, faults, i);
      OneChanges(mons, n, faults(n), Applied(dump[..n], mons, faults), i);
    }
  }

  lemma OneChanges(mons: seq<Mon>, n: nat, fault: Fault, sofar: Progress, i: nat)
    requires UniqueNames(mons) && n < |mons| == |sofar.0| && i < |mons| && sofar.0[i].name == mons[i].name
    requires OneApplied(mons[n], n, fault, sofar).1 == []
    ensures NameAndIp(mons[n]).Some?
    ensures OneApplied(mons[n], n, fault, sofar).0[i] ==
            if i == n then V2Mon(mons[n].name, NameAndIp(mons[n]).value.1) else sofar.0[i]
  {
  }

  lemma {:induction false} AllFineNoFailure(dump: seq<Mon>, mons: seq<Mon>, faults: nat -> Fault)
    requires (forall k :: faults(k).Fine?) && forall m <- dump :: NameAndIp(m).Some?
    ensures Applied(dump, mons, faults).1 == []
  {
    if dump != [] { AllFineNoFailure(dump[..|dump| - 1], mons, faults); }
  }

  lemma RereadV2(name: string, host: string)
    requires name != "" && host != ""
    ensures NameAndIp(V2Mon(name, host)) == Some((name, host)) <==> Plain(host)
  {
    var mon := V2Mon(name, host);
    assert mon.vec[1..] == [] && mon.vec[0].kind[1] != "v1"[1];
    assert FirstIp([], "v1") == FirstIp([], "v2") == "";
    assert FirstIp(mon.vec, "v1") == FirstIp(mon.vec[1..], "v1");
    assert FirstIp(mon.vec, "v2") == IpOrEmpty(Printed(host));
    NonceIgnored(host);
    RoundTripExactly(host);
  }

  lemma V2MonInjective(name: string, host: string, other: string)
    ensures V2Mon(name, host) == V2Mon(name, other) <==> host == other
  {
    if V2Mon(name, host) == V2Mon(name, other) {
      assert Printed(host) == V2Mon(name, host).vec[0].addr == Printed(other);
      assert Printed(host)[..|Printed(host)| - 5] == host && Printed(other)[..|Printed(other)| - 5] == other;
    }
  }

  /** Rewriting the mon with its own address would not change it. */
  predicate Settled(mon: Mon) { NameAndIp(mon).Some? && V2Mon(mon.name, NameAndIp(mon).value.1) == mon }

  /** A mon that was rewritten is settled exactly when its host is plain. */
  lemma SettledExactly(name: string, host: string)
    requires name != "" && host != ""
    ensures Settled(V2Mon(name, host)) <==> Plain(host)
  {
    var once := V2Mon(name, host);
    RereadV2(name, host);
    if NameAndIp(once).Some? { V2MonInjective(name, host, NameAndIp(once).value.1); }
  }

  /** A faultless run keeps exactly the monmaps in which every mon is settled. */
  lemma FixpointExactly(mons: seq<Mon>, faults: nat -> Fault)
    requires UniqueNames(mons) && forall k :: faults(k).Fine?
    ensures Applied(mons, mons, faults) == (mons, []) <==> forall i :: 0 <= i < |mons| ==> Settled(mons[i])
  {
    if forall i :: 0 <= i < |mons| ==> Settled(mons[i]) { AllFineNoFailure(mons, mons, faults); }
    var r := Applied(mons, mons, faults);
    if r.1 == [] {
      forall i | 0 <= i < |mons| ensures r.0[i] == mons[i] <==> Settled(mons[i]) { SettledAt(mons, faults, i); }
      SameMons(r.0, mons);
    }
  }

  lemma SettledAt(mons: seq<Mon>, faults: nat -> Fault, i: nat)
    requires UniqueNames(mons) && Applied(mons, mons, faults).1 == [] && i < |mons|
    ensures Applied(mons, mons, faults).0[i] == mons[i] <==> Settled(mons[i])
  {
    AppliedExactly(mons, mons, faults, i);
  }

  lemma SameMons(a: seq<Mon>, b: seq<Mon>)
    requires |a| == |b|
    ensures a == b <==> forall i :: 0 <= i < |b| ==> a[i] == b[i]
  {
  }

  /** A second run changes nothing, and reports nothing, exactly when all hosts are plain. */
  lemma ApplyTwiceExactly(mons: seq<Mon>, faults: nat -> Fault, again: nat -> Fault)
    requires UniqueNames(mons) && Applied(mons, mons, faults).1 == [] && forall k :: again(k).Fine?
    ensures forall m <- mons :: NameAndIp(m).Some?
    ensures var after := Applied(mons, mons, faults).0;
            Applied(after, after, again) == (after, []) <==> forall m <- mons :: Plain(NameAndIp(m).value.1)
  {
    var after := Applied(mons, mons, faults).0;
    FixpointExactly(after, again);
    forall i | 0 <= i < |mons|
      ensures NameAndIp(mons[i]).Some? && (Settled(after[i]) <==> Plain(NameAndIp(mons[i]).value.1))
    {
      AppliedExactly(mons, mons, faults, i);
      SettledExactly(mons[i].name, NameAndIp(mons[i]).value.1);
    }
  }

  /** A monmap with such a host is not kept by a second run: the first one stores the host with
      both brackets, the second one without the opening bracket. */
  lemma SecondRunChanges(name: string, ip: string, faults: nat -> Fault)
    requires name != "" && Ipv6(ip) && forall k :: faults(k).Fine?
    ensures var host := "[" + ip + "]";
            var mons := [Mon(name, [Addr("v2", "v2:" + Printed(host) + "/0")], "", "")];
            var after := Applied(mons, mons, faults).0;
            after == [V2Mon(name, host)] && Applied(after, after, faults) != (after, [])
  {
    var host := "[" + ip + "]";
    var mon := Mon(name, [Addr("v2", "v2:" + Printed(host) + "/0")], "", "");
    var mons := [mon];
    TaggedBracketedHost(ip);
    assert FirstIp(mon.vec, "v2") == host;
    assert NameAndIp(mon) == Some((name, host));
    AllFineNoFailure(mons, mons, faults);
    AppliedExactly(mons, mons, faults, 0);
    ApplyTwiceExactly(mons, faults, faults);
    assert mon in mons;
  }
}
