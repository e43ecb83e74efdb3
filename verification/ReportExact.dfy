/** The orphan-record report and its deletion (utility/ibm_dns_report.py) in terms of the records'
    own fields and positions. */
module ReportExact {
  import opened Basics
  import opened Options
  import Dns
  import P = DnsProofs
  import O = DnsOldHost
  import opened DnsReport

  // ----- the report --------------------------------------------------------

  /** Some listed instance has the record's address: what an A record points to, and what a PTR
      record is called. */
  ghost predicate IsLive(r: Record, instances: seq<Instance>) {
    match r.rdata
    case A(ip, _) => exists i <- instances :: i.ip == ip
    case PTR(_) => exists i <- instances :: i.ip == r.name
    case OtherType => false
  }

  /** What is before the first dot of the name: an A record's own, a PTR record's target. */
  ghost predicate HasHost(r: Record, host: string) {
    var name := match r.rdata case PTR(target) => target case _ => r.name;
    '.' !in host && (name == host || exists rest: string :: name == host + "." + rest)
  }

  ghost predicate IsExcluded(r: Record, excluded: set<string>) { exists h <- excluded :: HasHost(r, h) }

  lemma HostIs(r: Record, host: string)
    ensures HasHost(r, host) <==> host == Dns.FirstLabel(DnsName(r))
  {
    var name := DnsName(r);
    O.BeforeSplits(name);
    if HasHost(r, host) {
      if name == host {
        O.NoDotBefore(name);
      } else {
        var rest: string :| name == host + "." + rest;
        P.FirstLabelHead(host, rest);
      }
    }
  }

  /** Live records are active, whatever is excluded; the others are excluded or orphans. */
  lemma StatusExactly(r: Record, instances: seq<Instance>, excluded: set<string>)
    requires Reported(r)
    ensures StatusOf(r, instances, excluded) ==
            if IsLive(r, instances) then Active else if IsExcluded(r, excluded) then Excluded else Orphan
  {
    forall h | h in excluded ensures HasHost(r, h) <==> h == Dns.FirstLabel(DnsName(r)) { HostIs(r, h); }
  }

  /** What an entry says of its record. */
  lemma DescribesExactly(e: Entry, r: Record)
    requires Reported(r)
    ensures Describes(e, r) <==>
            && e.id == r.id && e.zone == r.zone
            && match r.rdata
               case A(ip, linked) => e.isA && e.dnsName == r.name && e.ip == ip && e.hasPtr == linked
               case PTR(target) => !e.isA && e.dnsName == target && e.ip == r.name && !e.hasPtr
               case OtherType => true
  {
  }

  /** The records on the list of orphans, or on the other one, in their order. */
  lemma {:induction false} ThoseExactly(records: seq<Record>, instances: seq<Instance>, excluded: set<string>,
                                        orphan: bool) returns (at: seq<nat>)
    ensures Picks(records, at, Those(records, instances, excluded, orphan))
    ensures forall i: nat :: i < |records| ==>
              (i in at <==> !records[i].rdata.OtherType? &&
                            (orphan <==> !IsLive(records[i], instances) && !IsExcluded(records[i], excluded)))
  {
    at := [];
    if records != [] {
      var n := |records| - 1;
      var init, r := records[..n], records[n];
      assert records == init + [r];
      at := ThoseExactly(init, instances, excluded, orphan);
      PicksMore(init, at, Those(init, instances, excluded, orphan), r);
      if Reported(r) { StatusExactly(r, instances, excluded); }
      var takes := !r.rdata.OtherType? && (orphan <==> !IsLive(r, instances) && !IsExcluded(r, excluded));
      if takes { at := at + [n]; }
    }
  }

  // ----- the deletion ------------------------------------------------------

  /** One of the first n entries is of the zone. */
  ghost predicate Named(entries: seq<Entry>, n: nat, zone: string) {
    exists j: nat :: j < n && j < |entries| && entries[j].zone == zone
  }

  lemma NamedMore(init: seq<Entry>, e: Entry, n: nat, zone: string)
    ensures n <= |init| ==> (Named(init + [e], n, zone) <==> Named(init, n, zone))
    ensures Named(init + [e], |init| + 1, zone) <==> Named(init, |init|, zone) || e.zone == zone
  {
    assert (init + [e])[|init|] == e;
    forall j: nat | j < |init| ensures (init + [e])[j] == init[j] {}
  }

  lemma {:induction false} InZones(entries: seq<Entry>, zone: string)
    ensures zone in ZonesOf(entries) <==> Named(entries, |entries|, zone)
  {
    if entries != [] {
      var n := |entries| - 1;
      InZones(entries[..n], zone);
      assert entries == entries[..n] + [entries[n]];
      NamedMore(entries[..n], entries[n], n, zone);
      ZonesMore(entries[..n], entries[n]);
    }
  }

  /** The entry is the first one of its zone. */
  ghost predicate Opens(entries: seq<Entry>, i: nat)
    requires i < |entries|
  {
    !Named(entries, i, entries[i].zone)
  }

  lemma StillOpens(init: seq<Entry>, e: Entry, i: nat)
    requires i < |init|
    ensures Opens(init + [e], i) <==> Opens(init, i)
  {
    NamedMore(init, e, i, init[i].zone);
  }

  /** The positions of the first entries of the zones, in order. */
  ghost predicate Firsts(entries: seq<Entry>, at: seq<nat>) {
    AscendingBelow(at, |entries|) && forall i: nat :: i < |entries| ==> (i in at <==> Opens(entries, i))
  }

  ghost predicate ZonesAt(entries: seq<Entry>, at: seq<nat>, zones: seq<string>) {
    |zones| == |at| && forall k :: 0 <= k < |at| ==> at[k] < |entries| && zones[k] == entries[at[k]].zone
  }

  /** The zones come in the order of their first entries. */
  lemma {:induction false} ZonesExactly(entries: seq<Entry>) returns (at: seq<nat>)
    ensures Firsts(entries, at) && ZonesAt(entries, at, ZonesOf(entries))
  {
    at := [];
    if entries != [] {
      var n := |entries| - 1;
      var init, e := entries[..n], entries[n];
      assert entries == init + [e];
      at := ZonesExactly(init);
      ZonesMore(init, e);
      InZones(init, e.zone);
      NamedMore(init, e, n, e.zone);
      FirstsMore(init, e, at);
      if e.zone !in ZonesOf(init) { at := at + [n]; }
    }
  }

  lemma FirstsMore(init: seq<Entry>, e: Entry, at: seq<nat>)
    requires Firsts(init, at)
    ensures Firsts(init + [e], if Opens(init + [e], |init|) then at + [|init|] else at)
  {
    OneMoreAscends(at, |init|);
    forall i: nat | i < |init| ensures Opens(init + [e], i) <==> Opens(init, i) { StillOpens(init, e, i); }
    assert |init| !in at;
  }

  /** The entries of a zone, in order. */
  lemma {:induction false} InZoneExactly(entries: seq<Entry>, zone: string) returns (at: seq<nat>)
    ensures Picks(entries, at, InZone(entries, zone))
    ensures forall i: nat :: i < |entries| ==> (i in at <==> entries[i].zone == zone)
  {
    at := [];
    if entries != [] {
      var n := |entries| - 1;
      assert entries == entries[..n] + [entries[n]];
      at := InZoneExactly(entries[..n], zone);
      PicksMore(entries[..n], at, InZone(entries[..n], zone), entries[n]);
      if entries[n].zone == zone { at := at + [n]; }
    }
  }

  /** The id that the first entry of the zone carries, or else the one the service knows. */
  lemma ZoneIdExactly(entries: seq<Entry>, i: nat, service: Service)
    requires i < |entries| && Opens(entries, i)
    ensures var e := entries[i];
            ZoneIdFor(entries, e.zone, service) ==
            if e.zoneId != "" then Some(e.zoneId)
            else if e.zone in service.zoneIds then Some(service.zoneIds[e.zone]) else None
  {
    var at := InZoneExactly(entries, entries[i].zone);
    assert i in at && entries[at[0]].zone == entries[i].zone;
    var k :| 0 <= k < |at| && at[k] == i;
    assert at[0] <= at[k];
  }

  /** How many calls the service accepts. */
  lemma {:induction false} AcceptedExactly(calls: seq<Call>, accepts: nat -> bool)
    ensures Accepted(calls, accepts) == |set k: nat | k < |calls| && accepts(k)|
  {
    if calls != [] {
      var n := |calls| - 1;
      AcceptedExactly(calls[..n], accepts);
      var before, all := set k: nat | k < n && accepts(k), set k: nat | k < |calls| && accepts(k);
      assert all == before + if accepts(n) then {n} else {};
      assert |calls[..n]| == n;
    } else {
      assert (set k: nat | k < |calls| && accepts(k)) == {};
    }
  }

  /** The zone id of the first record with the entry's id. */
  lemma {:induction false} AnnotatedExactly(e: Entry, records: seq<Record>, i: nat)
    requires i <= |records| && forall j :: 0 <= j < i ==> records[j].id != e.id
    requires i < |records| ==> records[i].id == e.id
    ensures Annotated(e, records) == if i < |records| then e.(zoneId := records[i].zoneId) else e
  {
    if i > 0 { AnnotatedExactly(e, records[1..], i - 1); }
  }

  /** The group lies in the list from this position on. */
  predicate LiesAt<T(==)>(s: seq<T>, start: nat, group: seq<T>) {
    start + |group| <= |s| && s[start..start + |group|] == group
  }

  lemma StillLies<T>(s: seq<T>, start: nat, group: seq<T>, more: seq<T>)
    ensures LiesAt(s, start, group) ==> LiesAt(s + more, start, group)
    ensures LiesAt(s + group, |s|, group)
  {
    if LiesAt(s, start, group) { assert (s + more)[start..start + |group|] == s[start..start + |group|]; }
  }

  /** The entries of a zone whose id is known are deleted in one go, in their order, after those of
      the zones before it. */
  lemma {:induction false} ReachableAt(entries: seq<Entry>, zones: seq<string>, service: Service, k: nat)
    requires k < |zones| && ZoneIdFor(entries, zones[k], service).Some?
    ensures LiesAt(Reachable(entries, zones, service), |Reachable(entries, zones[..k], service)|,
                   InZone(entries, zones[k]))
  {
    var init := zones[..|zones| - 1];
    if k < |init| {
      assert init[..k] == zones[..k];
      ReachableAt(entries, init, service, k);
    }
    var zone := zones[|zones| - 1];
    StillLies(Reachable(entries, init, service), |Reachable(entries, zones[..k], service)|, InZone(entries, zones[k]),
              if ZoneIdFor(entries, zone, service).Some? then InZone(entries, zone) else []);
  }
}
