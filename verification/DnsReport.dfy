/** The orphan-record report and the deletion it feeds (utility/ibm_dns_report.py). */
module DnsReport {
  import opened Options
  import Dns

  /** A zone record as listed, with the zone it was listed from. */
  datatype Rdata = A(ip: string, linked: bool) | PTR(target: string) | OtherType
  datatype Record = Record(id: string, name: string, rdata: Rdata, zone: string, zoneId: string)

  datatype Instance = Instance(name: string, ip: string)

  datatype Status = Active | Excluded | Orphan
  datatype Entry = Entry(status: Status, zone: string, isA: bool, dnsName: string, ip: string, vm: string,
                         id: string, hasPtr: bool, zoneId: string)

  predicate Reported(r: Record) { !r.rdata.OtherType? }

  /** An A record's address is its data; a PTR record's address is its name. */
  function Address(r: Record): string { if r.rdata.A? then r.rdata.ip else r.name }
  function DnsName(r: Record): string { if r.rdata.PTR? then r.rdata.target else r.name }

  predicate Live(instances: seq<Instance>, ip: string) { exists i <- instances :: i.ip == ip }

  /** The status the report should give. */
  function StatusOf(r: Record, instances: seq<Instance>, excluded: set<string>): Status {
    if Live(instances, Address(r)) then Active
    else if Dns.FirstLabel(DnsName(r)) in excluded then Excluded
    else Orphan
  }

  /** The entry stands for the record. */
  predicate Describes(e: Entry, r: Record) {
    && e.id == r.id && e.zone == r.zone && e.ip == Address(r) && e.dnsName == DnsName(r)
    && (e.isA <==> r.rdata.A?) && (e.hasPtr <==> r.rdata.A? && r.rdata.linked)
  }

  // ----- generate_dns_report -----------------------------------------------

  /** The last instance of the address has the name. */
  ghost predicate LastAt(instances: seq<Instance>, ip: string, name: string) {
    exists k: nat ::
      && k < |instances| && instances[k].ip == ip && instances[k].name == name
      && forall j :: k < j < |instances| ==> instances[j].ip != ip
  }

  lemma LastAtMore(instances: seq<Instance>, vm: Instance, ip: string, name: string)
    ensures LastAt(instances + [vm], ip, name) <==> if vm.ip == ip then vm.name == name else LastAt(instances, ip, name)
  {
    var more := instances + [vm];
    if vm.ip == ip && vm.name == name { assert more[|instances|] == vm; }
    if k: nat :| k < |instances| && instances[k].ip == ip && instances[k].name == name
                 && forall j :: k < j < |instances| ==> instances[j].ip != ip {
      if vm.ip != ip { assert more[k] == instances[k]; }
    }
    if k: nat :| k < |more| && more[k].ip == ip && more[k].name == name
                 && forall j :: k < j < |more| ==> more[j].ip != ip {
      assert more[|instances|] == vm;
      if vm.ip != ip { assert instances[k] == more[k] && forall j :: k < j < |instances| ==> instances[j] == more[j]; }
    }
  }

  ghost predicate Indexed(ipToVm: map<string, string>, instances: seq<Instance>) {
    && (forall ip :: ip in ipToVm <==> Live(instances, ip))
    && forall ip <- ipToVm :: LastAt(instances, ip, ipToVm[ip])
  }

  /** ip_to_vm: the last instance of an address names it. */
  method IndexByIp(instances: seq<Instance>) returns (ipToVm: map<string, string>)
    ensures Indexed(ipToVm, instances)
  {
    ipToVm := map[];
    for k := 0 to |instances|
      invariant Indexed(ipToVm, instances[..k])
    {
      var vm := instances[k];
      assert instances[..k + 1] == instances[..k] + [vm];
      ghost var before := ipToVm;
      ipToVm := ipToVm[vm.ip := vm.name];
      forall ip | ip in ipToVm ensures LastAt(instances[..k + 1], ip, ipToVm[ip]) {
        LastAtMore(instances[..k], vm, ip, ipToVm[ip]);
      }
    }
    assert instances[..|instances|] == instances;
  }

  /** The records that get a given kind of entry, in order. */
  function Those(records: seq<Record>, instances: seq<Instance>, excluded: set<string>, orphan: bool): seq<Record> {
    if records == [] then []
    else
      var n := |records| - 1;
      var r := records[n];
      Those(records[..n], instances, excluded, orphan)
      + if Reported(r) && (StatusOf(r, instances, excluded).Orphan? <==> orphan) then [r] else []
  }

  /** The VM column: the instance at a live address, or a constant. */
  ghost predicate Named(e: Entry, instances: seq<Instance>) {
    match e.status
    case Active => LastAt(instances, e.ip, e.vm)
    case Excluded => e.vm == "EXCLUDED"
    case Orphan => e.vm == "N/A"
  }

  ghost predicate Entries(es: seq<Entry>, rs: seq<Record>, instances: seq<Instance>, excluded: set<string>) {
    && |es| == |rs|
    && forall i :: 0 <= i < |es| ==>
         Describes(es[i], rs[i]) && es[i].status == StatusOf(rs[i], instances, excluded) && Named(es[i], instances)
  }

  function EntryOf(r: Record, status: Status, vm: string): Entry
    requires Reported(r)
  {
    Entry(status, r.zone, r.rdata.A?, DnsName(r), Address(r), vm, r.id, r.rdata.A? && r.rdata.linked, "")
  }

  /** One pass of the loop over the records. */
  method Report(r: Record, ipToVm: map<string, string>, excluded: set<string>, ghost instances: seq<Instance>)
    returns (e: Entry)
    requires Reported(r) && Indexed(ipToVm, instances)
    ensures Entries([e], [r], instances, excluded)
  {
    if Address(r) in ipToVm {
      e := EntryOf(r, Active, ipToVm[Address(r)]);
    } else if Dns.FirstLabel(DnsName(r)) in excluded {
      e := EntryOf(r, Excluded, "EXCLUDED");
    } else {
      e := EntryOf(r, Orphan, "N/A");
    }
  }

  lemma EntriesMore(es: seq<Entry>, rs: seq<Record>, e: Entry, r: Record, instances: seq<Instance>,
                    excluded: set<string>)
    requires Entries(es, rs, instances, excluded) && Entries([e], [r], instances, excluded)
    ensures Entries(es + [e], rs + [r], instances, excluded)
  {
    assert [e][0] == e && [r][0] == r;
  }

  lemma ThoseMore(records: seq<Record>, k: nat, instances: seq<Instance>, excluded: set<string>, orphan: bool)
    requires k < |records|
    ensures var r, sofar := records[k], Those(records[..k], instances, excluded, orphan);
            Those(records[..k + 1], instances, excluded, orphan) ==
            if Reported(r) && (StatusOf(r, instances, excluded).Orphan? <==> orphan) then sofar + [r] else sofar
  {
    assert records[..k + 1][..k] == records[..k];
  }

  method GenerateReport(instances: seq<Instance>, records: seq<Record>, excluded: set<string>)
    returns (orphans: seq<Entry>, active: seq<Entry>)
    ensures Entries(orphans, Those(records, instances, excluded, true), instances, excluded)
    ensures Entries(active, Those(records, instances, excluded, false), instances, excluded)
  {
    var ipToVm := IndexByIp(instances);
    orphans, active := [], [];
    for k := 0 to |records|
      invariant Entries(orphans, Those(records[..k], instances, excluded, true), instances, excluded)
      invariant Entries(active, Those(records[..k], instances, excluded, false), instances, excluded)
    {
      var r := records[k];
      ThoseMore(records, k, instances, excluded, true);
      ThoseMore(records, k, instances, excluded, false);
      if Reported(r) {
        var e := Report(r, ipToVm, excluded, instances);
        assert [e][0] == e && [r][0] == r;
        if e.status.Orphan? {
          EntriesMore(orphans, Those(records[..k], instances, excluded, true), e, r, instances, excluded);
          orphans := orphans + [e];
        } else {
          EntriesMore(active, Those(records[..k], instances, excluded, false), e, r, instances, excluded);
          active := active + [e];
        }
      }
    }
    assert records[..|records|] == records;
  }

  function ReportedOnly(records: seq<Record>): seq<Record> {
    if records == [] then []
    else ReportedOnly(records[..|records| - 1])
         + if Reported(records[|records| - 1]) then [records[|records| - 1]] else []
  }

  /** Every A and PTR record gets exactly one entry, on one of the two lists, and no other
      record gets one; an orphan is never a listed instance's address nor an excluded host. */
  lemma {:induction false} Partition(records: seq<Record>, instances: seq<Instance>, excluded: set<string>)
    ensures var orphans := Those(records, instances, excluded, true);
            var active := Those(records, instances, excluded, false);
            && multiset(orphans) + multiset(active) == multiset(ReportedOnly(records))
            && (forall r <- orphans :: !Live(instances, Address(r)) && Dns.FirstLabel(DnsName(r)) !in excluded)
            && (forall r <- active :: Live(instances, Address(r)) || Dns.FirstLabel(DnsName(r)) in excluded)
  {
    if records != [] { Partition(records[..|records| - 1], instances, excluded); }
  }

  // ----- delete_orphan_dns_entries -----------------------------------------

  function InZone(entries: seq<Entry>, zone: string): (r: seq<Entry>) {
    if entries == [] then []
    else InZone(entries[..|entries| - 1], zone)
         + if entries[|entries| - 1].zone == zone then [entries[|entries| - 1]] else []
  }

  /** Zone names in the order they first appear: the order of a Python dict's keys. */
  function ZonesOf(entries: seq<Entry>): seq<string> {
    if entries == [] then []
    else
      var n := |entries| - 1;
      var earlier := ZonesOf(entries[..n]);
      if entries[n].zone in earlier then earlier else earlier + [entries[n].zone]
  }

  lemma {:induction false} ZonesAreDistinct(entries: seq<Entry>)
    ensures forall i, j :: 0 <= i < j < |ZonesOf(entries)| ==> ZonesOf(entries)[i] != ZonesOf(entries)[j]
    ensures forall e <- entries :: e.zone in ZonesOf(entries)
  {
    if entries != [] {
      assert entries == entries[..|entries| - 1] + [entries[|entries| - 1]];
      ZonesAreDistinct(entries[..|entries| - 1]);
    }
  }

  /** The grouping dict: every zone's entries, in order. */
  function GroupsOf(entries: seq<Entry>): map<string, seq<Entry>> {
    map z | z in ZonesOf(entries) :: InZone(entries, z)
  }

  lemma {:induction false} NoneInZone(entries: seq<Entry>, zone: string)
    requires zone !in ZonesOf(entries)
    ensures InZone(entries, zone) == []
  {
    if entries != [] { NoneInZone(entries[..|entries| - 1], zone); }
  }

  lemma ZonesMore(entries: seq<Entry>, e: Entry)
    ensures ZonesOf(entries + [e]) ==
            if e.zone in ZonesOf(entries) then ZonesOf(entries) else ZonesOf(entries) + [e.zone]
  {
    assert (entries + [e])[..|entries|] == entries;
  }

  lemma InZoneMore(entries: seq<Entry>, e: Entry, z: string)
    ensures InZone(entries + [e], z) == if e.zone == z then InZone(entries, z) + [e] else InZone(entries, z)
  {
    assert (entries + [e])[..|entries|] == entries;
  }

  lemma Updated<V>(a: map<string, V>, b: map<string, V>, k: string, v: V)
    requires b.Keys == a.Keys + {k} && b[k] == v && forall z <- a.Keys :: z != k ==> b[z] == a[z]
    ensures b == a[k := v]
  {
  }

  lemma GroupsMore(entries: seq<Entry>, e: Entry)
    ensures GroupsOf(entries + [e]) == GroupsOf(entries)[e.zone := InZone(entries, e.zone) + [e]]
  {
    var a, b := GroupsOf(entries), GroupsOf(entries + [e]);
    ZonesMore(entries, e);
    InZoneMore(entries, e, e.zone);
    forall z | z in a.Keys && z != e.zone ensures b[z] == a[z] { InZoneMore(entries, e, z); }
    Updated(a, b, e.zone, InZone(entries, e.zone) + [e]);
  }

  method AddToGroup(zones0: seq<string>, groups0: map<string, seq<Entry>>, e: Entry, ghost sofar: seq<Entry>)
    returns (zones: seq<string>, groups: map<string, seq<Entry>>)
    requires zones0 == ZonesOf(sofar) && groups0 == GroupsOf(sofar)
    ensures zones == ZonesOf(sofar + [e]) && groups == GroupsOf(sofar + [e])
  {
    zones, groups := zones0, groups0;
    ZonesMore(sofar, e);
    GroupsMore(sofar, e);
    if e.zone !in zones { NoneInZone(sofar, e.zone); }
    if e.zone !in groups {
      groups := groups[e.zone := []];
      zones := zones + [e.zone];
    }
    groups := groups[e.zone := groups[e.zone] + [e]];
  }

  method GroupByZone(entries: seq<Entry>) returns (zones: seq<string>, groups: map<string, seq<Entry>>)
    ensures zones == ZonesOf(entries) && groups == GroupsOf(entries)
  {
    zones, groups := [], map[];
    for k := 0 to |entries|
      invariant zones == ZonesOf(entries[..k]) && groups == GroupsOf(entries[..k])
    {
      var e := entries[k];
      assert entries[..k + 1] == entries[..k] + [e];
      zones, groups := AddToGroup(zones, groups, e, entries[..k]);
    }
    assert entries[..|entries|] == entries;
  }

  /** Zone by zone: the order in which the entries are deleted. */
  function Regrouped(entries: seq<Entry>, zones: seq<string>): seq<Entry> {
    if zones == [] then []
    else Regrouped(entries, zones[..|zones| - 1]) + InZone(entries, zones[|zones| - 1])
  }

  lemma {:induction false} InZoneCount(entries: seq<Entry>, zone: string, e: Entry)
    ensures multiset(InZone(entries, zone))[e] == if e.zone == zone then multiset(entries)[e] else 0
  {
    if entries != [] {
      assert entries == entries[..|entries| - 1] + [entries[|entries| - 1]];
      InZoneCount(entries[..|entries| - 1], zone, e);
    }
  }

  lemma {:induction false} RegroupedCount(entries: seq<Entry>, zones: seq<string>, e: Entry)
    requires forall i, j :: 0 <= i < j < |zones| ==> zones[i] != zones[j]
    ensures multiset(Regrouped(entries, zones))[e] == if e.zone in zones then multiset(entries)[e] else 0
  {
    if zones != [] {
      assert zones == zones[..|zones| - 1] + [zones[|zones| - 1]];
      RegroupedCount(entries, zones[..|zones| - 1], e);
      InZoneCount(entries, zones[|zones| - 1], e);
    }
  }

  /** Grouping loses no entry and repeats none. */
  lemma RegroupedAll(entries: seq<Entry>)
    ensures multiset(Regrouped(entries, ZonesOf(entries))) == multiset(entries)
    ensures |Regrouped(entries, ZonesOf(entries))| == |entries|
  {
    ZonesAreDistinct(entries);
    forall e ensures multiset(Regrouped(entries, ZonesOf(entries)))[e] == multiset(entries)[e] {
      RegroupedCount(entries, ZonesOf(entries), e);
      assert e in multiset(entries) ==> e in entries;
    }
    assert multiset(Regrouped(entries, ZonesOf(entries))) == multiset(entries);
    assert |multiset(Regrouped(entries, ZonesOf(entries)))| == |multiset(entries)|;
  }

  /** The service: zone name to id, and whether the k-th delete call is answered 200 or 204. */
  datatype Service = Service(zoneIds: map<string, string>, accepts: nat -> bool)

  /** The id a zone's entries are deleted under; none when it cannot be found. */
  function ZoneIdFor(entries: seq<Entry>, zone: string, service: Service): Option<string> {
    var group := InZone(entries, zone);
    if group != [] && group[0].zoneId != "" then Some(group[0].zoneId)
    else if zone in service.zoneIds then Some(service.zoneIds[zone])
    else None
  }

  /** The entries whose zone id is known, in deletion order. */
  function Reachable(entries: seq<Entry>, zones: seq<string>, service: Service): seq<Entry> {
    if zones == [] then []
    else
      var zone := zones[|zones| - 1];
      Reachable(entries, zones[..|zones| - 1], service)
      + if ZoneIdFor(entries, zone, service).Some? then InZone(entries, zone) else []
  }

  datatype Call = Call(zoneId: string, recordId: string)

  function Accepted(calls: seq<Call>, accepts: nat -> bool): nat {
    if calls == [] then 0
    else Accepted(calls[..|calls| - 1], accepts) + if accepts(|calls| - 1) then 1 else 0
  }

  function GroupCalls(group: seq<Entry>, zoneId: string): seq<Call> {
    seq(|group|, i requires 0 <= i < |group| => Call(zoneId, group[i].id))
  }

  function CallsOf(entries: seq<Entry>, zones: seq<string>, service: Service): seq<Call> {
    if zones == [] then []
    else
      var zone := zones[|zones| - 1];
      CallsOf(entries, zones[..|zones| - 1], service)
      + match ZoneIdFor(entries, zone, service)
        case Some(id) => GroupCalls(InZone(entries, zone), id)
        case None => []
  }

  /** One zone's entries. */
  method DeleteGroup(group: seq<Entry>, zoneId: string, accepts: nat -> bool, dryRun: bool, calls0: seq<Call>)
    returns (successful: nat, failed: nat, calls: seq<Call>)
    ensures successful + failed == |group|
    ensures dryRun ==> calls == calls0 && failed == 0
    ensures !dryRun ==> calls == calls0 + GroupCalls(group, zoneId)
    ensures !dryRun ==> successful == Accepted(calls, accepts) - Accepted(calls0, accepts)
  {
    successful, failed, calls := 0, 0, calls0;
    for i := 0 to |group|
      invariant successful + failed == i
      invariant dryRun ==> calls == calls0 && failed == 0
      invariant !dryRun ==> calls == calls0 + GroupCalls(group[..i], zoneId)
      invariant !dryRun ==> successful == Accepted(calls, accepts) - Accepted(calls0, accepts)
    {
      if dryRun {
        successful := successful + 1;
      } else {
        ghost var before := calls;
        if accepts(|calls|) { successful := successful + 1; } else { failed := failed + 1; }
        calls := calls + [Call(zoneId, group[i].id)];
        assert calls[..|calls| - 1] == before;
        assert GroupCalls(group[..i + 1], zoneId) == GroupCalls(group[..i], zoneId) + [Call(zoneId, group[i].id)];
      }
    }
    assert group[..|group|] == group;
  }

  lemma {:induction false} ZoneHasEntries(entries: seq<Entry>, zone: string)
    requires zone in ZonesOf(entries)
    ensures InZone(entries, zone) != []
  {
    if zone in ZonesOf(entries[..|entries| - 1]) { ZoneHasEntries(entries[..|entries| - 1], zone); }
  }

  method DeleteZone(entries: seq<Entry>, zone: string, group: seq<Entry>, service: Service, dryRun: bool,
                    calls0: seq<Call>)
    returns (successful: nat, failed: nat, calls: seq<Call>)
    requires group == InZone(entries, zone) != []
    ensures successful + failed == |group|
    ensures var id := ZoneIdFor(entries, zone, service);
            if id.None? then calls == calls0 && successful == 0
            else if dryRun then calls == calls0 && failed == 0
            else calls == calls0 + GroupCalls(group, id.value)
                 && successful == Accepted(calls, service.accepts) - Accepted(calls0, service.accepts)
  {
    var zoneId := group[0].zoneId;
    if zoneId == "" {
      if zone !in service.zoneIds { return 0, |group|, calls0; }
      zoneId := service.zoneIds[zone];
    }
    successful, failed, calls := DeleteGroup(group, zoneId, service.accepts, dryRun, calls0);
  }

  lemma NextZone(entries: seq<Entry>, zones: seq<string>, k: nat, service: Service)
    requires k < |zones| && zones == ZonesOf(entries)
    ensures var zone := zones[k]; var group := InZone(entries, zone); var id := ZoneIdFor(entries, zone, service);
            && group != [] && zone in GroupsOf(entries) && GroupsOf(entries)[zone] == group
            && |Regrouped(entries, zones[..k + 1])| == |Regrouped(entries, zones[..k])| + |group|
            && CallsOf(entries, zones[..k + 1], service) ==
               CallsOf(entries, zones[..k], service) + (if id.Some? then GroupCalls(group, id.value) else [])
            && |Reachable(entries, zones[..k + 1], service)| ==
               |Reachable(entries, zones[..k], service)| + if id.Some? then |group| else 0
  {
    ZoneHasEntries(entries, zones[k]);
    assert zones[..k + 1][..k] == zones[..k];
  }

  /** Every entry is counted once, whatever fails. A dry run deletes nothing. */
  method DeleteOrphans(entries: seq<Entry>, service: Service, dryRun: bool)
    returns (successful: nat, failed: nat, calls: seq<Call>)
    ensures successful + failed == |entries|
    ensures calls == if dryRun then [] else CallsOf(entries, ZonesOf(entries), service)
    ensures successful ==
            if dryRun then |Reachable(entries, ZonesOf(entries), service)| else Accepted(calls, service.accepts)
  {
    successful, failed, calls := 0, 0, [];
    if entries == [] { return; }
    var zones, groups := GroupByZone(entries);
    for k := 0 to |zones|
      invariant successful + failed == |Regrouped(entries, zones[..k])|
      invariant calls == if dryRun then [] else CallsOf(entries, zones[..k], service)
      invariant successful ==
                if dryRun then |Reachable(entries, zones[..k], service)| else Accepted(calls, service.accepts)
    {
      NextZone(entries, zones, k, service);
      var s, f;
      s, f, calls := DeleteZone(entries, zones[k], groups[zones[k]], service, dryRun, calls);
      successful, failed := successful + s, failed + f;
    }
    assert zones[..|zones|] == zones;
    RegroupedAll(entries);
  }

  // ----- what the deletion promises ----------------------------------------

  function Ids(entries: seq<Entry>): seq<string> { seq(|entries|, i requires 0 <= i < |entries| => entries[i].id) }

  predicate DistinctIds(entries: seq<Entry>) {
    forall i, j :: 0 <= i < j < |entries| ==> entries[i].id != entries[j].id
  }

  /** The i-th call deletes the i-th reachable entry, under its zone's id. */
  ghost predicate CallsFor(calls: seq<Call>, deleted: seq<Entry>, entries: seq<Entry>, service: Service) {
    && |calls| == |deleted|
    && forall i :: 0 <= i < |calls| ==>
         calls[i].recordId == deleted[i].id && ZoneIdFor(entries, deleted[i].zone, service) == Some(calls[i].zoneId)
  }

  lemma {:induction false} InZoneMembers(entries: seq<Entry>, zone: string)
    ensures forall e :: e in InZone(entries, zone) <==> e in entries && e.zone == zone
  {
    if entries != [] {
      assert entries == entries[..|entries| - 1] + [entries[|entries| - 1]];
      InZoneMembers(entries[..|entries| - 1], zone);
    }
  }

  lemma CallsForMore(calls: seq<Call>, deleted: seq<Entry>, entries: seq<Entry>, service: Service,
                     group: seq<Entry>, zone: string, id: string)
    requires CallsFor(calls, deleted, entries, service) && ZoneIdFor(entries, zone, service) == Some(id)
    requires forall i :: 0 <= i < |group| ==> group[i].zone == zone
    ensures CallsFor(calls + GroupCalls(group, id), deleted + group, entries, service)
  {
  }

  lemma {:induction false} CallsAreReachable(entries: seq<Entry>, zones: seq<string>, service: Service)
    ensures CallsFor(CallsOf(entries, zones, service), Reachable(entries, zones, service), entries, service)
  {
    if zones != [] {
      var n := |zones| - 1;
      CallsAreReachable(entries, zones[..n], service);
      var id := ZoneIdFor(entries, zones[n], service);
      if id.Some? {
        var group := InZone(entries, zones[n]);
        InZoneMembers(entries, zones[n]);
        assert forall i :: 0 <= i < |group| ==> group[i] in group;
        CallsForMore(CallsOf(entries, zones[..n], service), Reachable(entries, zones[..n], service), entries, service,
                     group, zones[n], id.value);
      }
    }
  }

  lemma {:induction false} ReachableAmong(entries: seq<Entry>, zones: seq<string>, service: Service)
    ensures multiset(Reachable(entries, zones, service)) <= multiset(Regrouped(entries, zones))
  {
    if zones != [] { ReachableAmong(entries, zones[..|zones| - 1], service); }
  }

  /** Reachable entries are exactly those whose zone id is known. */
  lemma ReachableExactly(entries: seq<Entry>, service: Service, e: Entry)
    ensures e in Reachable(entries, ZonesOf(entries), service) <==>
            e in entries && ZoneIdFor(entries, e.zone, service).Some?
  {
    ZonesAreDistinct(entries);
    ReachableIn(entries, ZonesOf(entries), service, e);
  }

  lemma {:induction false} ReachableIn(entries: seq<Entry>, zones: seq<string>, service: Service, e: Entry)
    ensures e in Reachable(entries, zones, service) <==>
            e in entries && e.zone in zones && ZoneIdFor(entries, e.zone, service).Some?
  {
    if zones != [] {
      ReachableIn(entries, zones[..|zones| - 1], service, e);
      InZoneMembers(entries, zones[|zones| - 1]);
      assert zones == zones[..|zones| - 1] + [zones[|zones| - 1]];
    }
  }

  /** No record is deleted twice. */
  lemma DeletedOnce(entries: seq<Entry>, service: Service, i: nat, j: nat)
    requires DistinctIds(entries)
    requires i < j < |CallsOf(entries, ZonesOf(entries), service)|
    ensures var calls := CallsOf(entries, ZonesOf(entries), service); calls[i].recordId != calls[j].recordId
  {
    var zones := ZonesOf(entries);
    var deleted := Reachable(entries, zones, service);
    CallsAreReachable(entries, zones, service);
    ReachableAmong(entries, zones, service);
    RegroupedAll(entries);
    if deleted[i].id == deleted[j].id {
      ReachableExactly(entries, service, deleted[i]);
      ReachableExactly(entries, service, deleted[j]);
      assert deleted[i] == deleted[j];
      Twice(deleted, i, j);
      Once(entries, deleted[i]);
    }
  }

  lemma Twice(s: seq<Entry>, i: nat, j: nat)
    requires i < j < |s| && s[i] == s[j]
    ensures multiset(s)[s[i]] >= 2
  {
    assert s == s[..j] + [s[j]] + s[j + 1..];
    assert s[..j][i] == s[j];
  }

  lemma {:induction false} Once(s: seq<Entry>, e: Entry)
    requires DistinctIds(s)
    ensures multiset(s)[e] <= 1
  {
    if s != [] {
      var init, last := s[..|s| - 1], s[|s| - 1];
      assert s == init + [last];
      Once(init, e);
      if e == last { assert e !in init; }
    }
  }

  // ----- report and deletion together --------------------------------------

  /** The zone id of the first record with the entry's id, as run() looks it up. */
  function Annotated(e: Entry, records: seq<Record>): Entry {
    if records == [] then e
    else if records[0].id == e.id then e.(zoneId := records[0].zoneId)
    else Annotated(e, records[1..])
  }

  method AnnotateZones(orphans: seq<Entry>, records: seq<Record>) returns (entries: seq<Entry>)
    ensures |entries| == |orphans| && forall i :: 0 <= i < |entries| ==> entries[i] == Annotated(orphans[i], records)
  {
    entries := [];
    for i := 0 to |orphans|
      invariant |entries| == i && forall j :: 0 <= j < i ==> entries[j] == Annotated(orphans[j], records)
    {
      var entry := orphans[i];
      for k := 0 to |records|
        invariant entry == orphans[i] && Annotated(entry, records) == Annotated(entry, records[k..])
      {
        assert records[k..][1..] == records[k + 1..];
        if records[k].id == entry.id {
          entry := entry.(zoneId := records[k].zoneId);
          break;
        }
      }
      entries := entries + [entry];
    }
  }

  predicate DistinctRecords(records: seq<Record>) {
    forall i, j :: 0 <= i < j < |records| ==> records[i].id != records[j].id
  }

  /** The entries to delete: those of the orphan records, with the zone ids looked up. */
  ghost predicate ToDelete(entries: seq<Entry>, orphans: seq<Entry>, records: seq<Record>, instances: seq<Instance>,
                           excluded: set<string>)
  {
    && Entries(orphans, Those(records, instances, excluded, true), instances, excluded)
    && |entries| == |orphans| && forall i :: 0 <= i < |entries| ==> entries[i] == Annotated(orphans[i], records)
  }

  /** Zone names and ids belong together. */
  predicate OneIdPerZone(records: seq<Record>) {
    forall r, q | r in records && q in records && r.zone == q.zone :: r.zoneId == q.zoneId
  }

  /** The call is for a record of the zone it names. */
  predicate InOwnZone(call: Call, records: seq<Record>) {
    exists r <- records :: r.id == call.recordId && r.zoneId == call.zoneId
  }

  lemma {:induction false} ThoseMembers(records: seq<Record>, instances: seq<Instance>, excluded: set<string>,
                                        orphan: bool)
    ensures forall r :: r in Those(records, instances, excluded, orphan) <==>
                        r in records && Reported(r) && (StatusOf(r, instances, excluded).Orphan? <==> orphan)
  {
    if records != [] {
      assert records == records[..|records| - 1] + [records[|records| - 1]];
      ThoseMembers(records[..|records| - 1], instances, excluded, orphan);
    }
  }

  lemma {:induction false} AnnotatedFromRecord(e: Entry, records: seq<Record>, r: Record)
    requires r in records && r.id == e.id && DistinctRecords(records)
    ensures Annotated(e, records) == e.(zoneId := r.zoneId)
  {
    if records[0] != r { AnnotatedFromRecord(e, records[1..], r); }
  }

  /** Every delete call is for an orphan record, by its own id. */
  lemma OnlyOrphansAreDeleted(records: seq<Record>, instances: seq<Instance>, excluded: set<string>,
                              orphans: seq<Entry>, entries: seq<Entry>, service: Service, k: nat) returns (r: Record)
    requires DistinctRecords(records) && ToDelete(entries, orphans, records, instances, excluded)
    requires k < |CallsOf(entries, ZonesOf(entries), service)|
    ensures r in records && Reported(r) && StatusOf(r, instances, excluded).Orphan?
    ensures var call := CallsOf(entries, ZonesOf(entries), service)[k];
            call.recordId == r.id && ZoneIdFor(entries, r.zone, service) == Some(call.zoneId)
  {
    CallsAreReachable(entries, ZonesOf(entries), service);
    var e := Reachable(entries, ZonesOf(entries), service)[k];
    ReachableExactly(entries, service, e);
    r := RecordOf(records, instances, excluded, orphans, entries, e);
  }

  /** The record an entry of the deletion list stands for. */
  lemma RecordOf(records: seq<Record>, instances: seq<Instance>, excluded: set<string>,
                 orphans: seq<Entry>, entries: seq<Entry>, e: Entry) returns (r: Record)
    requires DistinctRecords(records) && e in entries && ToDelete(entries, orphans, records, instances, excluded)
    ensures r in Those(records, instances, excluded, true)
    ensures r in records && Reported(r) && StatusOf(r, instances, excluded).Orphan?
    ensures e.id == r.id && e.zone == r.zone && e.zoneId == r.zoneId
  {
    ThoseMembers(records, instances, excluded, true);
    var i :| 0 <= i < |entries| && entries[i] == e;
    r := Those(records, instances, excluded, true)[i];
    AnnotatedFromRecord(orphans[i], records, r);
  }

  /** And the entry of an orphan record. */
  lemma EntryFor(records: seq<Record>, instances: seq<Instance>, excluded: set<string>,
                 orphans: seq<Entry>, entries: seq<Entry>, r: Record) returns (e: Entry)
    requires DistinctRecords(records) && ToDelete(entries, orphans, records, instances, excluded)
    requires r in Those(records, instances, excluded, true)
    ensures e in entries && e.id == r.id && e.zone == r.zone && e.zoneId == r.zoneId
  {
    ThoseMembers(records, instances, excluded, true);
    var i :| 0 <= i < |orphans| && Those(records, instances, excluded, true)[i] == r;
    AnnotatedFromRecord(orphans[i], records, r);
    e := entries[i];
  }

  /** The id each entry is deleted under, if there is one, is its own. */
  ghost predicate OwnIds(entries: seq<Entry>, service: Service) {
    forall e <- entries :: var id := ZoneIdFor(entries, e.zone, service); id.Some? ==> id.value == e.zoneId
  }

  lemma CallAt(records: seq<Record>, instances: seq<Instance>, excluded: set<string>,
               orphans: seq<Entry>, entries: seq<Entry>, service: Service, k: nat)
    requires DistinctRecords(records) && ToDelete(entries, orphans, records, instances, excluded)
    requires k < |CallsOf(entries, ZonesOf(entries), service)|
    ensures var zones := ZonesOf(entries);
            var call, reached := CallsOf(entries, zones, service)[k], Reachable(entries, zones, service);
            && k < |reached| && reached[k] in entries
            && ZoneIdFor(entries, reached[k].zone, service) == Some(call.zoneId)
            && (InOwnZone(call, records) <==> call.zoneId == reached[k].zoneId)
  {
    CallsAreReachable(entries, ZonesOf(entries), service);
    var e := Reachable(entries, ZonesOf(entries), service)[k];
    ReachableExactly(entries, service, e);
    var r := RecordOf(records, instances, excluded, orphans, entries, e);
    assert forall q <- records :: q.id == r.id ==> q == r;
  }

  lemma CallOf(entries: seq<Entry>, service: Service, e: Entry) returns (k: nat)
    requires e in entries && ZoneIdFor(entries, e.zone, service).Some?
    ensures k < |CallsOf(entries, ZonesOf(entries), service)| == |Reachable(entries, ZonesOf(entries), service)|
    ensures Reachable(entries, ZonesOf(entries), service)[k] == e
  {
    CallsAreReachable(entries, ZonesOf(entries), service);
    ReachableExactly(entries, service, e);
    k :| 0 <= k < |Reachable(entries, ZonesOf(entries), service)|
         && Reachable(entries, ZonesOf(entries), service)[k] == e;
  }

  lemma CallsInOwnZones(records: seq<Record>, instances: seq<Instance>, excluded: set<string>,
                        orphans: seq<Entry>, entries: seq<Entry>, service: Service)
    requires DistinctRecords(records) && ToDelete(entries, orphans, records, instances, excluded)
    ensures (forall call <- CallsOf(entries, ZonesOf(entries), service) :: InOwnZone(call, records)) <==>
            OwnIds(entries, service)
  {
    var calls := CallsOf(entries, ZonesOf(entries), service);
    if forall call <- calls :: InOwnZone(call, records) {
      forall e | e in entries && ZoneIdFor(entries, e.zone, service).Some?
        ensures ZoneIdFor(entries, e.zone, service).value == e.zoneId
      {
        var k := CallOf(entries, service, e);
        assert calls[k] in calls;
        CallAt(records, instances, excluded, orphans, entries, service, k);
      }
    }
    if OwnIds(entries, service) {
      forall call | call in calls ensures InOwnZone(call, records) {
        var k :| 0 <= k < |calls| && calls[k] == call;
        CallAt(records, instances, excluded, orphans, entries, service, k);
      }
    }
  }

  /** Every call is in its record's own zone if and only if no two orphans of one zone name have
      different zone ids; otherwise the first one's id is used for all of that name. */
  lemma OwnZonesExactly(records: seq<Record>, instances: seq<Instance>, excluded: set<string>,
                        orphans: seq<Entry>, entries: seq<Entry>, service: Service)
    requires DistinctRecords(records) && ToDelete(entries, orphans, records, instances, excluded)
    requires forall r <- records :: r.zoneId != ""
    ensures (forall call <- CallsOf(entries, ZonesOf(entries), service) :: InOwnZone(call, records)) <==>
            OneIdPerZone(Those(records, instances, excluded, true))
  {
    CallsInOwnZones(records, instances, excluded, orphans, entries, service);
    if OneIdPerZone(Those(records, instances, excluded, true)) {
      OneIdGivesOwn(records, instances, excluded, orphans, entries, service);
    }
    if OwnIds(entries, service) { OwnGivesOneId(records, instances, excluded, orphans, entries, service); }
  }

  lemma HeadOfZone(records: seq<Record>, instances: seq<Instance>, excluded: set<string>,
                   orphans: seq<Entry>, entries: seq<Entry>, service: Service, e: Entry) returns (q: Record)
    requires DistinctRecords(records) && e in entries && ToDelete(entries, orphans, records, instances, excluded)
    requires forall r <- records :: r.zoneId != ""
    ensures q in Those(records, instances, excluded, true) && q.zone == e.zone
    ensures ZoneIdFor(entries, e.zone, service) == Some(q.zoneId)
  {
    InZoneMembers(entries, e.zone);
    var head := InZone(entries, e.zone)[0];
    assert head in InZone(entries, e.zone);
    q := RecordOf(records, instances, excluded, orphans, entries, head);
  }

  lemma OneIdGivesOwn(records: seq<Record>, instances: seq<Instance>, excluded: set<string>,
                      orphans: seq<Entry>, entries: seq<Entry>, service: Service)
    requires DistinctRecords(records) && ToDelete(entries, orphans, records, instances, excluded)
    requires (forall r <- records :: r.zoneId != "") && OneIdPerZone(Those(records, instances, excluded, true))
    ensures OwnIds(entries, service)
  {
    forall e | e in entries ensures ZoneIdFor(entries, e.zone, service) == Some(e.zoneId) {
      var r := RecordOf(records, instances, excluded, orphans, entries, e);
      var q := HeadOfZone(records, instances, excluded, orphans, entries, service, e);
    }
  }

  lemma OwnGivesOneId(records: seq<Record>, instances: seq<Instance>, excluded: set<string>,
                      orphans: seq<Entry>, entries: seq<Entry>, service: Service)
    requires DistinctRecords(records) && ToDelete(entries, orphans, records, instances, excluded)
    requires (forall r <- records :: r.zoneId != "") && OwnIds(entries, service)
    ensures OneIdPerZone(Those(records, instances, excluded, true))
  {
    var rs := Those(records, instances, excluded, true);
    forall r, q | r in rs && q in rs && r.zone == q.zone ensures r.zoneId == q.zoneId {
      var d := EntryFor(records, instances, excluded, orphans, entries, r);
      var e := EntryFor(records, instances, excluded, orphans, entries, q);
      var head := HeadOfZone(records, instances, excluded, orphans, entries, service, d);
    }
  }

  /** Two zones of one name, with an orphan each: one of the two is looked for in the wrong zone. */
  lemma TwoZonesOneName(r: Record, q: Record, orphans: seq<Entry>, entries: seq<Entry>, service: Service)
    requires Reported(r) && Reported(q) && r.id != q.id && r.zone == q.zone
    requires r.zoneId != "" && q.zoneId != "" && r.zoneId != q.zoneId
    requires ToDelete(entries, orphans, [r, q], [], {})
    ensures exists call <- CallsOf(entries, ZonesOf(entries), service) :: !InOwnZone(call, [r, q])
  {
    ThoseMembers([r, q], [], {}, true);
    OwnZonesExactly([r, q], [], {}, orphans, entries, service);
    assert r in [r, q] && q in [r, q];
  }

  lemma {:induction false} ThoseDistinct(records: seq<Record>, instances: seq<Instance>, excluded: set<string>,
                                         orphan: bool)
    requires DistinctRecords(records)
    ensures DistinctRecords(Those(records, instances, excluded, orphan))
  {
    if records != [] {
      var n := |records| - 1;
      ThoseDistinct(records[..n], instances, excluded, orphan);
      ThoseMembers(records[..n], instances, excluded, orphan);
      assert forall r <- records[..n] :: r.id != records[n].id;
    }
  }

  lemma AnnotatedKeepsId(e: Entry, records: seq<Record>)
    ensures Annotated(e, records).id == e.id
  {
    if records != [] && records[0].id != e.id { AnnotatedKeepsId(e, records[1..]); }
  }

  /** With unique record ids no record of the zone is deleted twice. */
  lemma OrphansDeletedOnce(records: seq<Record>, instances: seq<Instance>, excluded: set<string>,
                           orphans: seq<Entry>, entries: seq<Entry>, service: Service, i: nat, j: nat)
    requires DistinctRecords(records) && ToDelete(entries, orphans, records, instances, excluded)
    requires i < j < |CallsOf(entries, ZonesOf(entries), service)|
    ensures var calls := CallsOf(entries, ZonesOf(entries), service); calls[i].recordId != calls[j].recordId
  {
    ThoseDistinct(records, instances, excluded, true);
    forall k | 0 <= k < |entries| ensures entries[k].id == Those(records, instances, excluded, true)[k].id {
      AnnotatedKeepsId(orphans[k], records);
    }
    DeletedOnce(entries, service, i, j);
  }
}
