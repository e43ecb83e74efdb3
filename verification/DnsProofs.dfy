/** What record recreation guarantees, for every fault schedule. */
module DnsProofs {
  import opened Options
  import opened Retry
  import opened Dns

  /** From w to w' only records of `keys` were ever added or removed, and ids are not reused. */
  ghost predicate Frame(w: Server, w': Server, keys: set<Key>) {
    && w.touched <= w'.touched <= w.touched + keys
    && (forall key :: key !in keys ==> Find(w', key) == Find(w, key))
    && w.nextId <= w'.nextId
    && (forall id <- w'.records :: id < w.nextId ==> id in w.records && w.records[id] == w'.records[id])
    && w.clock <= w'.clock
  }

  lemma FrameTrans(a: Server, b: Server, c: Server, keys: set<Key>)
    requires Frame(a, b, keys) && Frame(b, c, keys)
    ensures Frame(a, c, keys)
  {
  }

  lemma FrameGrows(a: Server, b: Server, keys: set<Key>, more: set<Key>)
    requires Frame(a, b, keys) && keys <= more
    ensures Frame(a, b, more)
  {
  }

  lemma FindUnique(w: Server, id: nat)
    requires id in w.records
    ensures Find(w, w.records[id].key) == Some(Found(id, w.records[id].data))
  {
  }

  lemma AddFrame(w: Server, key: Key, data: string)
    requires Find(w, key).None?
    ensures Frame(w, Add(w, key, data), {key}) && At(Add(w, key, data), key) == Some(data)
  {
    var w' := Add(w, key, data);
    FindUnique(w', w.nextId);
    forall k | k != key
      ensures Find(w', k) == Find(w, k)
    {
      FindSame(w, w', k);
    }
  }

  lemma FindSame(w: Server, w': Server, key: Key)
    requires forall id :: (id in w.records && w.records[id].key == key) <==>
             (id in w'.records && w'.records[id].key == key)
    requires forall id :: id in w.records && id in w'.records ==> w.records[id] == w'.records[id]
    ensures Find(w', key) == Find(w, key)
  {
  }

  lemma RemoveFrame(w: Server, id: nat)
    ensures Frame(w, Remove(w, id), if id in w.records then {w.records[id].key} else {})
    ensures id in w.records ==> Find(Remove(w, id), w.records[id].key).None?
  {
    var w' := Remove(w, id);
    if id in w.records {
      forall k | k != w.records[id].key
        ensures Find(w', k) == Find(w, k)
      {
        FindSame(w, w', k);
      }
    }
  }

  /** Listing changes nothing but the clock, and a normal answer is the truth. */
  lemma ListPageReads(env: Env, key: Key, w: Server)
    ensures var (w', out) := ListPage(env, key, w);
            && w' == w.(clock := w'.clock) && w.clock <= w'.clock
            && Frame(w, w', {})
            && (out.Returned? ==> out.value == Find(w, key))
  {
    var f := x => ApiList(env, key, x);
    var keeps := (x: Server) => x == w.(clock := x.clock) && w.clock <= x.clock;
    var post := (x: Server, r: Option<Found>) => r == Find(w, key);
    forall x: Server | keeps(x)
      ensures keeps(f(x).0) && (f(x).1.Returned? ==> post(f(x).0, f(x).1.value))
    {
    }
    RunKeeps(f, Retried, w, 5, 60, 3, keeps, post);
  }

  ghost function KeyOf(w: Server, id: nat): set<Key> {
    if id in w.records then {w.records[id].key} else {}
  }

  lemma ApiDeleteFrame(env: Env, id: nat, w: Server)
    ensures var (w', out) := ApiDelete(env, id, w);
            && Frame(w, w', KeyOf(w, id)) && w'.records.Keys <= w.records.Keys && w'.creates == w.creates
            && (out.Returned? ==> id !in w'.records)
  {
    RemoveFrame(Tick(w), id);
  }

  /** Deleting by id touches at most the record with that id. */
  lemma DeleteRecordFrame(env: Env, id: nat, w: Server)
    ensures var (w', out) := DeleteRecord(env, id, w);
            && Frame(w, w', KeyOf(w, id)) && w'.records.Keys <= w.records.Keys && w'.creates == w.creates
            && (out.Returned? ==> id !in w'.records)
  {
    var f := x => ApiDelete(env, id, x);
    var keeps := (x: Server) => Frame(w, x, KeyOf(w, id)) && x.records.Keys <= w.records.Keys && x.creates == w.creates;
    var post := (x: Server, r: ()) => id !in x.records;
    forall x: Server | keeps(x)
      ensures keeps(f(x).0) && (f(x).1.Returned? ==> post(f(x).0, f(x).1.value))
    {
      ApiDeleteFrame(env, id, x);
      FrameGrows(x, f(x).0, KeyOf(x, id), KeyOf(w, id));
      FrameTrans(w, x, f(x).0, KeyOf(w, id));
    }
    RunKeeps(f, Retried, w, 5, 60, 3, keeps, post);
  }

  /** The record of `key` is the one it was, gone, or the new one. */
  ghost predicate Stage(w: Server, w': Server, key: Key, data: string) {
    At(w', key) in {At(w, key), None, Some(data)}
  }

  lemma StageTrans(a: Server, b: Server, c: Server, key: Key, data: string)
    requires Stage(a, b, key, data) && Stage(b, c, key, data)
    ensures Stage(a, c, key, data)
  {
  }

  lemma ShrunkStage(w: Server, w': Server, keys: set<Key>, key: Key, data: string)
    requires Frame(w, w', keys) && w'.records.Keys <= w.records.Keys
    ensures Stage(w, w', key, data)
  {
    var now := Find(w', key);
    if now.Some? { FindUnique(w, now.value.id); }
  }

  lemma RecoverFrame(env: Env, key: Key, w: Server)
    ensures Frame(w, Recover(env, key, w), {key})
    ensures Recover(env, key, w).records.Keys <= w.records.Keys
    ensures Recover(env, key, w).creates == w.creates
  {
    var (w1, found) := ListPage(env, key, w);
    ListPageReads(env, key, w);
    FrameGrows(w, w1, {}, {key});
    if found.Returned? && found.value.Some? {
      DeleteRecordFrame(env, found.value.value.id, w1);
      FrameTrans(w, w1, Recover(env, key, w), {key});
    }
  }

  lemma ApiCreateFrame(env: Env, key: Key, data: string, w: Server)
    ensures var (w', out) := ApiCreate(env, key, data, w);
            Frame(w, w', {key}) && Stage(w, w', key, data) && (out.Returned? ==> At(w', key) == Some(data))
  {
    var w1 := Tick(w).(creates := w.creates + 1);
    if Find(w1, key).None? { AddFrame(w1, key, data); }
  }

  lemma CreateAttemptFrame(env: Env, key: Key, data: string, w: Server)
    ensures var (w', out) := CreateAttempt(env, key, data, w);
            Frame(w, w', {key}) && Stage(w, w', key, data) && (out.Returned? ==> At(w', key) == Some(data))
  {
    var (w1, out) := ApiCreate(env, key, data, w);
    ApiCreateFrame(env, key, data, w);
    var w2 := Recover(env, key, w1);
    RecoverFrame(env, key, w1);
    FrameTrans(w, w1, w2, {key});
    ShrunkStage(w1, w2, {key}, key, data);
    StageTrans(w, w1, w2, key, data);
  }

  /** A normal return leaves exactly one record for the key (the type Server allows no
      second one), holding the new data, whatever was there before and whatever
      failed on the way; all other keys are untouched however the call ends. */
  lemma CreateRecordCorrect(env: Env, key: Key, data: string, w: Server)
    ensures var (w', out) := CreateRecord(env, key, data, w);
            Frame(w, w', {key}) && Stage(w, w', key, data) && (out.Returned? ==> At(w', key) == Some(data))
  {
    var f := Creating(env, key, data);
    var keeps := (x: Server) => Frame(w, x, {key}) && Stage(w, x, key, data);
    var post := (x: Server, r: ()) => At(x, key) == Some(data);
    forall x: Server | keeps(x)
      ensures keeps(f(x).0) && (f(x).1.Returned? ==> post(f(x).0, f(x).1.value))
    {
      CreateAttemptFrame(env, key, data, x);
      FrameTrans(w, x, f(x).0, {key});
    }
    RunKeeps(f, Retried, w, 5, 60, 3, keeps, post);
  }

  // ----- the whole A + PTR sequence ----------------------------------------

  lemma FirstLabelHead(host: string, rest: string)
    requires '.' !in host
    ensures FirstLabel(host + "." + rest) == host
  {
    if host == "" {
      assert (host + "." + rest)[0] == '.';
    } else {
      assert (host + "." + rest)[1..] == host[1..] + "." + rest;
      FirstLabelHead(host[1..], rest);
    }
  }

  /** Stripping the zone undoes the join that the PTR target is made with. */
  lemma HostOfFqdn(job: Job)
    ensures HostOf(job.Fqdn(), job.zone) == job.node
  {
    var suffix := "." + job.zone;
    assert job.Fqdn() == job.node + suffix;
    assert job.Fqdn()[|job.Fqdn()| - |suffix|..] == suffix;
  }

  /** A[node], PTR[ip], and A[h] where h is the host the PTR record of the ip names. */
  ghost function Concerned(job: Job, w: Server): set<Key> {
    {job.AKey(), job.PtrKey()}
    + match At(w, job.PtrKey())
      case None => {}
      case Some(target) => if target == "" then {} else {Key(A, HostOf(target, job.zone))}
  }

  lemma ConcernedShrinks(job: Job, w: Server, w': Server)
    requires Stage(w, w', job.PtrKey(), job.Fqdn())
    ensures Concerned(job, w') <= Concerned(job, w)
  {
    HostOfFqdn(job);
  }

  /** What is found belongs to a concerned key; finding changes nothing. */
  lemma FindExistingReads(env: Env, job: Job, w: Server)
    ensures var (w', out) := FindExisting(env, job, w);
            && Frame(w, w', {}) && w'.records == w.records && w'.creates == w.creates
            && (out.Returned? ==>
                 && (out.value.0.Some? ==> KeyOf(w, out.value.0.value.id) <= Concerned(job, w) - {job.PtrKey()})
                 && out.value.1 == Find(w, job.PtrKey()))
  {
    var (w1, ptr) := ListPage(env, job.PtrKey(), w);
    ListPageReads(env, job.PtrKey(), w);
    if ptr.Returned? && ptr.value.Some? && ptr.value.value.data != "" {
      var key := Key(A, HostOf(ptr.value.value.data, job.zone));
      ListPageReads(env, key, w1);
      ListPageReads(env, job.AKey(), ListPage(env, key, w1).0);
    } else {
      ListPageReads(env, job.AKey(), w1);
    }
  }

  lemma DeleteFoundFrame(env: Env, found: Option<Found>, w: Server, keys: set<Key>)
    requires found.Some? ==> KeyOf(w, found.value.id) <= keys
    ensures var (w', out) := DeleteFound(env, found, w);
            && Frame(w, w', keys) && w'.records.Keys <= w.records.Keys && w'.creates == w.creates
            && (out.Returned? && found.Some? ==> found.value.id !in w'.records)
  {
    if found.Some? {
      DeleteRecordFrame(env, found.value.id, w);
      FrameGrows(w, DeleteFound(env, found, w).0, KeyOf(w, found.value.id), keys);
    }
  }

  ghost predicate Recreated(job: Job, w: Server) {
    At(w, job.AKey()) == Some(job.ip) && At(w, job.PtrKey()) == Some(job.Fqdn())
  }

  lemma AddAttemptCorrect(env: Env, job: Job, w: Server)
    ensures var (w', out) := AddAttempt(env, job, w);
            && Frame(w, w', Concerned(job, w))
            && Stage(w, w', job.PtrKey(), job.Fqdn())
            && (out.Returned? ==> Recreated(job, w'))
  {
    var all, ptr := Concerned(job, w), job.PtrKey();
    var (w0, zone) := ApiListZones(env, job.zone, w);
    var (w1, found) := FindExisting(env, job, w0);
    FindExistingReads(env, job, w0);
    if zone.Returned? && found.Returned? {
      var (w2, a) := DeleteFound(env, found.value.0, w1);
      DeleteFoundFrame(env, found.value.0, w1, all - {ptr});
      FrameGrows(w1, w2, all - {ptr}, all);
      FrameTrans(w, w1, w2, all);
      if a.Returned? {
        var (w3, p) := DeleteFound(env, found.value.1, w2);
        DeleteFoundFrame(env, found.value.1, w2, {ptr});
        FrameGrows(w2, w3, {ptr}, all);
        FrameTrans(w, w2, w3, all);
        ShrunkStage(w2, w3, {ptr}, ptr, job.Fqdn());
        if p.Returned? { CreateBoth(env, job, w3, all); AddAttemptTail(env, job, w, w3, all); }
      }
    }
  }

  /** Steps 5 and 6. */
  ghost function CreateTwo(env: Env, job: Job, w: Server): (Server, Outcome<(), Error>) {
    var (w', out) := CreateRecord(env, job.AKey(), job.ip, w);
    if out.Raised? then (w', out) else CreateRecord(env, job.PtrKey(), job.Fqdn(), w')
  }

  lemma CreateBoth(env: Env, job: Job, w: Server, all: set<Key>)
    requires {job.AKey(), job.PtrKey()} <= all
    ensures var (w', out) := CreateTwo(env, job, w);
            && Frame(w, w', all) && Stage(w, w', job.PtrKey(), job.Fqdn())
            && (out.Returned? ==> Recreated(job, w'))
  {
    var (w1, out) := CreateRecord(env, job.AKey(), job.ip, w);
    CreateRecordCorrect(env, job.AKey(), job.ip, w);
    FrameGrows(w, w1, {job.AKey()}, all);
    if out.Returned? {
      var w2 := CreateRecord(env, job.PtrKey(), job.Fqdn(), w1).0;
      CreateRecordCorrect(env, job.PtrKey(), job.Fqdn(), w1);
      FrameGrows(w1, w2, {job.PtrKey()}, all);
      FrameTrans(w, w1, w2, all);
    }
  }

  lemma AddAttemptTail(env: Env, job: Job, w: Server, w3: Server, all: set<Key>)
    requires {job.AKey(), job.PtrKey()} <= all
    requires Frame(w, w3, all) && Stage(w, w3, job.PtrKey(), job.Fqdn())
    ensures var w' := CreateTwo(env, job, w3).0;
            Frame(w, w', all) && Stage(w, w', job.PtrKey(), job.Fqdn())
  {
    var w' := CreateTwo(env, job, w3).0;
    CreateBoth(env, job, w3, all);
    FrameTrans(w, w3, w', all);
    StageTrans(w, w3, w', job.PtrKey(), job.Fqdn());
  }

  /** Safety over every run: under any fault schedule, through all inner and outer
      retries, a normal return means both records are in place, and in every
      reachable state (`touched` only grows) only the concerned keys were changed. */
  lemma AddDnsRecordsCorrect(env: Env, job: Job, w: Server)
    ensures var (w', out) := AddDnsRecords(env, job, w);
            && w.touched <= w'.touched <= w.touched + Concerned(job, w)
            && (forall key :: key !in Concerned(job, w) ==> Find(w', key) == Find(w, key))
            && (out.Returned? ==> At(w', job.AKey()) == Some(job.ip) && At(w', job.PtrKey()) == Some(job.Fqdn()))
  {
    var f := Adding(env, job);
    var keys, ptr := Concerned(job, w), job.PtrKey();
    var keeps := (x: Server) => Frame(w, x, keys) && Stage(w, x, ptr, job.Fqdn());
    var post := (x: Server, r: ()) => Recreated(job, x);
    forall x: Server | keeps(x)
      ensures keeps(f(x).0) && (f(x).1.Returned? ==> post(f(x).0, f(x).1.value))
    {
      AddAttemptCorrect(env, job, x);
      ConcernedShrinks(job, w, x);
      FrameGrows(x, f(x).0, Concerned(job, x), keys);
      FrameTrans(w, x, f(x).0, keys);
      StageTrans(w, x, f(x).0, ptr, job.Fqdn());
    }
    RunKeeps(f, Retried, w, 5, 60, 3, keeps, post);
  }

  // ----- convergence -------------------------------------------------------

  /** The next n API calls are fault-free. */
  ghost predicate Clean(env: Env, w: Server, n: nat) {
    forall t: nat :: w.clock <= t < w.clock + n ==> env.faults(t) == Healthy
  }

  /** A fault-free attempt succeeds, or clears the key for the next one. */
  lemma CleanAttempt(env: Env, key: Key, data: string, w: Server)
    requires Clean(env, w, 3)
    ensures var (w', out) := CreateAttempt(env, key, data, w);
            && w'.clock <= w.clock + 3
            && (Find(w, key).None? ==> out.Returned?)
            && (Find(w, key).Some? ==> out == Raised(Api(409)) && Find(w', key).None?)
  {
    if Find(w, key).Some? {
      var w1 := ApiCreate(env, key, data, w).0;
      assert env.faults(w.clock + 1) == Healthy && env.faults(w.clock + 2) == Healthy;
      assert ListPage(env, key, w1) == (Tick(w1), Returned(Find(w1, key)));
      RemoveFrame(Tick(Tick(w1)), Find(w1, key).value.id);
    }
  }

  /** Two consecutive fault-free attempts within the five end in a normal return,
      unless an earlier attempt already ended with an error that is not retried. */
  lemma CreateRecordConverges(env: Env, key: Key, data: string, w: Server, i: nat)
    requires i <= 3
    requires forall k: nat :: k < i ==> OutcomeOf(Creating(env, key, data), w, k) != Raised(Other)
    requires Clean(env, StateBefore(Creating(env, key, data), w, i), 4)
    ensures CreateRecord(env, key, data, w).1.Returned?
  {
    CleanPair(env, key, data, w, i);
    RunReturns(Creating(env, key, data), Retried, w, 5, 60, 3, i);
  }

  lemma CleanPair(env: Env, key: Key, data: string, w: Server, i: nat)
    requires Clean(env, StateBefore(Creating(env, key, data), w, i), 4)
    ensures var f := Creating(env, key, data);
            || OutcomeOf(f, w, i).Returned?
            || (OutcomeOf(f, w, i) == Raised(Api(409)) && OutcomeOf(f, w, i + 1).Returned?)
  {
    var f := Creating(env, key, data);
    var before, next := StateBefore(f, w, i), StateBefore(f, w, i + 1);
    StateBeforeStep(f, w, i);
    CleanAttempt(env, key, data, before);
    if Find(before, key).Some? {
      assert f(next).1 == CreateAttempt(env, key, data, next).1;
      assert env.faults(next.clock) == Healthy;
    }
  }

  lemma {:induction false} StateBeforeStep<S, R, E>(f: S -> (S, Outcome<R, E>), s: S, k: nat)
    ensures StateBefore(f, s, k + 1) == f(StateBefore(f, s, k)).0
  {
    if k > 0 { StateBeforeStep(f, f(s).0, k - 1); } else { assert StateBefore(f, f(s).0, 0) == f(s).0; }
  }

  lemma CleanLater(env: Env, w: Server, n: nat, w': Server, m: nat)
    requires Clean(env, w, n) && w.clock <= w'.clock && w'.clock + m <= w.clock + n
    ensures Clean(env, w', m)
  {
  }

  lemma CleanList(env: Env, key: Key, w: Server)
    requires Clean(env, w, 1)
    ensures ListPage(env, key, w) == (Tick(w), Returned(Find(w, key)))
  {
    assert env.faults(w.clock) == Healthy;
  }

  lemma CleanDelete(env: Env, found: Option<Found>, w: Server)
    requires Clean(env, w, 1) && (found.Some? ==> found.value.id in w.records)
    ensures var (w', out) := DeleteFound(env, found, w);
            out.Returned? && w.clock <= w'.clock <= w.clock + 1
            && w'.records == if found.Some? then w.records - {found.value.id} else w.records
  {
    if found.Some? { assert env.faults(w.clock) == Healthy; }
  }

  lemma CleanFind(env: Env, job: Job, w: Server)
    requires Clean(env, w, 3)
    ensures var (w', out) := FindExisting(env, job, w);
            && out.Returned? && w.clock <= w'.clock <= w.clock + 3 && w'.records == w.records
            && (out.value.0.Some? ==>
                  out.value.0.value.id in w.records && w.records[out.value.0.value.id].key.kind == A)
            && out.value.1 == Find(w, job.PtrKey())
  {
    CleanList(env, job.PtrKey(), w);
    var w1, ptr := Tick(w), Find(w, job.PtrKey());
    CleanLater(env, w, 3, w1, 2);
    if ptr.Some? && ptr.value.data != "" {
      var key := Key(A, HostOf(ptr.value.data, job.zone));
      CleanList(env, key, w1);
      CleanLater(env, w, 3, Tick(w1), 1);
      CleanList(env, job.AKey(), Tick(w1));
    } else {
      CleanList(env, job.AKey(), w1);
    }
  }

  /** Two clean attempts are enough, and they are four calls at most. */
  lemma CleanCreate(env: Env, key: Key, data: string, w: Server)
    requires Clean(env, w, 4)
    ensures var (w', out) := CreateRecord(env, key, data, w); out.Returned? && w'.clock <= w.clock + 4
  {
    CreateRecordConverges(env, key, data, w, 0);
    CleanAttempt(env, key, data, w);
    var f := Creating(env, key, data);
    var (w1, out) := f(w);
    assert (w1, out) == CreateAttempt(env, key, data, w);
    if Find(w, key).Some? {
      CleanLater(env, w, 4, w1, 1);
      assert env.faults(w1.clock) == Healthy;
      assert f(w1) == CreateAttempt(env, key, data, w1);
      assert Run(f, Retried, w, 5, 60, 3).state == Run(f, Retried, w1, 4, 180, 3).state == f(w1).0;
    } else {
      assert Run(f, Retried, w, 5, 60, 3).state == w1;
    }
  }

  /** A fault-free attempt of the whole sequence, at most 14 calls, succeeds whatever A and PTR
      records it finds. */
  lemma CleanAddAttempt(env: Env, job: Job, w: Server)
    requires Clean(env, w, 14) && job.zone in env.zones
    ensures AddAttempt(env, job, w).1.Returned?
  {
    assert env.faults(w.clock) == Healthy;
    var w0 := ApiListZones(env, job.zone, w).0;
    CleanLater(env, w, 14, w0, 3);
    CleanFind(env, job, w0);
    var (w1, found) := FindExisting(env, job, w0);
    CleanLater(env, w, 14, w1, 1);
    CleanDelete(env, found.value.0, w1);
    var w2 := DeleteFound(env, found.value.0, w1).0;
    CleanLater(env, w, 14, w2, 1);
    CleanDelete(env, found.value.1, w2);
    var w3 := DeleteFound(env, found.value.1, w2).0;
    CleanLater(env, w, 14, w3, 4);
    CleanCreate(env, job.AKey(), job.ip, w3);
    var w4 := CreateRecord(env, job.AKey(), job.ip, w3).0;
    CreateRecordCorrect(env, job.AKey(), job.ip, w3);
    CleanLater(env, w, 14, w4, 4);
    CleanCreate(env, job.PtrKey(), job.Fqdn(), w4);
  }

  /** One fault-free attempt among the five suffices, whatever failed before, unless an earlier
      attempt raised something that is not retried, as it does for an unknown zone. */
  lemma AddDnsRecordsConverges(env: Env, job: Job, w: Server, i: nat)
    requires i <= 4 && job.zone in env.zones
    requires forall k: nat :: k < i ==> OutcomeOf(Adding(env, job), w, k) != Raised(Other)
    requires Clean(env, StateBefore(Adding(env, job), w, i), 14)
    ensures AddDnsRecords(env, job, w).1.Returned?
  {
    var before := StateBefore(Adding(env, job), w, i);
    CleanAddAttempt(env, job, before);
    assert OutcomeOf(Adding(env, job), w, i) == AddAttempt(env, job, before).1;
    RunReturns(Adding(env, job), Retried, w, 5, 60, 3, i);
  }

  // ----- cost --------------------------------------------------------------

  lemma CreateRecordCost(env: Env, key: Key, data: string, w: Server)
    ensures CreateRecord(env, key, data, w).0.creates <= w.creates + 5
  {
    var f := Creating(env, key, data);
    forall x: Server ensures f(x).0.creates <= x.creates + 1 {
      RecoverFrame(env, key, ApiCreate(env, key, data, x).0);
    }
    RunCost(f, Retried, w, 5, 60, 3, (x: Server) => x.creates, 1);
  }

  lemma AddAttemptCost(env: Env, job: Job, w: Server)
    ensures AddAttempt(env, job, w).0.creates <= w.creates + 10
  {
    var w0 := ApiListZones(env, job.zone, w).0;
    var (w1, found) := FindExisting(env, job, w0);
    FindExistingReads(env, job, w0);
    if found.Returned? {
      var w2 := DeleteFound(env, found.value.0, w1).0;
      DeleteFoundFrame(env, found.value.0, w1, Concerned(job, w0));
      var w3 := DeleteFound(env, found.value.1, w2).0;
      DeleteFoundFrame(env, found.value.1, w2, {job.PtrKey()});
      CreateRecordCost(env, job.AKey(), job.ip, w3);
      CreateRecordCost(env, job.PtrKey(), job.Fqdn(), CreateRecord(env, job.AKey(), job.ip, w3).0);
    }
  }

  /** The nested decorators issue at most 50 create calls. */
  lemma AddDnsRecordsCost(env: Env, job: Job, w: Server)
    ensures AddDnsRecords(env, job, w).0.creates <= w.creates + 50
  {
    var f := Adding(env, job);
    forall x: Server ensures f(x).0.creates <= x.creates + 10 { AddAttemptCost(env, job, x); }
    RunCost(f, Retried, w, 5, 60, 3, (x: Server) => x.creates, 10);
  }
}
