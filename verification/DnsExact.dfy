/** What the single steps of record recreation do to the service, call by call. */
module DnsExact {
  import opened Options
  import opened Retry
  import opened Dns
  import opened DnsProofs
  import opened DnsOldHost

  // ----- a service that cannot be reached ----------------------------------

  ghost predicate Dead(env: Env) { forall t :: env.faults(t) == Fails(Connection, false) }

  lemma {:induction false} DeadRuns<R>(f: Server -> (Server, Outcome<R, Error>), w: Server, n: nat)
    requires forall x: Server :: f(x).0.clock == x.clock + 1
    ensures StateBefore(f, w, n).clock == w.clock + n
    decreases n
  {
    if n > 0 { DeadRuns(f, f(w).0, n - 1); }
  }

  lemma DeadDecorated<R>(f: Server -> (Server, Outcome<R, Error>), w: Server)
    requires forall x: Server :: f(x).0.clock == x.clock + 1
    requires forall x: Server :: f(x).1 == Raised(Connection)
    ensures Decorated(f, w).0.clock == w.clock + 5
    ensures Run(f, Retried, w, 5, 60, 3).slept == 60 + 180 + 540 + 1620
  {
    RunCharacterised(f, Retried, w, 5, 60, 3);
    assert Caught(Retried, Run(f, Retried, w, 5, 60, 3).outcome);
    ExhaustedDnsLoop(f, Retried, w);
    DeadRuns(f, w, 5);
  }

  /** Then each of the four retried methods makes five calls, and none of them is repeated by
      the recovery. */
  lemma DeadService(env: Env, job: Job, key: Key, data: string, id: nat, w: Server)
    requires Dead(env)
    ensures ListPage(env, key, w).0.clock == w.clock + 5
    ensures DeleteRecord(env, id, w).0.clock == w.clock + 5
    ensures CreateRecord(env, key, data, w).0.clock == w.clock + 5
    ensures AddDnsRecords(env, job, w).0.clock == w.clock + 5
  {
    DeadDecorated(x => ApiList(env, key, x), w);
    DeadDecorated(x => ApiDelete(env, id, x), w);
    DeadDecorated(Creating(env, key, data), w);
    DeadDecorated(Adding(env, job), w);
  }

  // ----- single steps ------------------------------------------------------

  lemma CleanRecover(env: Env, key: Key, w: Server)
    requires Clean(env, w, 2)
    ensures Find(Recover(env, key, w), key).None? && w.clock < Recover(env, key, w).clock
  {
    CleanList(env, key, w);
    var w1 := Tick(w);
    CleanLater(env, w, 2, w1, 1);
    CleanDelete(env, Find(w1, key), w1);
    var w2 := DeleteFound(env, Find(w1, key), w1).0;
    DeleteFoundFrame(env, Find(w1, key), w1, {key});
    GoneWithId(w1, w2, {key}, key);
  }

  /** A create that fails with 409 or 5xx, applied or not, is followed by the recovery, which
      frees the key if its own calls fare well; after any other error nothing else is called. */
  lemma RecoveredExactly(env: Env, key: Key, data: string, w: Server, e: Error, applied: bool)
    requires env.faults(w.clock) == Fails(e, applied) && env.faults(w.clock + 1) == env.faults(w.clock + 2) == Healthy
    ensures var (w', out) := CreateAttempt(env, key, data, w);
            && out == Raised(e)
            && if e.Api? && (e.code == 409 || 500 <= e.code < 600) then Find(w', key).None? && w.clock + 1 < w'.clock
               else w'.clock == w.clock + 1
                    && At(w', key) == if applied && At(w, key).None? then Some(data) else At(w, key)
  {
    var w0 := Tick(w).(creates := w.creates + 1);
    if applied && Find(w0, key).None? { AddFrame(w0, key, data); }
    var w1 := ApiCreate(env, key, data, w).0;
    assert Clean(env, w1, 2);
    CleanRecover(env, key, w1);
  }

  /** An unknown zone ends the call, at once when the service answers, and nothing is changed. */
  lemma UnknownZone(env: Env, job: Job, w: Server)
    requires job.zone !in env.zones
    ensures var (w', out) := AddDnsRecords(env, job, w);
            && out.Raised? && w'.records == w.records && w'.creates == w.creates
            && (env.faults(w.clock) == Healthy ==> out == Raised(Other) && w'.clock == w.clock + 1)
  {
    var f := Adding(env, job);
    var keeps := (x: Server) => x.records == w.records && x.creates == w.creates;
    forall x: Server ensures f(x) == ApiListZones(env, job.zone, x) && f(x).1.Raised? {}
    RunKeeps(f, Retried, w, 5, 60, 3, keeps, (x: Server, r: ()) => false);
    EndsAtOnce(f, w);
  }

  lemma EndsAtOnce(f: Server -> (Server, Outcome<(), Error>), w: Server)
    ensures f(w).1 == Raised(Other) ==> Decorated(f, w) == f(w)
  {
  }

  /** The A record is made first: an attempt that found no PTR record makes one only then. */
  lemma AddressBeforePointer(env: Env, job: Job, w: Server)
    requires At(w, job.PtrKey()).None?
    ensures var w' := AddAttempt(env, job, w).0;
            At(w', job.PtrKey()).Some? ==> At(w', job.AKey()) == Some(job.ip)
  {
    var w0 := ApiListZones(env, job.zone, w).0;
    var (w1, found) := FindExisting(env, job, w0);
    AttemptReplaces(env, job, w);
    FindExistingReads(env, job, w0);
    if found.Returned? {
      var w2 := DeleteFound(env, found.value.0, w1).0;
      DeleteFoundFrame(env, found.value.0, w1, {job.AKey()});
      assert DeleteFound(env, None, w2) == (w2, Returned(()));
      AddressFirst(env, job, w2);
    }
  }

  lemma AddressFirst(env: Env, job: Job, w: Server)
    requires At(w, job.PtrKey()).None?
    ensures var w' := CreateTwo(env, job, w).0;
            At(w', job.PtrKey()).Some? ==> At(w', job.AKey()) == Some(job.ip)
  {
    CreateRecordCorrect(env, job.AKey(), job.ip, w);
    CreateRecordCorrect(env, job.PtrKey(), job.Fqdn(), CreateRecord(env, job.AKey(), job.ip, w).0);
  }

  // ----- a fault-free attempt ----------------------------------------------

  /** The A record of another host that the PTR record names. */
  ghost predicate NamesAnother(job: Job, w: Server) {
    exists t, h :: At(w, job.PtrKey()) == Some(t) && t != "" && Names(t, job.zone, h) && h != job.node
                   && At(w, Key(A, h)).Some?
  }

  lemma AttemptCreates(env: Env, key: Key, data: string, w: Server)
    ensures CreateAttempt(env, key, data, w).0.creates == w.creates + 1
  {
    RecoverFrame(env, key, ApiCreate(env, key, data, w).0);
  }

  /** One create call for a free key, and two for one that is taken. */
  lemma CleanCreates(env: Env, key: Key, data: string, w: Server)
    requires Clean(env, w, 4)
    ensures CreateRecord(env, key, data, w).0.creates == w.creates + if Find(w, key).Some? then 2 else 1
  {
    var f := Creating(env, key, data);
    CleanAttempt(env, key, data, w);
    AttemptCreates(env, key, data, w);
    var w1 := f(w).0;
    assert f(w) == CreateAttempt(env, key, data, w);
    if Find(w, key).Some? {
      assert env.faults(w1.clock) == Healthy;
      AttemptCreates(env, key, data, w1);
      assert f(w1) == CreateAttempt(env, key, data, w1);
      assert Run(f, Retried, w, 5, 60, 3).state == Run(f, Retried, w1, 4, 180, 3).state == f(w1).0;
    } else {
      assert Run(f, Retried, w, 5, 60, 3).state == w1;
    }
  }

  /** The A record that a fault-free attempt finds. */
  lemma CleanFindsA(env: Env, job: Job, w: Server)
    requires Clean(env, w, 3)
    ensures var (w', out) := FindExisting(env, job, w);
            && out.Returned? && w'.creates == w.creates
            && (NamesAnother(job, w) ==> out.value.0.Some? && w.records[out.value.0.value.id].key != job.AKey())
            && (!NamesAnother(job, w) ==> out.value.0 == Find(w, job.AKey()))
  {
    CleanFind(env, job, w);
    FindExistingReads(env, job, w);
    CleanList(env, job.PtrKey(), w);
    var ptr := Find(w, job.PtrKey());
    if ptr.Some? && ptr.value.data != "" {
      var h := HostOf(ptr.value.data, job.zone);
      CleanList(env, Key(A, h), Tick(w));
      assert env.faults(w.clock + 2) == Healthy;
      CleanList(env, job.AKey(), Tick(Tick(w)));
      NamesExactly(ptr.value.data, job.zone, h);
      forall g | Names(ptr.value.data, job.zone, g) ensures g == h { NamesExactly(ptr.value.data, job.zone, g); }
    } else {
      CleanList(env, job.AKey(), Tick(w));
    }
  }

  /** A fault-free attempt, exactly: two create calls, and a third if the PTR record names another
      host with an A record, which is the one deleted, while the node has one, too. */
  lemma CleanAddExactly(env: Env, job: Job, w: Server)
    requires Clean(env, w, 14) && job.zone in env.zones
    ensures var (w', out) := AddAttempt(env, job, w);
            && out.Returned?
            && w'.creates == w.creates + if NamesAnother(job, w) && At(w, job.AKey()).Some? then 3 else 2
  {
    CleanAddAttempt(env, job, w);
    AttemptReplaces(env, job, w);
    assert env.faults(w.clock) == Healthy;
    var w0 := Tick(w);
    CleanLater(env, w, 14, w0, 3);
    CleanFindsA(env, job, w0);
    CleanFind(env, job, w0);
    FindExistingReads(env, job, w0);
    var (w1, found) := FindExisting(env, job, w0);
    CleanLater(env, w, 14, w1, 10);
    CleanReplaces(env, job, found.value.0, found.value.1, w1);
  }

  /** Steps 5 and 6 take a create call for each key, and one more for each that is taken. */
  lemma CleanMakes(env: Env, job: Job, w: Server)
    requires Clean(env, w, 8) && Find(w, job.PtrKey()).None?
    ensures CreateTwo(env, job, w).0.creates == w.creates + if Find(w, job.AKey()).Some? then 3 else 2
  {
    CleanLater(env, w, 8, w, 4);
    CleanCreates(env, job.AKey(), job.ip, w);
    CleanCreate(env, job.AKey(), job.ip, w);
    CreateRecordCorrect(env, job.AKey(), job.ip, w);
    var w1 := CreateRecord(env, job.AKey(), job.ip, w).0;
    CleanLater(env, w, 8, w1, 4);
    CleanCreates(env, job.PtrKey(), job.Fqdn(), w1);
  }

  lemma CleanDrops(env: Env, found: Option<Found>, key: Key, w: Server)
    requires Clean(env, w, 1) && (found.Some? ==> found.value.id in w.records)
    ensures var (w', out) := DeleteFound(env, found, w);
            && out.Returned? && w.clock <= w'.clock <= w.clock + 1 && w'.creates == w.creates
            && (Find(w', key).Some? <==>
                Find(w, key).Some? && !(found.Some? && w.records[found.value.id].key == key))
  {
    var keys := if found.Some? then KeyOf(w, found.value.id) else {};
    CleanDelete(env, found, w);
    DeleteFoundFrame(env, found, w, keys);
    if found.Some? {
      var id := found.value.id;
      FindUnique(w, id);
      GoneWithId(w, DeleteFound(env, found, w).0, keys, w.records[id].key);
    }
  }

  lemma CleanReplaces(env: Env, job: Job, a: Option<Found>, p: Option<Found>, w: Server)
    requires Clean(env, w, 10) && p == Find(w, job.PtrKey())
    requires a.Some? ==> a.value.id in w.records && w.records[a.value.id].key.kind == A
    ensures var taken := Find(w, job.AKey()).Some? && (a.Some? ==> w.records[a.value.id].key != job.AKey());
            Replace(env, job, a, p, w).0.creates == w.creates + if taken then 3 else 2
  {
    CleanLater(env, w, 10, w, 1);
    CleanDrops(env, a, job.AKey(), w);
    var w2 := DeleteFound(env, a, w).0;
    DeleteFoundFrame(env, a, w, if a.Some? then KeyOf(w, a.value.id) else {});
    assert p == Find(w2, job.PtrKey());
    CleanLater(env, w, 10, w2, 1);
    CleanDrops(env, p, job.AKey(), w2);
    CleanDrops(env, p, job.PtrKey(), w2);
    var w3 := DeleteFound(env, p, w2).0;
    CleanLater(env, w, 10, w3, 8);
    CleanMakes(env, job, w3);
  }
}
