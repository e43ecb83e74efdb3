/** What record recreation does with the host the address had before. */
module DnsOldHost {
  import opened Basics
  import opened Options
  import opened Retry
  import opened Dns
  import opened DnsProofs

  /** h is what a PTR target stands for: what is before ".zone", or else before the first dot. */
  ghost predicate Names(target: string, zone: string, h: string) {
    if EndsWith(target, "." + zone) then target == h + "." + zone
    else '.' !in h && (target == h || exists rest: string :: target == h + "." + rest)
  }

  ghost predicate EndsWith(s: string, suffix: string) { exists front: string :: s == front + suffix }

  lemma {:induction false} BeforeSplits(s: string)
    ensures var h := Before(s, '.'); '.' !in h && (s == h || exists rest: string :: s == h + "." + rest)
  {
    if s != "" && s[0] != '.' {
      BeforeSplits(s[1..]);
      var h := Before(s[1..], '.');
      assert s == [s[0]] + s[1..];
      if s[1..] != h {
        var rest: string :| s[1..] == h + "." + rest;
        assert s == ([s[0]] + h) + "." + rest;
      }
    } else if s != "" {
      assert s == "" + "." + s[1..];
    }
  }

  lemma {:induction false} NoDotBefore(s: string)
    requires '.' !in s
    ensures Before(s, '.') == s
  {
    if s != "" {
      assert s[0] in s && forall c <- s[1..] :: c in s;
      NoDotBefore(s[1..]);
    }
  }

  lemma NamesExactly(target: string, zone: string, h: string)
    ensures Names(target, zone, h) <==> h == HostOf(target, zone)
  {
    var suffix := "." + zone;
    if EndsWith(target, suffix) {
      var front: string :| target == front + suffix;
      assert target[|target| - |suffix|..] == suffix && target[..|target| - |suffix|] == front;
      if target == h + "." + zone { assert target == h + suffix && target[..|target| - |suffix|] == h; }
      if h == front { assert target == h + "." + zone; }
    } else {
      if |suffix| <= |target| && target[|target| - |suffix|..] == suffix {
        assert target == target[..|target| - |suffix|] + suffix;
      }
      BeforeSplits(target);
      if Names(target, zone, h) {
        if target == h {
          NoDotBefore(h);
        } else {
          var rest: string :| target == h + "." + rest;
          FirstLabelHead(h, rest);
        }
      }
    }
  }

  /** Until the PTR record is gone the old host's A record may be there, and no longer. */
  ghost predicate Underway(job: Job, t: string, h: string, w: Server) {
    || At(w, job.PtrKey()) == Some(t)
    || (Find(w, Key(A, h)).None? && At(w, job.PtrKey()) in {None, Some(job.Fqdn())})
  }

  ghost predicate OldHost(job: Job, t: string, h: string) {
    t != "" && h == HostOf(t, job.zone) && h != job.node
  }

  /** The A record of the host that the PTR record names is what is found, if it exists. */
  lemma FindsOldHost(env: Env, job: Job, t: string, h: string, w: Server)
    requires OldHost(job, t, h) && At(w, job.PtrKey()) == Some(t) && Find(w, Key(A, h)).Some?
    ensures var (w', out) := FindExisting(env, job, w);
            out.Returned? ==> out.value.0 == Find(w, Key(A, h))
  {
    var (w1, ptr) := ListPage(env, job.PtrKey(), w);
    ListPageReads(env, job.PtrKey(), w);
    if ptr.Returned? { ListPageReads(env, Key(A, h), w1); }
  }

  lemma GoneWithId(w: Server, w': Server, keys: set<Key>, key: Key)
    requires Frame(w, w', keys) && w'.records.Keys <= w.records.Keys
    requires Find(w, key).Some? ==> Find(w, key).value.id !in w'.records
    ensures Find(w', key).None?
  {
    var now := Find(w', key);
    if now.Some? { FindUnique(w, now.value.id); }
  }

  /** Steps 4 to 6, from where the records were found. */
  ghost function Replace(env: Env, job: Job, a: Option<Found>, p: Option<Found>, w: Server):
    (Server, Outcome<(), Error>)
  {
    var (w2, out) := DeleteFound(env, a, w);
    if out.Raised? then (w2, out) else ReplacePtr(env, job, p, w2)
  }

  ghost function ReplacePtr(env: Env, job: Job, p: Option<Found>, w: Server): (Server, Outcome<(), Error>) {
    var (w3, out) := DeleteFound(env, p, w);
    if out.Raised? then (w3, out) else CreateTwo(env, job, w3)
  }

  /** An attempt is to find the records and to replace them. */
  lemma AttemptReplaces(env: Env, job: Job, w: Server)
    ensures var (w0, zone) := ApiListZones(env, job.zone, w);
            var (w1, found) := FindExisting(env, job, w0);
            AddAttempt(env, job, w) ==
            if zone.Raised? then (w0, zone) else if found.Raised? then (w1, Raised(found.error))
            else Replace(env, job, found.value.0, found.value.1, w1)
  {
  }

  /** With the old host's A record gone, the rest of an attempt does not bring it back. */
  lemma StaysGone(env: Env, job: Job, h: string, p: Option<Found>, w: Server)
    requires h != job.node && Find(w, Key(A, h)).None?
    requires p.Some? ==> KeyOf(w, p.value.id) <= {job.PtrKey()}
    ensures Find(ReplacePtr(env, job, p, w).0, Key(A, h)).None?
  {
    var w3 := DeleteFound(env, p, w).0;
    DeleteFoundFrame(env, p, w, {job.PtrKey()});
    CreateBoth(env, job, w3, {job.AKey(), job.PtrKey()});
    Elsewhere(w, w3, {job.PtrKey()}, Key(A, h));
    Elsewhere(w3, CreateTwo(env, job, w3).0, {job.AKey(), job.PtrKey()}, Key(A, h));
  }

  lemma Elsewhere(w: Server, w': Server, keys: set<Key>, key: Key)
    requires Frame(w, w', keys) && key !in keys
    ensures Find(w', key) == Find(w, key)
  {
  }

  lemma AfterFinding(env: Env, job: Job, t: string, h: string, w: Server, a: Option<Found>, p: Option<Found>)
    requires OldHost(job, t, h) && At(w, job.PtrKey()) == Some(t)
    requires a.Some? ==> KeyOf(w, a.value.id) !! {job.PtrKey()}
    requires p.Some? ==> KeyOf(w, p.value.id) <= {job.PtrKey()}
    requires Find(w, Key(A, h)).Some? ==> a == Find(w, Key(A, h))
    ensures var (w', out) := Replace(env, job, a, p, w);
            && (Find(w', Key(A, h)).None? || At(w', job.PtrKey()) == Some(t))
            && (out.Returned? ==> Find(w', Key(A, h)).None?)
  {
    var (w2, out) := DeleteFound(env, a, w);
    var keys := if a.Some? then KeyOf(w, a.value.id) else {};
    DeleteFoundFrame(env, a, w, keys);
    if out.Returned? {
      GoneWithId(w, w2, keys, Key(A, h));
      if p.Some? { assert KeyOf(w2, p.value.id) <= {job.PtrKey()}; }
      StaysGone(env, job, h, p, w2);
    }
  }

  lemma AttemptFromTarget(env: Env, job: Job, t: string, h: string, w: Server)
    requires OldHost(job, t, h) && At(w, job.PtrKey()) == Some(t)
    ensures var (w', out) := AddAttempt(env, job, w);
            && (Find(w', Key(A, h)).None? || At(w', job.PtrKey()) == Some(t))
            && (out.Returned? ==> Find(w', Key(A, h)).None?)
  {
    var w0 := ApiListZones(env, job.zone, w).0;
    var (w1, found) := FindExisting(env, job, w0);
    AttemptReplaces(env, job, w);
    FindExistingReads(env, job, w0);
    if found.Returned? {
      if Find(w0, Key(A, h)).Some? { FindsOldHost(env, job, t, h, w0); }
      AfterFinding(env, job, t, h, w1, found.value.0, found.value.1);
    }
  }

  lemma AttemptStep(env: Env, job: Job, t: string, h: string, w: Server)
    requires OldHost(job, t, h) && Underway(job, t, h, w)
    ensures var (w', out) := AddAttempt(env, job, w);
            Underway(job, t, h, w') && (out.Returned? ==> Find(w', Key(A, h)).None?)
  {
    AddAttemptCorrect(env, job, w);
    HostOfFqdn(job);
    if At(w, job.PtrKey()) == Some(t) { AttemptFromTarget(env, job, t, h, w); }
  }

  /** A normal return leaves no A record for the host the address had before, under any fault
      schedule and through all retries. */
  lemma OldHostIsGone(env: Env, job: Job, w: Server, t: string, h: string)
    requires At(w, job.PtrKey()) == Some(t) && t != "" && Names(t, job.zone, h) && h != job.node
    ensures var (w', out) := AddDnsRecords(env, job, w);
            && (out.Returned? ==> At(w', Key(A, h)).None?)
            && (At(w', job.PtrKey()) == Some(t) || At(w', Key(A, h)).None?)
  {
    NamesExactly(t, job.zone, h);
    var f := Adding(env, job);
    var keeps := (x: Server) => Underway(job, t, h, x);
    var post := (x: Server, r: ()) => At(x, Key(A, h)).None?;
    forall x: Server | keeps(x)
      ensures keeps(f(x).0) && (f(x).1.Returned? ==> post(f(x).0, f(x).1.value))
    {
      AttemptStep(env, job, t, h, x);
    }
    RunKeeps(f, Retried, w, 5, 60, 3, keeps, post);
  }

  /** The address had the name of another host before. */
  ghost predicate HadHost(job: Job, w: Server, h: string) {
    match At(w, job.PtrKey())
    case None => false
    case Some(t) => t != "" && Names(t, job.zone, h) && h != job.node
  }
}
