/** The namespace that OCP Virt workers share, as a protocol over its API calls
    (compute/openshift.py). A worker is one node object with its VM name; the calls of
    different workers interleave in any order and fail in any way. */
module OcpCluster {
  import opened K8sNames

  datatype Worker = Worker(vm: string, id: nat)

  datatype Cluster = Cluster(
    vms: map<string, seq<string>>,  // VirtualMachines and the DataVolumes each one names
    deleting: set<string>,          // VirtualMachines whose deletion was accepted
    secrets: set<string>,           // cloud-init Secrets, by Secret name
    prepared: set<Worker>,          // who created or replaced its Secret, and has not dropped it since
    absent: set<Worker>,            // whose last read answered "no such VM", and who has not created since
    misread: set<Worker>,           // whose failing read called its VM absent although it existed
    dropped: set<Worker>,           // who issued the deletion of its Secret, and has not prepared it since
    volumeDrops: set<string>        // DataVolumes whose deletion was issued
  )

  /** One API call of a worker, with what the server made of it. */
  datatype Action =
    | PutSecret(ok: bool, applied: bool)
    | CreateVm(volumes: seq<string>, applied: bool)
    | ReadVm(fails: bool)
    | DeleteVm(accepted: bool)
    | Vanish
    | DropSecret(applied: bool)
    | DropVolume(volume: string)

  /** The discipline: a VM is only created under a prepared Secret, and a Secret is only
      dropped after a read that found no VM. */
  predicate Allowed(me: Worker, s: Cluster, a: Action) {
    match a
    case CreateVm(_, _) => me in s.prepared
    case DropSecret(_) => me in s.absent
    case Vanish => me.vm in s.deleting
    case _ => true
  }

  function Apply(me: Worker, s: Cluster, a: Action): Cluster {
    match a
    case PutSecret(ok, applied) =>
      var s' := if ok || applied then s.(secrets := s.secrets + {SecretName(me.vm)}) else s;
      if ok then s'.(prepared := s.prepared + {me}, dropped := s.dropped - {me}) else s'
    case CreateVm(volumes, applied) =>
      var s' := s.(absent := s.absent - {me});
      if applied && me.vm !in s.vms then s'.(vms := s.vms[me.vm := volumes], deleting := s.deleting - {me.vm}) else s'
    case ReadVm(fails) =>
      if fails then s.(absent := s.absent + {me}, misread := if me.vm in s.vms then s.misread + {me} else s.misread)
      else s.(absent := if me.vm in s.vms then s.absent - {me} else s.absent + {me})
    case DeleteVm(accepted) => if accepted && me.vm in s.vms then s.(deleting := s.deleting + {me.vm}) else s
    case Vanish => s.(vms := s.vms - {me.vm}, deleting := s.deleting - {me.vm})
    case DropSecret(applied) =>
      var s' := s.(prepared := s.prepared - {me}, dropped := s.dropped + {me});
      if applied then s'.(secrets := s.secrets - {SecretName(me.vm)}) else s'
    case DropVolume(v) => s.(volumeDrops := s.volumeDrops + {v})
  }

  datatype Event = Event(worker: Worker, action: Action)

  function After(s: Cluster, run: seq<Event>): Cluster
    decreases run
  {
    if run == [] then s else After(Apply(run[0].worker, s, run[0].action), run[1..])
  }

  lemma {:induction false} AfterBoth(s: Cluster, a: seq<Event>, b: seq<Event>)
    ensures After(s, a + b) == After(After(s, a), b)
    decreases a
  {
    if a == [] {
      assert a + b == b;
    } else {
      AfterBoth(Apply(a[0].worker, s, a[0].action), a[1..], b);
      assert (a + b)[1..] == a[1..] + b;
    }
  }

  /** No issued deletion is forgotten. */
  lemma {:induction false} DropsStay(s: Cluster, run: seq<Event>)
    ensures s.volumeDrops <= After(s, run).volumeDrops
    decreases run
  {
    if run != [] { DropsStay(Apply(run[0].worker, s, run[0].action), run[1..]); }
  }

  // ----- when a VM can be without its Secret -------------------------------

  predicate Lacks(s: Cluster) { exists vm <- s.vms :: SecretName(vm) !in s.secrets }

  /** In no state of the run is there a VM without its Secret. */
  predicate NeverLacks(s: Cluster, run: seq<Event>)
    decreases run
  {
    !Lacks(s) && (run == [] || NeverLacks(Apply(run[0].worker, s, run[0].action), run[1..]))
  }

  /** The call does not take the Secret of an existing VM, nor make a VM where there is none. */
  predicate Harmless(s: Cluster, e: Event) {
    match e.action
    case DropSecret(applied) => applied ==> forall vm <- s.vms :: SecretName(vm) != SecretName(e.worker.vm)
    case CreateVm(_, applied) => applied && e.worker.vm !in s.vms ==> SecretName(e.worker.vm) in s.secrets
    case _ => true
  }

  predicate AllHarmless(s: Cluster, run: seq<Event>)
    decreases run
  {
    run == [] || (Harmless(s, run[0]) && AllHarmless(Apply(run[0].worker, s, run[0].action), run[1..]))
  }

  lemma HarmlessExactly(s: Cluster, e: Event)
    requires !Lacks(s)
    ensures Lacks(Apply(e.worker, s, e.action)) <==> !Harmless(s, e)
  {
    var s' := Apply(e.worker, s, e.action);
    match e.action {
      case DropSecret(applied) =>
        if !Harmless(s, e) {
          var vm :| vm in s.vms && SecretName(vm) == SecretName(e.worker.vm);
          assert vm in s'.vms && SecretName(vm) !in s'.secrets;
        }
      case CreateVm(_, _) =>
        if !Harmless(s, e) { assert e.worker.vm in s'.vms && SecretName(e.worker.vm) !in s'.secrets; }
      case _ =>
    }
  }

  /** For every run of any workers, disciplined or not: an existing VM never lacks its Secret if
      and only if no Secret is dropped while a VM uses it and no VM is made without one. */
  lemma {:induction false} NeverLacksExactly(s: Cluster, run: seq<Event>)
    requires !Lacks(s)
    ensures NeverLacks(s, run) <==> AllHarmless(s, run)
    decreases run
  {
    if run != [] {
      HarmlessExactly(s, run[0]);
      if Harmless(s, run[0]) { NeverLacksExactly(Apply(run[0].worker, s, run[0].action), run[1..]); }
    }
  }

  // ----- separate workers --------------------------------------------------

  /** Each VM name has one worker, and no two names share a Secret; by K8sNames.SecretsExactly:
      none of them clash. */
  ghost predicate Separate(workers: set<Worker>) {
    && (forall w <- workers :: IsLabel(w.vm))
    && (forall v, w | v in workers && w in workers && v != w :: v.vm != w.vm && !Clash(v.vm, w.vm))
  }

  lemma SeparateSecrets(workers: set<Worker>, v: Worker, w: Worker)
    requires Separate(workers) && v in workers && w in workers
    ensures SecretName(v.vm) == SecretName(w.vm) <==> v == w
  {
    SecretsExactly(v.vm, w.vm);
  }

  ghost predicate Owned(workers: set<Worker>, vm: string) { exists w <- workers :: w.vm == vm }

  ghost predicate Inv(workers: set<Worker>, s: Cluster) {
    && (forall vm <- s.vms :: Owned(workers, vm))
    && s.deleting <= s.vms.Keys
    && s.prepared <= workers && s.absent <= workers
    && (forall w <- s.prepared :: SecretName(w.vm) in s.secrets)
    && (forall w <- workers :: w.vm in s.vms && w !in s.misread ==> SecretName(w.vm) in s.secrets)
    && (forall w <- s.absent :: w.vm in s.vms ==> w in s.misread)
  }

  /** A VirtualMachine that exists has its Secret, unless a failing read hid it. */
  ghost predicate Safe(workers: set<Worker>, s: Cluster) {
    forall w <- workers :: w.vm in s.vms && w !in s.misread ==> SecretName(w.vm) in s.secrets
  }

  lemma StepInv(workers: set<Worker>, me: Worker, s: Cluster, a: Action)
    requires Separate(workers) && me in workers && Inv(workers, s) && Allowed(me, s, a)
    ensures Inv(workers, Apply(me, s, a))
  {
    match a {
      case DropSecret(_) => DropInv(workers, me, s, a);
      case CreateVm(_, _) => CreateInv(workers, me, s, a);
      case PutSecret(_, _) =>
      case ReadVm(_) =>
      case _ =>
    }
  }

  lemma DropInv(workers: set<Worker>, me: Worker, s: Cluster, a: Action)
    requires Separate(workers) && me in workers && Inv(workers, s) && Allowed(me, s, a) && a.DropSecret?
    ensures Inv(workers, Apply(me, s, a))
  {
    forall w | w in workers && w != me ensures SecretName(w.vm) != SecretName(me.vm) {
      SeparateSecrets(workers, w, me);
    }
  }

  lemma CreateInv(workers: set<Worker>, me: Worker, s: Cluster, a: Action)
    requires Separate(workers) && me in workers && Inv(workers, s) && Allowed(me, s, a) && a.CreateVm?
    ensures Inv(workers, Apply(me, s, a))
  {
    var s' := Apply(me, s, a);
    forall w | w in s'.absent && w.vm in s'.vms ensures w in s'.misread {
      assert w != me && w.vm != me.vm;
    }
  }

  // ----- every interleaving ------------------------------------------------

  ghost predicate Possible(workers: set<Worker>, s: Cluster, run: seq<Event>)
    decreases run
  {
    run == [] ||
    (run[0].worker in workers && Allowed(run[0].worker, s, run[0].action)
     && Possible(workers, Apply(run[0].worker, s, run[0].action), run[1..]))
  }

  lemma {:induction false} RunInv(workers: set<Worker>, s: Cluster, run: seq<Event>)
    requires Separate(workers) && Inv(workers, s) && Possible(workers, s, run)
    ensures Inv(workers, After(s, run))
    decreases run
  {
    if run != [] {
      StepInv(workers, run[0].worker, s, run[0].action);
      RunInv(workers, Apply(run[0].worker, s, run[0].action), run[1..]);
    }
  }

  /** No worker drops its Secret while its VM exists. */
  predicate NoUntimelyDrop(s: Cluster, run: seq<Event>)
    decreases run
  {
    run == []
    || (!(run[0].action.DropSecret? && run[0].action.applied && run[0].worker.vm in s.vms)
        && NoUntimelyDrop(Apply(run[0].worker, s, run[0].action), run[1..]))
  }

  /** For separate, disciplined workers in any interleaving with any faults: an existing VM never
      lacks its Secret if and only if no drop of a Secret is applied while the worker's VM exists. */
  lemma {:induction false} SafeExactly(workers: set<Worker>, s: Cluster, run: seq<Event>)
    requires Separate(workers) && Inv(workers, s) && Possible(workers, s, run) && !Lacks(s)
    ensures NeverLacks(s, run) <==> NoUntimelyDrop(s, run)
    decreases run
  {
    if run != [] {
      var e := run[0];
      var s' := Apply(e.worker, s, e.action);
      StepInv(workers, e.worker, s, e.action);
      HarmlessExactly(s, e);
      TimelyIsHarmless(workers, s, e);
      if Harmless(s, e) { SafeExactly(workers, s', run[1..]); }
    }
  }

  lemma TimelyIsHarmless(workers: set<Worker>, s: Cluster, e: Event)
    requires Separate(workers) && Inv(workers, s) && e.worker in workers && Allowed(e.worker, s, e.action)
    ensures Harmless(s, e) <==> !(e.action.DropSecret? && e.action.applied && e.worker.vm in s.vms)
  {
    if e.action.DropSecret? {
      forall vm | vm in s.vms ensures SecretName(vm) == SecretName(e.worker.vm) <==> vm == e.worker.vm {
        var w :| w in workers && w.vm == vm;
        SeparateSecrets(workers, w, e.worker);
      }
    }
  }

  /** If no read fails with anything but 404, no drop is untimely and no VM is without its Secret. */
  lemma EveryRunSafe(workers: set<Worker>, s: Cluster, run: seq<Event>)
    requires Separate(workers) && Inv(workers, s) && Possible(workers, s, run)
    ensures Safe(workers, After(s, run))
    ensures (forall e <- run :: e.action.ReadVm? ==> !e.action.fails) && s.misread == {} && !Lacks(s) ==>
              NoUntimelyDrop(s, run) && NeverLacks(s, run)
  {
    RunInv(workers, s, run);
    if (forall e <- run :: e.action.ReadVm? ==> !e.action.fails) && s.misread == {} && !Lacks(s) {
      HealthyReadsAreTimely(workers, s, run);
      SafeExactly(workers, s, run);
    }
  }

  lemma {:induction false} HealthyReadsAreTimely(workers: set<Worker>, s: Cluster, run: seq<Event>)
    requires Separate(workers) && Inv(workers, s) && Possible(workers, s, run) && s.misread == {}
    requires forall e <- run :: e.action.ReadVm? ==> !e.action.fails
    ensures NoUntimelyDrop(s, run)
    decreases run
  {
    if run != [] {
      StepInv(workers, run[0].worker, s, run[0].action);
      HealthyReadsAreTimely(workers, Apply(run[0].worker, s, run[0].action), run[1..]);
    }
  }

  // ----- how it goes wrong -------------------------------------------------

  const EMPTY := Cluster(map[], {}, {}, {}, {}, {}, {}, {})

  lemma Unfold(workers: set<Worker>, s: Cluster, e: Event, rest: seq<Event>)
    ensures After(s, [e] + rest) == After(Apply(e.worker, s, e.action), rest)
    ensures Possible(workers, s, [e] + rest) <==>
            e.worker in workers && Allowed(e.worker, s, e.action) &&
                Possible(workers, Apply(e.worker, s, e.action), rest)
  {
    assert ([e] + rest)[1..] == rest;
  }

  /** A failing read: VM and Secret are made, the read after a wait failure answers with an
      error, and the Secret of the existing VM is dropped. */
  lemma FailedReadBreaksSafety(me: Worker)
    requires IsLabel(me.vm)
    ensures var run := [Event(me, PutSecret(true, true))] + ([Event(me, CreateVm([], true))]
                       + ([Event(me, ReadVm(true))] + ([Event(me, DropSecret(true))] + [])));
            Separate({me}) && Possible({me}, EMPTY, run) && Lacks(After(EMPTY, run))
  {
    var e1, e2, e3, e4 := Event(me, PutSecret(true, true)), Event(me, CreateVm([], true)),
                          Event(me, ReadVm(true)), Event(me, DropSecret(true));
    var s1 := Apply(me, EMPTY, e1.action);
    var s2 := Apply(me, s1, e2.action);
    var s3 := Apply(me, s2, e3.action);
    Unfold({me}, EMPTY, e1, [e2] + ([e3] + ([e4] + [])));
    Unfold({me}, s1, e2, [e3] + ([e4] + []));
    Unfold({me}, s2, e3, [e4] + []);
    Unfold({me}, s3, e4, []);
    assert me.vm in Apply(me, s3, e4.action).vms;
  }

  /** Two node objects with one VM name, and no fault at all: one reads that there is no VM, the
      other makes it, the first drops the Secret. */
  lemma TwoOwnersBreakSafety(vm: string)
    requires IsLabel(vm)
    ensures var a, b := Worker(vm, 0), Worker(vm, 1);
            var run := [Event(a, ReadVm(false))] + ([Event(b, PutSecret(true, true))]
                       + ([Event(b, CreateVm([], true))] + ([Event(a, DropSecret(true))] + [])));
            Possible({a, b}, EMPTY, run) && Lacks(After(EMPTY, run))
  {
    var a, b := Worker(vm, 0), Worker(vm, 1);
    var e1, e2, e3, e4 := Event(a, ReadVm(false)), Event(b, PutSecret(true, true)),
                          Event(b, CreateVm([], true)), Event(a, DropSecret(true));
    var s1 := Apply(a, EMPTY, e1.action);
    var s2 := Apply(b, s1, e2.action);
    var s3 := Apply(b, s2, e3.action);
    Unfold({a, b}, EMPTY, e1, [e2] + ([e3] + ([e4] + [])));
    Unfold({a, b}, s1, e2, [e3] + ([e4] + []));
    Unfold({a, b}, s2, e3, [e4] + []);
    Unfold({a, b}, s3, e4, []);
    assert vm in Apply(a, s3, e4.action).vms;
  }

  /** Two VM names with one Secret: the worker of the long name finds no VM of its own and drops
      the Secret that the VM of the short name uses. */
  lemma ClashBreaksSafety(vm: string)
    requires IsLabel(vm) && |vm| == 52
    ensures var a, b := Worker(vm, 0), Worker(vm + SUFFIX, 1);
            var run := [Event(a, PutSecret(true, true))] + ([Event(a, CreateVm([], true))]
                       + ([Event(b, ReadVm(false))] + ([Event(b, DropSecret(true))] + [])));
            Possible({a, b}, EMPTY, run) && Lacks(After(EMPTY, run))
  {
    var a, b := Worker(vm, 0), Worker(vm + SUFFIX, 1);
    SecretsClashAt62(vm);
    var e1, e2, e3, e4 := Event(a, PutSecret(true, true)), Event(a, CreateVm([], true)),
                          Event(b, ReadVm(false)), Event(b, DropSecret(true));
    var s1 := Apply(a, EMPTY, e1.action);
    var s2 := Apply(a, s1, e2.action);
    var s3 := Apply(b, s2, e3.action);
    Unfold({a, b}, EMPTY, e1, [e2] + ([e3] + ([e4] + [])));
    Unfold({a, b}, s1, e2, [e3] + ([e4] + []));
    Unfold({a, b}, s2, e3, [e4] + []);
    Unfold({a, b}, s3, e4, []);
    assert vm in Apply(b, s3, e4.action).vms;
  }

  // ----- one worker's view -------------------------------------------------

  /** What the others can do to the part of the namespace that `me` owns: nothing,
      except that a VM whose deletion was accepted goes away. */
  ghost predicate Rely(me: Worker, s: Cluster, s': Cluster) {
    && (me.vm in s'.vms ==> me.vm in s.vms && s'.vms[me.vm] == s.vms[me.vm])
    && (me.vm in s.vms && me.vm !in s'.vms ==> me.vm in s.deleting)
    && (me.vm in s'.deleting ==> me.vm in s.deleting)
    && (me.vm in s.deleting && me.vm in s'.vms ==> me.vm in s'.deleting)
    && (SecretName(me.vm) in s.secrets <==> SecretName(me.vm) in s'.secrets)
    && (me in s.prepared <==> me in s'.prepared)
    && (me in s.absent <==> me in s'.absent)
    && (me in s.misread <==> me in s'.misread)
    && (me in s.dropped <==> me in s'.dropped)
    && s.volumeDrops <= s'.volumeDrops
  }

  ghost predicate ByOthers(me: Worker, run: seq<Event>) {
    forall e <- run :: e.worker != me || e.action.Vanish?
  }

  lemma StepRelied(workers: set<Worker>, me: Worker, s: Cluster, e: Event)
    requires Separate(workers) && me in workers && e.worker in workers
    requires Allowed(e.worker, s, e.action) && (e.worker != me || e.action.Vanish?)
    ensures Rely(me, s, Apply(e.worker, s, e.action))
  {
    if e.worker != me {
      SeparateSecrets(workers, e.worker, me);
      OtherRelied(me, s, e);
    }
  }

  lemma OtherRelied(me: Worker, s: Cluster, e: Event)
    requires e.worker != me && e.worker.vm != me.vm && SecretName(e.worker.vm) != SecretName(me.vm)
    requires Allowed(e.worker, s, e.action)
    ensures Rely(me, s, Apply(e.worker, s, e.action))
  {
    match e.action {
      case PutSecret(_, _) =>
      case CreateVm(_, _) =>
      case ReadVm(_) =>
      case _ =>
    }
  }

  /** The rely condition is what every run of the others does. */
  lemma {:induction false} OthersRelied(workers: set<Worker>, me: Worker, s: Cluster, run: seq<Event>)
    requires Separate(workers) && me in workers && Inv(workers, s)
    requires Possible(workers, s, run) && ByOthers(me, run)
    ensures Inv(workers, After(s, run)) && Rely(me, s, After(s, run))
    decreases run
  {
    if run != [] {
      var s' := Apply(run[0].worker, s, run[0].action);
      StepInv(workers, run[0].worker, s, run[0].action);
      StepRelied(workers, me, s, run[0]);
      OthersRelied(workers, me, s', run[1..]);
    }
  }

  // ----- the API as a worker calls it --------------------------------------

  /** The steps of the others and then a call of me, from state s. */
  ghost predicate IsCall(workers: set<Worker>, me: Worker, s: Cluster, run: seq<Event>) {
    && run != [] && Possible(workers, s, run) && ByOthers(me, run[..|run| - 1])
    && run[|run| - 1].worker == me && !run[|run| - 1].action.Vanish?
  }

  lemma {:induction false} PossibleBoth(workers: set<Worker>, s: Cluster, a: seq<Event>, b: seq<Event>)
    ensures Possible(workers, s, a + b) <==> Possible(workers, s, a) && Possible(workers, After(s, a), b)
    decreases a
  {
    if a == [] {
      assert a + b == b;
    } else {
      PossibleBoth(workers, Apply(a[0].worker, s, a[0].action), a[1..], b);
      assert (a + b)[1..] == a[1..] + b;
    }
  }

  /** What a call finds and leaves. */
  lemma CallAfter(workers: set<Worker>, me: Worker, s: Cluster, others: seq<Event>, a: Action)
    requires Possible(workers, s, others) && ByOthers(me, others) && !a.Vanish?
    requires me in workers && Allowed(me, After(s, others), a)
    ensures IsCall(workers, me, s, others + [Event(me, a)])
    ensures After(s, others + [Event(me, a)]) == Apply(me, After(s, others), a)
  {
    var run := others + [Event(me, a)];
    assert run[..|run| - 1] == others;
    assert [Event(me, a)][1..] == [];
    PossibleBoth(workers, s, others, [Event(me, a)]);
    AfterBoth(s, others, [Event(me, a)]);
  }

  /** Action a of me took s to s', after any run of the others, who can have done little to what
      is ours. */
  ghost predicate Called(workers: set<Worker>, me: Worker, s: Cluster, a: Action, run: seq<Event>, s': Cluster) {
    && IsCall(workers, me, s, run) && run[|run| - 1].action == a && s' == After(s, run)
    && var mid := After(s, run[..|run| - 1]);
       Rely(me, s, mid) && Inv(workers, mid) && s' == Apply(me, mid, a)
  }

  lemma CallDone(workers: set<Worker>, me: Worker, s: Cluster, others: seq<Event>, a: Action)
    requires Separate(workers) && Inv(workers, s) && me in workers && !a.Vanish? && Allowed(me, s, a)
    requires Possible(workers, s, others) && ByOthers(me, others)
    ensures var s' := Apply(me, After(s, others), a);
            Called(workers, me, s, a, others + [Event(me, a)], s') && Inv(workers, s')
  {
    OthersRelied(workers, me, s, others);
    StepInv(workers, me, After(s, others), a);
    CallAfter(workers, me, s, others, a);
    assert (others + [Event(me, a)])[..|others|] == others;
  }

  /** The log comes to c. */
  ghost predicate Logged(workers: set<Worker>, start: Cluster, log: seq<Event>, c: Cluster) {
    Possible(workers, start, log) && c == After(start, log)
  }

  lemma LoggedMore(workers: set<Worker>, start: Cluster, log: seq<Event>, s: Cluster, run: seq<Event>)
    requires Logged(workers, start, log, s) && Possible(workers, s, run)
    ensures Logged(workers, start, log + run, After(s, run))
  {
    PossibleBoth(workers, start, log, run);
    AfterBoth(start, log, run);
  }

  /** What was logged since the log came to s. */
  lemma LoggedRest(workers: set<Worker>, start: Cluster, log: seq<Event>, s: Cluster, all: seq<Event>, c: Cluster)
    requires Logged(workers, start, log, s) && Logged(workers, start, all, c) && log <= all
    ensures all == log + all[|log|..] && Possible(workers, s, all[|log|..]) && c == After(s, all[|log|..])
    ensures s.volumeDrops <= c.volumeDrops
  {
    DropsStay(s, all[|log|..]);
    assert all == log + all[|log|..];
    PossibleBoth(workers, start, log, all[|log|..]);
    AfterBoth(start, log, all[|log|..]);
  }

  /** The shared API server. Before each call of a worker the others have taken any
      number of steps; how the call itself fares is arbitrary. `log` is all that happened
      since `start`. */
  class Api {
    ghost const workers: set<Worker>
    ghost const start: Cluster
    var c: Cluster
    ghost var log: seq<Event>

    ghost predicate Valid()
      reads this
    {
      Separate(workers) && Inv(workers, c) && Logged(workers, start, log, c)
    }

    constructor (ghost workers: set<Worker>, c: Cluster)
      requires Separate(workers) && Inv(workers, c)
      ensures Valid() && this.workers == workers && this.c == c && log == []
    {
      this.workers, start := workers, c;
      this.c, log := c, [];
    }

    /** What the other workers did since our last call: any run of theirs. */
    method Others(me: Worker) returns (ghost others: seq<Event>)
      requires Valid() && me in workers
      modifies this
      ensures Valid() && log == old(log) + others && c == After(old(c), others)
      ensures ByOthers(me, others) && Possible(workers, old(c), others)
    {
      others := [];
      assert log + [] == log;
    }

    /** Our call, after any run of the others. */
    method Call(me: Worker, a: Action) returns (ghost run: seq<Event>)
      requires Valid() && me in workers && Allowed(me, c, a) && !a.Vanish?
      modifies this
      ensures Valid() && log == old(log) + run && Called(workers, me, old(c), a, run, c)
    {
      ghost var s, logged := c, log;
      var others := Others(me);
      run := others + [Event(me, a)];
      CallDone(workers, me, s, others, a);
      LoggedMore(workers, start, logged, s, run);
      c := Apply(me, c, a);
      log := logged + run;
    }
  }
}
