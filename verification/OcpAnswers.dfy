/** How the API and the VM answer one node object during create and delete (compute/openshift.py),
    and which answers make create succeed. */
module OcpAnswers {
  /** The parameters of create, by what is asked of them: which size parameters are given, whether
      the pre-created volumes are given as a list, whether there is a storage class, whether the
      image name resolves, and whether the set-up's own parameters are there. */
  datatype Args = Args(instancetype: bool, cpu: bool, memory: bool, listed: bool, storage: bool, image: bool,
                       given: bool, volumes: seq<string>, rootVolume: string)

  /** The Secret is created, or there was one, which is or is not replaced, or creating it fails,
      applied or not. */
  datatype SecretAnswer = Created | Conflict(replaced: bool) | Refused(applied: bool)

  /** The VM is accepted, which includes that it exists already, or the call raises. */
  datatype VmAnswer = Accepted | Rejected(applied: bool)

  /** One turn of a wait: whether its read fails with anything but 404, and what is shown. */
  datatype Poll<T> = Poll(fails: bool, shows: T)
  datatype Status = Ready | Broken | Pending
  datatype Ip = NoIp | V6 | V4

  /** Each wait polls until its timeout; then the address wait looks once more. The other reads
      are those that bind the node before and after the waits, and those of the except clauses. */
  datatype Answers = Answers(
    secret: SecretAnswer, vm: VmAnswer, bindFails: bool, ready: seq<Poll<Status>>, ip: seq<Poll<Ip>>,
    lastIp: Poll<Ip>, rebindFails: bool, firstFails: bool, secondFails: bool, dropApplied: bool)

  datatype DeleteAnswer = Deleted | NotFound | Failed(applied: bool)

  /** The answers during delete, with one read per turn of its wait. */
  datatype Removal = Removal(vm: DeleteAnswer, polls: seq<bool>, dropApplied: bool)

  /** Exactly one way to give the size, the volumes as a list, and a storage class. */
  predicate Complete(args: Args) {
    && (if args.instancetype then !args.cpu && !args.memory else args.cpu && args.memory)
    && args.listed && args.storage
  }

  predicate SecretMade(a: SecretAnswer) { a.Created? || (a.Conflict? && a.replaced) }

  /** What create needs to get to the VM. */
  predicate Starts(args: Args, a: Answers) { Complete(args) && SecretMade(a.secret) && args.image }

  /** Some poll finds the VM ready, and none before found it broken. */
  predicate GetsReady(polls: seq<Poll<Status>>) { exists k :: 0 <= k < |polls| && ReadyAt(polls, k) }

  predicate ReadyAt(polls: seq<Poll<Status>>, k: nat)
    requires k < |polls|
  {
    !polls[k].fails && polls[k].shows.Ready? && forall j :: 0 <= j < k ==> polls[j].fails || polls[j].shows.Pending?
  }

  /** The node is bound by the first n polls, or was before. */
  predicate BoundBy(bound: bool, polls: seq<Poll<Ip>>, n: nat)
    requires n <= |polls|
  {
    bound || exists j :: 0 <= j < n && !polls[j].fails
  }

  predicate V4At(bound: bool, polls: seq<Poll<Ip>>, k: nat)
    requires k < |polls|
  {
    polls[k].shows.V4? && BoundBy(bound, polls, k + 1)
  }

  /** Some poll of a bound node shows an IPv4 address, or the last look any address. */
  predicate GetsIp(bound: bool, polls: seq<Poll<Ip>>, last: Poll<Ip>) {
    || (exists k :: 0 <= k < |polls| && V4At(bound, polls, k))
    || (!last.shows.NoIp? && (BoundBy(bound, polls, |polls|) || !last.fails))
  }

  predicate Succeeds(args: Args, a: Answers) {
    && Starts(args, a) && a.vm.Accepted? && GetsReady(a.ready) && GetsIp(!a.bindFails, a.ip, a.lastIp)
    && !a.rebindFails
  }

  predicate NoneFails(polls: seq<bool>) { true !in polls }

  lemma NoneFailsMore(polls: seq<bool>, n: nat)
    requires n < |polls| && NoneFails(polls[..n])
    ensures NoneFails(polls[..n + 1]) <==> !polls[n]
  {
    assert polls[..n + 1] == polls[..n] + [polls[n]];
  }

  // ----- the waits, turn by turn -------------------------------------------

  /** None of the first n polls ends the wait until ready. */
  ghost predicate StillWaiting(polls: seq<Poll<Status>>, n: nat)
    requires n <= |polls|
  {
    forall j :: 0 <= j < n ==> polls[j].fails || polls[j].shows.Pending?
  }

  lemma ReadyTurn(polls: seq<Poll<Status>>, n: nat)
    requires n < |polls| && StillWaiting(polls, n)
    ensures var p := polls[n];
            if p.fails || p.shows.Pending? then StillWaiting(polls, n + 1) else GetsReady(polls) <==> p.shows.Ready?
  {
    if !polls[n].fails && polls[n].shows.Ready? { assert ReadyAt(polls, n); }
  }

  lemma ReadyNever(polls: seq<Poll<Status>>)
    requires StillWaiting(polls, |polls|)
    ensures !GetsReady(polls)
  {
  }

  /** None of the first n polls ends the wait for an address. */
  ghost predicate NoAddress(bound: bool, polls: seq<Poll<Ip>>, n: nat)
    requires n <= |polls|
  {
    forall k :: 0 <= k < n ==> !V4At(bound, polls, k)
  }

  lemma IpTurn(bound: bool, polls: seq<Poll<Ip>>, last: Poll<Ip>, n: nat)
    requires n < |polls| && NoAddress(bound, polls, n)
    ensures BoundBy(bound, polls, n + 1) <==> BoundBy(bound, polls, n) || !polls[n].fails
    ensures if BoundBy(bound, polls, n + 1) && polls[n].shows.V4? then GetsIp(bound, polls, last)
            else NoAddress(bound, polls, n + 1)
  {
    if BoundBy(bound, polls, n + 1) && polls[n].shows.V4? { assert V4At(bound, polls, n); }
  }

  lemma IpLast(bound: bool, polls: seq<Poll<Ip>>, last: Poll<Ip>)
    requires NoAddress(bound, polls, |polls|)
    ensures GetsIp(bound, polls, last) <==> !last.shows.NoIp? && (BoundBy(bound, polls, |polls|) || !last.fails)
  {
  }
}
