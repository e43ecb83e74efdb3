/** DNS record recreation (compute/ibm_vpc.py).

    The DNS service is an abstract store that answers every API call according to
    an arbitrary fault schedule: a call may fail before or after it was applied. */
module Dns {
  import opened Basics
  import opened Options
  import opened Retry

  datatype Kind = A | PTR
  datatype Key = Key(kind: Kind, name: string)
  datatype Record = Record(key: Key, data: string)

  /** ApiException with its status code; the connection-level exceptions; anything else. */
  datatype Error = Api(code: int) | Connection | Other

  /** DNS_RETRY_EXCEPTIONS */
  predicate Retried(e: Error) { !e.Other? }

  datatype Fault = Healthy | Fails(error: Error, applied: bool)

  /** The outside world: how the n-th API call fares, and which zones exist. */
  datatype Env = Env(faults: nat -> Fault, zones: set<string>)

  datatype ServerState = ServerState(
    records: map<nat, Record>,  // by record id
    nextId: nat,
    clock: nat,                 // API calls answered so far
    creates: nat,               // create calls among them
    touched: set<Key>           // every key a record of which was ever added or removed
  )

  predicate OnePerKey(records: map<nat, Record>) {
    forall i, j | i in records && j in records && records[i].key == records[j].key :: i == j
  }

  predicate Valid(w: ServerState) {
    && OnePerKey(w.records)
    && (forall id <- w.records :: id < w.nextId)
  }

  /** The service keeps at most one record per (type, name). */
  type Server = w: ServerState | Valid(w) witness ServerState(map[], 0, 0, 0, {})

  datatype Found = Found(id: nat, data: string)

  function FindIn(records: map<nat, Record>, key: Key): (r: Option<Found>)
    requires OnePerKey(records)
    ensures r.Some? ==> r.value.id in records && records[r.value.id] == Record(key, r.value.data)
    ensures r.None? ==> forall id <- records :: records[id].key != key
  {
    if exists id <- records :: records[id].key == key then
      var id :| id in records && records[id].key == key;
      Some(Found(id, records[id].data))
    else None
  }

  function Find(w: Server, key: Key): Option<Found> { FindIn(w.records, key) }

  function At(w: Server, key: Key): Option<string> {
    match Find(w, key) case None => None case Some(f) => Some(f.data)
  }

  // ----- API calls ---------------------------------------------------------

  function Tick(w: Server): Server { w.(clock := w.clock + 1) }

  function Add(w: Server, key: Key, data: string): Server
    requires Find(w, key).None?
  {
    w.(records := w.records[w.nextId := Record(key, data)], nextId := w.nextId + 1, touched := w.touched + {key})
  }

  function Remove(w: Server, id: nat): Server {
    if id in w.records then
      w.(records := w.records - {id}, touched := w.touched + {w.records[id].key})
    else w
  }

  function ApiList(env: Env, key: Key, w: Server): (Server, Outcome<Option<Found>, Error>) {
    match env.faults(w.clock)
    case Healthy => (Tick(w), Returned(Find(w, key)))
    case Fails(e, _) => (Tick(w), Raised(e))
  }

  function ApiCreate(env: Env, key: Key, data: string, w: Server): (Server, Outcome<(), Error>) {
    var w1 := Tick(w).(creates := w.creates + 1);
    var free := Find(w1, key).None?;
    match env.faults(w.clock)
    case Healthy => if free then (Add(w1, key, data), Returned(())) else (w1, Raised(Api(409)))
    case Fails(e, applied) => (if applied && free then Add(w1, key, data) else w1, Raised(e))
  }

  function ApiDelete(env: Env, id: nat, w: Server): (Server, Outcome<(), Error>) {
    match env.faults(w.clock)
    case Healthy => (Remove(Tick(w), id), if id in w.records then Returned(()) else Raised(Api(404)))
    case Fails(e, applied) => (if applied then Remove(Tick(w), id) else Tick(w), Raised(e))
  }

  function ApiListZones(env: Env, zone: string, w: Server): (Server, Outcome<(), Error>) {
    match env.faults(w.clock)
    case Healthy => (Tick(w), if zone in env.zones then Returned(()) else Raised(Other))
    case Fails(e, _) => (Tick(w), Raised(e))
  }

  // ----- the decorated helpers ---------------------------------------------

  function Decorated<R>(f: Server -> (Server, Outcome<R, Error>), w: Server): (Server, Outcome<R, Error>) {
    var run := Run(f, Retried, w, 5, 60, 3);
    (run.state, run.outcome)
  }

  function ListPage(env: Env, key: Key, w: Server): (Server, Outcome<Option<Found>, Error>) {
    Decorated(x => ApiList(env, key, x), w)
  }

  function DeleteRecord(env: Env, id: nat, w: Server): (Server, Outcome<(), Error>) {
    Decorated(x => ApiDelete(env, id, x), w)
  }

  /** Best effort after a create error: find the record of this key and delete it. */
  function Recover(env: Env, key: Key, w: Server): Server {
    var (w1, found) := ListPage(env, key, w);
    if found.Returned? && found.value.Some? then DeleteRecord(env, found.value.value.id, w1).0 else w1
  }

  predicate Recoverable(e: Error) { e.Api? && (e.code == 409 || 500 <= e.code < 600) }

  function CreateAttempt(env: Env, key: Key, data: string, w: Server): (Server, Outcome<(), Error>) {
    var (w1, out) := ApiCreate(env, key, data, w);
    (if out.Raised? && Recoverable(out.error) then Recover(env, key, w1) else w1, out)
  }

  function Creating(env: Env, key: Key, data: string): Server -> (Server, Outcome<(), Error>) {
    x => CreateAttempt(env, key, data, x)
  }

  function CreateRecord(env: Env, key: Key, data: string, w: Server): (Server, Outcome<(), Error>) {
    Decorated(Creating(env, key, data), w)
  }

  // ----- recreating A and PTR ----------------------------------------------

  datatype Job = Job(zone: string, node: string, ip: string) {
    function AKey(): Key { Key(A, node) }
    function PtrKey(): Key { Key(PTR, ip) }
    function Fqdn(): string { node + "." + zone }
  }

  /** The first label of a dotted name. */
  function FirstLabel(name: string): string { Before(name, '.') }

  /** The A record name a PTR target stands for: relative to the zone if it ends in
      it, and its first label otherwise. */
  function HostOf(target: string, zone: string): string {
    var suffix := "." + zone;
    if |suffix| <= |target| && target[|target| - |suffix|..] == suffix
    then target[..|target| - |suffix|]
    else FirstLabel(target)
  }

  /** Steps 1-3: the existing PTR record, then the A record it names or else the node's own. */
  function FindExisting(env: Env, job: Job, w: Server): (Server, Outcome<(Option<Found>, Option<Found>), Error>) {
    var (w1, ptr) := ListPage(env, job.PtrKey(), w);
    if ptr.Raised? then (w1, Raised(ptr.error)) else
    var viaPtr := if ptr.value.Some? && ptr.value.value.data != ""
                  then ListPage(env, Key(A, HostOf(ptr.value.value.data, job.zone)), w1)
                  else (w1, Returned(None));
    if viaPtr.1.Raised? then (viaPtr.0, Raised(viaPtr.1.error))
    else if viaPtr.1.value.Some? then (viaPtr.0, Returned((viaPtr.1.value, ptr.value)))
    else
      var (w2, direct) := ListPage(env, job.AKey(), viaPtr.0);
      (w2, if direct.Raised? then Raised(direct.error) else Returned((direct.value, ptr.value)))
  }

  function DeleteFound(env: Env, found: Option<Found>, w: Server): (Server, Outcome<(), Error>) {
    if found.Some? then DeleteRecord(env, found.value.id, w) else (w, Returned(()))
  }

  function AddAttempt(env: Env, job: Job, w: Server): (Server, Outcome<(), Error>) {
    var (w0, zone) := ApiListZones(env, job.zone, w);
    if zone.Raised? then (w0, zone) else
    var (w1, found) := FindExisting(env, job, w0);
    if found.Raised? then (w1, Raised(found.error)) else
    var (w2, a) := DeleteFound(env, found.value.0, w1);
    if a.Raised? then (w2, a) else
    var (w3, p) := DeleteFound(env, found.value.1, w2);
    if p.Raised? then (w3, p) else
    var (w4, out) := CreateRecord(env, job.AKey(), job.ip, w3);
    if out.Raised? then (w4, out) else
    CreateRecord(env, job.PtrKey(), job.Fqdn(), w4)
  }

  function Adding(env: Env, job: Job): Server -> (Server, Outcome<(), Error>) {
    x => AddAttempt(env, job, x)
  }

  function AddDnsRecords(env: Env, job: Job, w: Server): (Server, Outcome<(), Error>) {
    Decorated(Adding(env, job), w)
  }
}
