/** The DNS methods of CephVMNodeIBM (compute/ibm_vpc.py), step by step. Each is
    proved against its specification in `Dns`. */
module DnsClient {
  import opened Options
  import opened Retry
  import opened Dns
  import opened DnsProofs
  import opened DnsOldHost

  class Client {
    const env: Env
    var server: Server

    constructor (env: Env, server: Server)
      ensures this.env == env && this.server == server
    {
      this.env := env;
      this.server := server;
    }

    method ListResourceRecordsPage(key: Key) returns (out: Outcome<Option<Found>, Error>)
      modifies this
      ensures (server, out) == ListPage(env, key, old(server))
    {
      var e := env;
      var run := RetryLoop(x => ApiList(e, key, x), Retried, server, 5, 60, 3);
      server, out := run.state, run.outcome;
    }

    method DeleteResourceRecord(id: nat) returns (out: Outcome<(), Error>)
      modifies this
      ensures (server, out) == DeleteRecord(env, id, old(server))
    {
      var e := env;
      var run := RetryLoop(x => ApiDelete(e, id, x), Retried, server, 5, 60, 3);
      server, out := run.state, run.outcome;
    }

    /** One try of _create_resource_record. */
    method CreateOnce(key: Key, data: string) returns (out: Outcome<(), Error>)
      modifies this
      ensures (server, out) == CreateAttempt(env, key, data, old(server))
    {
      var (created, answer) := ApiCreate(env, key, data, server);
      server, out := created, answer;
      if out.Raised? && Recoverable(out.error) {
        var page := ListResourceRecordsPage(key);
        if page.Returned? && page.value.Some? {
          var _ := DeleteResourceRecord(page.value.value.id);
        }
      }
    }

    method CreateResourceRecord(key: Key, data: string) returns (out: Outcome<(), Error>)
      modifies this
      ensures (server, out) == CreateRecord(env, key, data, old(server))
      ensures out.Returned? ==> At(server, key) == Some(data)
      ensures forall k :: k != key ==> Find(server, k) == Find(old(server), k)
    {
      var run := RetryLoop(Creating(env, key, data), Retried, server, 5, 60, 3);
      CreateRecordCorrect(env, key, data, server);
      server, out := run.state, run.outcome;
    }

    /** One try of _add_dns_records. */
    method AddOnce(job: Job) returns (out: Outcome<(), Error>)
      modifies this
      ensures (server, out) == AddAttempt(env, job, old(server))
    {
      var (listed, zone) := ApiListZones(env, job.zone, server);
      server := listed;
      if zone.Raised? { return zone; }

      var ptr := ListResourceRecordsPage(job.PtrKey());
      if ptr.Raised? { return Raised(ptr.error); }

      var existingA: Option<Found> := None;
      if ptr.value.Some? && ptr.value.value.data != "" {
        var viaPtr := ListResourceRecordsPage(Key(A, HostOf(ptr.value.value.data, job.zone)));
        if viaPtr.Raised? { return Raised(viaPtr.error); }
        existingA := viaPtr.value;
      }
      if existingA.None? {
        var direct := ListResourceRecordsPage(job.AKey());
        if direct.Raised? { return Raised(direct.error); }
        existingA := direct.value;
      }

      if existingA.Some? {
        out := DeleteResourceRecord(existingA.value.id);
        if out.Raised? { return; }
      }
      if ptr.value.Some? {
        out := DeleteResourceRecord(ptr.value.value.id);
        if out.Raised? { return; }
      }

      out := CreateResourceRecord(job.AKey(), job.ip);
      if out.Raised? { return; }
      out := CreateResourceRecord(job.PtrKey(), job.Fqdn());
    }

    method AddRecords(job: Job) returns (out: Outcome<(), Error>)
      modifies this
      ensures (server, out) == AddDnsRecords(env, job, old(server))
      ensures out.Returned? ==> At(server, job.AKey()) == Some(job.ip)
      ensures out.Returned? ==> At(server, job.PtrKey()) == Some(job.node + "." + job.zone)
      ensures forall k :: k !in Concerned(job, old(server)) ==> Find(server, k) == Find(old(server), k)
      ensures forall h :: out.Returned? && HadHost(job, old(server), h) ==> At(server, Key(A, h)).None?
    {
      forall h | HadHost(job, server, h) && AddDnsRecords(env, job, server).1.Returned?
        ensures At(AddDnsRecords(env, job, server).0, Key(A, h)).None?
      {
        OldHostIsGone(env, job, server, At(server, job.PtrKey()).value, h);
      }
      var run := RetryLoop(Adding(env, job), Retried, server, 5, 60, 3);
      AddDnsRecordsCorrect(env, job, server);
      server, out := run.state, run.outcome;
    }
  }
}
