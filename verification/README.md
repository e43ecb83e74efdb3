# Verification of cephci's recovery and bookkeeping logic

cephci provisions Ceph clusters on several clouds and prepares their test suites. Most of it is
remote plumbing; this project models the parts that carry real logic, in Dafny, and proves what
they keep. The remote services are abstract stores with arbitrary faults: a call may fail before
or after it was applied, workers may interleave in any order, and listings may be empty or fail.

- `Retry`, `Dns`, `DnsProofs`, `DnsOldHost`, `DnsExact`, `DnsClient`: the retry decorator and, on top of it, DNS record
  recreation on IBM Cloud. A create can be refused with 409, or fail with 5xx after having been
  applied; recovery lists, deletes and lets the decorator create again; a second decorator wraps
  the whole A and PTR sequence. The record types are those of sections 3.3.12 and 3.4.1 of
  RFC 1035. Three sets of proofs: safety under every fault schedule (what a normal return means,
  which keys may ever change, and that the host the address had before loses its record),
  convergence with its cost, and the single steps call by call.
- `RecordIterator`, `PagedServers`: the paginated iterator as a cursor, and what draining it
  yields on two kinds of server: one that pages a list evenly, with or without offsets in its
  links and with any claimed total, and one with pages of any size.
- `Parallel`, `Batches`: the join loop that removes from the list it iterates over, the ordered
  results, and the batches as a concurrent state machine over every schedule.
- `K8sNames`, `LabelWords`, `NodeNames`: object names on OCP Virtualization, section 2.1 of RFC 1123 for the
  labels, and the generated names of the nodes of a run.
- `OcpCluster`, `OcpExcept`, `OcpAnswers`, `OcpNode`: the namespace as a protocol over API calls of
  any number of workers, the except clauses of `create` as runs of it, and one worker's `create`,
  `delete` and three-try set-up against it, for any answers of the API and of the waits.
- `Provision`: the work list, the two batched phases and the rollback.
- `OsdVolumes`, `OsdExact`: volumes, OSD objects and devices of a node.
- `MergeTrees`, `MergeHeap`, `DeepCopies`: the recursive merge on values with its laws, and as it
  runs, on dict and list objects: a `Shape` is a tree together with the objects that hold it, and
  the code stores the override's own objects.
- `OdfMerge`: the ODF profile under a suite's bootstrap config, on objects.
- `OverrideValues`, `ProcessOverride`, `ClusterOverrides`, `OverrideRun`: suite overrides, the loop
  over tests, the loop over clusters, and the whole function. The cluster loop goes on
  merging into a config that has already been copied out, and that refers to objects of the
  overrides. `Sharing` says on values what an override holds after further merges (a `Tie` names
  the parts of it the config refers to), `SharedShapes` and `SharedTies` show that this is what
  happens to the objects.
- `Images`, `ImageChoice`: the image choice with exclusions, and the deploy loop over it.
- `DnsReport`, `ReportExact`: the orphan-record report and the deletion it feeds.
- `MonAddress`, `Monmap`, `MonExact`: reading hosts out of monitor addresses, rewriting the monmap, checking it.
- `LogScanner`, `ScanExact`: the one-pass command scanner, saving, and the chunked reading of a file.
- `Options`, `Basics`: the optional value, and what sequences and strings need throughout.

Each method is proved against functions that compute its result, and these functions are then
described without reference to themselves: by positions in the input, by the fields of a record, by
a law that only one result obeys, or by numbers written out. The modules named `...Exact` and
`DnsOldHost`, `ImageChoice` and `LabelWords` hold most of these descriptions.

Where the code does not do what one would expect of it, the project says so by a lemma with a
concrete case and proves the exact condition under which it does:

- Secret names are injective up to 61 characters, more than the 53 that leave room for the whole
  suffix, and not at 62 (`SecretsExactly`, `SecretsClashAt62`).
- The nodes of a run get VM names of their own if and only if their numbers differ in the digits
  that fit behind the cleaned name prefix: always up to 57 characters of it, never from 59 on,
  where the code only warns about a long name (`SameVmExactly`, `CollideByLength`,
  `LongNamingCollides`). On this depends whether rollback deletes a volume of a registered node
  (`LosesExactly`, `LosesByCollision`, `RollbackHitsRegistered`), and whether the workers of a run
  keep out of each other's way (`RunWorkersSeparate`).
- An existing VM never lacks its Secret if and only if no drop of a Secret is applied while the
  worker's VM exists (`SafeExactly`). Three ways to get there: a read that fails with anything but
  404 and counts as "no such VM" (`FailedReadBreaksSafety`), two node objects with one VM name
  (`TwoOwnersBreakSafety`), and two VM names with one Secret name (`ClashBreaksSafety`). Without
  any of them it never happens (`EveryRunSafe`).
- A failed `create` ends with the deletion of the Secret issued, or with a bound node for `delete()`
  to act on, unless its first read after the failure finds the VM and its second does not; exactly
  then it ends with neither (`LeftExactly`). That is possible exactly if the VM exists when the reads
  begin, and without a failing read exactly if it is under deletion as well (`LostExactly`); both
  happen (`FoundVmIsLost`, `VmUnderDeletionIsLost`).
- On baremetal two OSDs share a device, or one has none, unless the paths of the allocated volumes
  end in different non-empty names (`DevicesDistinct`, `EveryOsdActive`, `OneNameTwoPaths`).
- Draining the record iterator yields the whole list if and only if no empty page precedes one
  with records (`PagesCompleteExactly`). With links that carry no offset the first of several pages
  comes twice, and the end of the list is reached if and only if the claimed total, rounded up to
  whole pages, reaches it; without a total only the first page comes (`StreamCompleteExactly`).
- Merging is not associative in general (`NotAssociative`, `AssociativeExactly`), and the ODF merge
  is the deep merge only on shallow pairs (`OdfExactly`, `OdfDiffers`).
- A cluster override is written to through the config it was stored in, so the next test can read
  more than the override file says (`WrittenThroughTheConfig`, `NextTestExactly`, `NextTestWrong`).
  It stays as read if and only if no later override adds anything to a part of it that was stored
  by reference (`AsReadExactly`, `TwoOverridesExactly`), and as long as this holds every test gets
  what it should (`ClustersOfTests`).
- The fallback image is the nearest usable one if and only if some candidate has the wanted version
  or nothing behind the first usable one is nearer (`FallbackNearestExactly`,
  `FirstInsteadOfNearest`).
- An excluded image comes back exactly when the image list is missing or empty and the excluded
  image is the preferred one (`ExcludedExactly`, `RepeatsExactly`, `FailedListingsRepeat`).
- Orphan records are deleted in their own zones if and only if no two orphans have one zone name and
  different zone ids (`OwnZonesExactly`, `TwoZonesOneName`).
- A second monmap run is a no-op exactly when all hosts are plain (`ApplyTwiceExactly`). Colons
  inside the host do no harm, and neither does a bracketed IPv6 address with a port, which is read
  without its opening bracket (`BracketedHost`); but behind a `v2:` tag both brackets stay, and
  then the second run changes the monmap (`TaggedBracketedHost`, `SecondRunChanges`).
- Scanning a log in chunks loses exactly the commands whose output is open at the end of a chunk
  and is closed behind it (`ChunksAgreeExactly`, `ChunkLosesCommand`).

`dafny verify dfyconfig.toml` checks the project.

## Model

| member | source | states |
|---|---|---|
| Retry.RetryLoop | utility/retry.py:23-70 | the decorator's loop computes the specified run: final state, outcome, number of calls, seconds slept |
| Retry.RunCharacterised | utility/retry.py:23-70 | at most max(1, tries) calls; every call but the last raised a caught error; a run stops early only with an uncaught outcome; m failures slept delay times 1 + backoff + ... + backoff^(m-1) |
| Retry.RunKeeps | utility/retry.py:23-70 | an invariant of the wrapped function is one of the decorated call, and what its normal return establishes the decorated return establishes |
| Retry.RunReturns | utility/retry.py:23-70 | a return in any one call within the tries makes the decorated call return, if no earlier call raised something uncaught; so does a return in the call after a caught failure |
| Retry.RunCost | utility/retry.py:23-70 | a per-call bound on any counter multiplies by max(1, tries) |
| Retry.ExhaustedDnsLoop | compute/ibm_vpc.py:844 | an exhausted (5, 60, 3) loop made five calls and slept 2400 seconds |
| DnsProofs.ListPageReads | compute/ibm_vpc.py:780-821 | listing changes nothing on the server and a normal answer is the current record of the key |
| DnsProofs.DeleteRecordFrame | compute/ibm_vpc.py:974-1019 | deleting by id, through its retries, touches at most the record of that id; a normal return means it is gone |
| DnsProofs.RecoverFrame | compute/ibm_vpc.py:890-919 | the recovery after a 409 or 5xx only removes records of the one key, whatever fails in it |
| DnsProofs.CreateRecordCorrect | compute/ibm_vpc.py:844-938 | for every fault schedule: normal return leaves the one record of (type, name) with the new data; however it ends, other keys are untouched and this key holds the old record, none, or the new one |
| DnsProofs.CleanAttempt | compute/ibm_vpc.py:876-919 | a fault-free attempt creates the record, or answers 409 and leaves the key free |
| DnsProofs.CreateRecordConverges | compute/ibm_vpc.py:844-938 | two consecutive fault-free attempts within the five end in a normal return |
| DnsProofs.CleanAddAttempt | compute/ibm_vpc.py:1048-1151 | a fault-free attempt of the whole sequence takes at most 14 calls and returns |
| DnsProofs.HostOfFqdn | compute/ibm_vpc.py:1069-1074 | stripping the zone from the PTR target undoes the join with which it was made |
| DnsProofs.FirstLabelHead | compute/ibm_vpc.py:1072-1074 | the fallback takes the host of a dotted name |
| DnsProofs.ConcernedShrinks | compute/ibm_vpc.py:1065-1074 | retries never widen the set of keys an attempt may change |
| DnsProofs.AddAttemptCorrect | compute/ibm_vpc.py:1048-1151 | one attempt changes only A[node], PTR[ip] and A[h] for the host h the PTR record names; a normal return leaves both records as wanted |
| DnsProofs.AddDnsRecordsCorrect | compute/ibm_vpc.py:1021-1151 | the same for the doubly retried call from any start, in every reachable state: A[node] is the ip and PTR[ip] is node.zone on normal return, and only the keys concerned at the start were ever changed |
| DnsOldHost.NamesExactly | compute/ibm_vpc.py:1065-1074 | which host a PTR target names, without naming the function: the one that stands before ".zone" if the target ends so, and else what is before the first dot |
| DnsOldHost.OldHostIsGone | compute/ibm_vpc.py:1075-1117 | under every fault schedule and through all retries: if the PTR record of the ip named another host than the node at the start, a normal return leaves no A record for that host; however the call ends, that record is gone or the PTR record still names the host |
| DnsExact.CleanAddExactly | compute/ibm_vpc.py:1048-1151 | a fault-free attempt makes two create calls, and a third exactly if the node has an A record and the one deleted is that of another host named by the PTR record: so both deletions come before the creates |
| DnsExact.AddressBeforePointer | compute/ibm_vpc.py:1119-1151 | an attempt that finds no PTR record makes one only once A[node] is the ip |
| DnsExact.RecoveredExactly | compute/ibm_vpc.py:890-938 | a create that fails with 409 or any 5xx is followed by calls that free the key; after any other error there is none, and what the failed call applied stays |
| DnsExact.UnknownZone | compute/ibm_vpc.py:1047-1048 | an unknown zone ends the call with an error and changes nothing, after one call if the service answers |
| DnsExact.DeadService | compute/ibm_vpc.py:844-876 | with a service that cannot be reached, each of the four decorated methods makes exactly five calls |
| DnsProofs.AddDnsRecordsConverges | compute/ibm_vpc.py:1021-1151 | one fault-free outer attempt among the five, 14 server calls, makes the call return normally, whatever failed before it and whatever A and PTR records it finds, unless an earlier attempt raised an error that is not retried |
| DnsProofs.CreateRecordCost | compute/ibm_vpc.py:844-876 | at most 5 create calls |
| DnsProofs.AddDnsRecordsCost | compute/ibm_vpc.py:1021-1151 | at most 50 create calls under the nested decorators |
| DnsClient.Client.ListResourceRecordsPage | compute/ibm_vpc.py:780-821 | the method leaves the server and answers as specified |
| DnsClient.Client.DeleteResourceRecord | compute/ibm_vpc.py:974-1019 | the method leaves the server and answers as specified |
| DnsClient.Client.CreateOnce | compute/ibm_vpc.py:876-938 | one try with its recovery, against the specification |
| DnsClient.Client.CreateResourceRecord | compute/ibm_vpc.py:844-938 | the decorated method: new data on normal return, other keys as they were |
| DnsClient.Client.AddOnce | compute/ibm_vpc.py:1048-1151 | the six steps in order, with every early exit; the specification it meets is tied to the records by DnsOldHost and DnsExact |
| DnsClient.Client.AddRecords | compute/ibm_vpc.py:1021-1151 | the decorated method: A[node] and PTR[ip] as wanted and no A record of the host the ip had before on normal return, all keys not concerned as they were |
| RecordIterator.ResourceRecordIterator.constructor | compute/ibm_vpc.py:41-65 | the starting cursor |
| RecordIterator.ResourceRecordIterator.Next | compute/ibm_vpc.py:71-95 | one step of the cursor machine |
| RecordIterator.ResourceRecordIterator.FetchNextPage | compute/ibm_vpc.py:130-187 | the state after a fetch, for every kind of reply and link and for a failure |
| RecordIterator.Drain | utility/ibm_dns_report.py:95-103 | the loop until StopIteration collects exactly what the steps yield |
| PagedServers.PageIsSlice | compute/ibm_vpc.py:163-180 | fetch number k asks for the k-th slice of the stream and is the last one exactly when the server links no further |
| PagedServers.FetchInv | compute/ibm_vpc.py:130-187 | a fetch keeps the cursor on the stream; an empty page means the stream is used up |
| PagedServers.StreamCompleteExactly | compute/ibm_vpc.py:163-180 | links without an offset, where the first of several pages comes twice: the stream reaches the end of the list if and only if the list fits one page or the claimed total, rounded up to whole pages, does; without a total_count only the first page comes |
| PagedServers.TotalAhead | compute/ibm_vpc.py:170-180 | such links are followed until the records yielded have reached the claimed total, and one page more |
| PagedServers.StepYields | compute/ibm_vpc.py:71-95 | every step yields the next record of the stream, and once it is used up every step stops |
| PagedServers.GetAllRecords | utility/ibm_dns_report.py:95-103 | draining gives the list itself; with links that carry no offset, the first page and then the list again, up to the claimed total; after a failed fetch, the full pages before it |
| PagedServers.GetAllPages | utility/ibm_dns_report.py:95-103 | for pages of any size, some of them empty: the concatenation of the pages before the first empty one |
| PagedServers.PagesStep | compute/ibm_vpc.py:71-95 | every step on such pages yields the next record, and stops at the first empty page |
| PagedServers.PagesCompleteExactly | compute/ibm_vpc.py:145-154 | that is the whole list if and only if no empty page precedes one with records |
| PagedServers.EmptyLinkedPageStopsEarly | compute/ibm_vpc.py:145-154 | an empty page with a usable link stops the iteration although the next call would yield a record |
| Parallel.SweepInPlace | ceph/parallel.py:125-127 | the in-place loop with Python's index semantics leaves what the recursive description says |
| Parallel.SweepExactly | ceph/parallel.py:125-127 | a sweep leaves, in order, exactly the futures not removed; a future is removed if and only if it is finished and the one before it was not removed |
| Parallel.SweepKeepsUnfinished | ceph/parallel.py:125-127 | a sweep never drops or reorders an unfinished future |
| Parallel.SweepHalves | ceph/parallel.py:125-127 | of d finished futures at most d/2 rounded down stay |
| Parallel.SweepRemovesFirstFinished | ceph/parallel.py:125-127 | the first finished future is removed and what is before it stays |
| Parallel.SweepsClear | ceph/parallel.py:118-127 | k sweeps with 2^k > d leave exactly the unfinished futures |
| Parallel.SweepsExact | ceph/parallel.py:118-127 | n finished futures are cleared by k sweeps if and only if n < 2^k |
| Parallel.JoinKeeps | ceph/parallel.py:113-131 | a future that no sweep sees finished is still in the list at the end |
| Parallel.JoinEmpties | ceph/parallel.py:113-127 | once all n are finished the loop empties the list within floor(log2 n) + 1 sweeps |
| Parallel.Pool.constructor | ceph/parallel.py:63-85 | an empty pool |
| Parallel.Pool.Spawn | ceph/parallel.py:95-107 | futures are kept in spawn order |
| Parallel.Pool.AwaitAll | ceph/parallel.py:113-127 | the loop of sweeps equals the specified join |
| Parallel.Pool.Finish | ceph/parallel.py:133-146 | results are appended in spawn order; the first failure in spawn order is raised with exactly the results before it; nothing is collected when the body raised |
| Parallel.Pool.Next | ceph/parallel.py:151-165 | futures in spawn order, failures as values; the index restarts after the end |
| Batches.RunInBatches | ceph/utils.py:70-84 | the batches tile the items in order; each ends at its start plus max(1, batch_size) or at the last item, whichever comes first; the last one is that of the first failure; success exactly if all workers return |
| Batches.AttemptedBounds | ceph/utils.py:75-84 | what is attempted ends inside the batch of the first failing item, and is everything without a failure |
| Batches.AttemptedExactly | ceph/utils.py:74-84 | with a first failing item, exactly the whole batches before it and its own are attempted, the size written out as max(1, batch_size) |
| Batches.AttemptedItems | ceph/utils.py:74-84 | an item is attempted if and only if all items of the earlier batches return |
| Batches.InvStep | ceph/utils.py:70-84 | every spawn, start, finish and join keeps the invariant |
| Batches.RunInv | ceph/utils.py:70-84 | the state invariant over every schedule of spawns, starts, finishes and joins |
| Batches.AlwaysBounded | ceph/utils.py:74-84 | in every reachable state at most max(1, batch_size) items are in flight, that number written out; no item has started before all earlier batches of that size returned, and none starts twice |
| Batches.SuccessIsComplete | ceph/utils.py:75-84 | on success each item ran exactly once and returned, in n / max(1, batch_size) batches rounded up |
| Batches.FailureStops | ceph/utils.py:82-84 | after a failing batch nothing more can happen and no later item was ever started |
| Batches.AlwaysProgress | ceph/utils.py:75-84 | a running schedule can always go on, and none is longer than 4n steps |
| Batches.ScheduleAgreesWithLoop | ceph/utils.py:75-84 | every finished schedule ends as the plain loop says |
| K8sNames.SanitizeGivesLabel | compute/openshift.py:43-48 | every result is a non-empty DNS label of at most 63 characters without a hyphen at either end or two in a row |
| K8sNames.SanitizeFixpoints | compute/openshift.py:43-48 | the names left alone are exactly these labels |
| K8sNames.SanitizeIdempotent | compute/openshift.py:43-48 | sanitizing twice is sanitizing once |
| LabelWords.SanitizeIs | compute/openshift.py:43-48 | the sanitized name: the maximal runs of lower-case letters and digits, joined by single hyphens, cut at 63 characters less a hyphen at the cut; "ceph-vm" without any such run |
| K8sNames.SecretShape | compute/openshift.py:328-330 | the Secret name is the VM name followed by "-cloudinit", cut at 63 characters, and from 62 characters on the VM name itself |
| K8sNames.SecretIsLabel | compute/openshift.py:328-330 | a Secret name is itself a label and begins with the VM name |
| K8sNames.SecretsExactly | compute/openshift.py:328-330 | two VMs share a Secret name exactly if they are the same or one is the other's cut-off Secret name |
| K8sNames.SecretsInjective | compute/openshift.py:328-330 | injective on VM names of up to 61 characters, so also up to 53 |
| K8sNames.SecretsClashAt62 | compute/openshift.py:328-330 | a 52-character name and its 62-character extension share their Secret |
| K8sNames.DecimalInjective | compute/openshift.py:1002 | decimal indices are unambiguous |
| LabelWords.DecimalIs | compute/openshift.py:1002 | the decimal numbers in names: digits that stand for the number, without a leading zero |
| K8sNames.VolumeNameInjective | compute/openshift.py:998-1002 | (vm, index) to DataVolume name is injective for all VM names |
| K8sNames.VolumeNeverRoot | compute/openshift.py:381 | no non-root volume has the name of any root disk |
| NodeNames.NameParts | utility/utils.py:1482-1494 | a node name is the prefix common to the run, then "node" with the number, then the role tag |
| NodeNames.VmNameShape | compute/openshift.py:43-48 | the VM name is the cleaned prefix and the node's own suffix, cut at 63 characters |
| NodeNames.SameVmExactly | compute/openshift.py:43-48 | two nodes get one VM name if and only if their numbers agree in the digits that fit behind the cleaned prefix; the roles do not matter |
| NodeNames.CollideExactly | ceph/utils.py:1203-1209 | the same for the generated names of a run |
| NodeNames.CollideByLength | ceph/utils.py:1191-1209 | among 99 nodes: never with a cleaned prefix of up to 57 characters, with 58 exactly those whose numbers begin alike, from 59 on always |
| NodeNames.NeverClash | compute/openshift.py:328-330 | two generated names of a run never share a Secret name unless they are one |
| NodeNames.NoWarningNoCollision | utility/utils.py:1495-1496 | names that draw no length warning never collide |
| NodeNames.LongNamingCollides | utility/utils.py:1482-1498 | with a cluster name of 50 letters all nodes of a run get one VM name |
| OcpCluster.StepInv | compute/openshift.py:1446-1521 | every permitted call of any worker, with any outcome, keeps the namespace invariant |
| OcpCluster.RunInv | compute/openshift.py:1446-1615 | so does every interleaving of any number of workers |
| OcpCluster.NeverLacksExactly | compute/openshift.py:1446-1615 | for every run of any calls: an existing VirtualMachine never lacks its cloud-init Secret if and only if no Secret is dropped while a VM uses it and no VM is made without one |
| OcpCluster.SafeExactly | compute/openshift.py:1446-1615 | for workers with VM names and Secrets of their own, following the code, in every interleaving with any faults: that holds if and only if no drop of a Secret is applied while the worker's VM exists |
| OcpCluster.EveryRunSafe | compute/openshift.py:1446-1615 | so it holds whenever no read fails with anything but 404; with failing reads every VM that was not misread has its Secret |
| OcpCluster.HealthyReadsAreTimely | compute/openshift.py:1654-1668 | without such reads no drop comes while the VM exists |
| OcpCluster.FailedReadBreaksSafety | compute/openshift.py:1663-1668 | one failing read leaves a VM without its Secret |
| OcpCluster.TwoOwnersBreakSafety | compute/openshift.py:1499-1521 | two node objects with one VM name do so without any fault |
| OcpCluster.ClashBreaksSafety | compute/openshift.py:328-330 | so do two VM names with one Secret name |
| OcpCluster.OthersRelied | compute/openshift.py:1446-1615 | what other workers can do to one worker's objects: nothing but finish a deletion already accepted |
| OcpCluster.Api.Call | compute/openshift.py:1446-1615 | a call takes effect after any steps of the others, is logged with them, and keeps the invariant |
| OcpExcept.LeftExactly | compute/openshift.py:1495-1521 | the except clauses, whatever the others do in between: they end with the Secret's deletion issued after a read that found no VM, or with a bound node, unless no node was bound before, the first read found the VM and the second did not; exactly then with neither |
| OcpExcept.LostExactly | compute/openshift.py:1495-1521 | from which namespaces they can end otherwise: exactly those with the VM in them, and without failing reads exactly those in which it is also under deletion |
| OcpExcept.VmUnderDeletionIsLost | compute/openshift.py:1446-1521 | create for a VM still under deletion, with no failing read: the VM ends up gone, its Secret stays, its deletion is never issued and no node is bound |
| OcpExcept.FoundVmIsLost | compute/openshift.py:1446-1521 | create with the VM made and found by the first read, the second read failing: VM and Secret stay and no node is bound |
| OcpNode.CephVMNodeOCP.GetVm | compute/openshift.py:1654-1668 | one read call after any steps of the others; it answers with the VM, or with none, which is the truth unless the read failed |
| OcpNode.CephVMNodeOCP.EnsureSecret | compute/openshift.py:1523-1548 | create, or replace on 409: it ends well if and only if the answers say the Secret was created or replaced, and then the Secret is there for this VM; a refused create is a NodeError, a refused replacement another error |
| OcpNode.CephVMNodeOCP.WaitUntilVmReady | compute/openshift.py:1715-1744 | for a VM that nobody is deleting: it ends well if and only if some poll reads the VM ready and none before read it broken |
| OcpNode.CephVMNodeOCP.WaitUntilIpKnown | compute/openshift.py:1746-1771 | likewise: if and only if some poll of a bound node shows an IPv4 address, or the look after the timeout any address |
| OcpNode.CephVMNodeOCP.CreateAndWait | compute/openshift.py:1467-1494 | the VM is only created under a prepared Secret; with the VM accepted and nobody deleting it, it ends well if and only if the waits and reads do, and the VM has the volumes it was asked for |
| OcpNode.CephVMNodeOCP.Prepare | compute/openshift.py:1422-1466 | it refuses with no call made if the sizes are given in no way or in two, the volumes are no list or there is no storage class; it gets to the VM if and only if these are in order, the Secret is made and the image resolves |
| OcpNode.CephVMNodeOCP.Create | compute/openshift.py:1422-1521 | it refuses invalid arguments with no call made. Otherwise, with no deletion of the VM under way: it ends well if and only if the Secret is made, the image resolves, the VM is accepted, some poll finds it ready before any finds it broken, an address is seen and the reads that bind the node succeed; then the node is bound and VM and Secret are there, the VM with the given volumes. When it raises from line 1467 on: the calls made are the tried ones, then those of the except clauses; the node is bound, or the VM read absent and its Secret's deletion issued, unless the first read found the VM and the second did not, and exactly then not; that takes a failing read or a VM already under deletion at the start |
| OcpNode.CephVMNodeOCP.AfterFailure | compute/openshift.py:1495-1521 | the except clauses: the Secret goes if the first read finds no VM, else an unbound node is bound by a second read; what node, Secret and VM are left as, by what the two reads answered |
| OcpNode.CephVMNodeOCP.DropVolumes | compute/openshift.py:1116-1119 | a delete is issued for every volume of the list |
| OcpNode.CephVMNodeOCP.WaitUntilVmDeleted | compute/openshift.py:1773-1782 | it ends well only after a read that found no VM, and badly only if every poll was made and found the VM |
| OcpNode.CephVMNodeOCP.Delete | compute/openshift.py:1559-1615 | it fails only if the delete call does, with anything but 404, or every poll was made and found the VM; then the node stays bound. Normal return on a bound node: VM read absent, deletion of all its volumes and of its Secret issued |
| OcpNode.SetupOnce | ceph/utils.py:1303-1335 | one try with its clean-up: with no deletion of the VM under way it succeeds if and only if its answers let create succeed; the deletion of the pre-created volumes is issued if and only if the node was bound when create raised, unless the clean-up failed, and then it is not |
| OcpNode.SetupVmNode | ceph/utils.py:1295-1336 | at most three tries; it returns on the first try whose answers let create succeed, and ends in NodeError with no call made on invalid parameters; success returns a bound node under a prepared Secret; giving up after the VM was reached leaves no VM and the deletion of its Secret issued, unless a read failed or the VM was already under deletion; however it ends, the deletion of the pre-created volumes was issued if and only if a try that failed and was cleaned up had bound its node |
| Provision.BuildWork | ceph/utils.py:1191-1238 | the loop builds the specified work list from the configuration and the name generator |
| Provision.WorkExactly | ceph/utils.py:1191-1238 | that list holds exactly the nodes before the first gap, each with its generated VM name and its volumes |
| Provision.JobsExactly | ceph/utils.py:1241-1252 | the volume jobs one by one: disk idx of a node is named VM-vol-idx and comes behind the disks of all nodes before it |
| Provision.BuildJobs | ceph/utils.py:1241-1252 | the two loops build this list |
| Provision.TriedExactly | ceph/utils.py:1254-1262 | which volumes are attempted: of the jobs in order, those with all jobs of the earlier batches made |
| Provision.NodesExactly | ceph/utils.py:1264-1274 | which nodes get registered: those whose own set-up returns, as do all set-ups of the earlier batches |
| Provision.Rollback | ceph/utils.py:1276-1280 | the volumes of all unregistered nodes, in order |
| Provision.RollbackInOrder | ceph/utils.py:1275-1281 | rollback deletes the jobs of the unregistered nodes, one deletion each, in the order of the jobs |
| Provision.CreateNodes | ceph/utils.py:1240-1293 | both batch runs returning means every key is registered, so the mismatch error is unreachable; otherwise rollback deletes the volumes of exactly the unregistered nodes, which are all of them if a volume failed |
| Provision.SetUpAll | ceph/utils.py:1263-1274 | the registered keys are those of the attempted items whose worker returned |
| Provision.RollbackExactly | ceph/utils.py:1276-1280 | a volume name is deleted if and only if an unregistered node has it |
| Provision.RollbackComplete | ceph/utils.py:1276-1280 | every volume of every unregistered node is deleted |
| Provision.LosesExactly | ceph/utils.py:1276-1280 | a registered node loses a volume if and only if it has volumes and an unregistered node with volumes has its VM name |
| Provision.LosesByCollision | ceph/utils.py:1203-1280 | in a run: if and only if the numbers of the two collide; never with a cleaned prefix of up to 57 characters, always from 59 on |
| Provision.RollbackHitsRegistered | ceph/utils.py:1203-1280 | with a cluster name of 50 letters, and the set-up of node 1 returning and that of node 2 failing, in batches of any size: node 1 is the one registered and loses its volume |
| Provision.RunWorkersSeparate | ceph/utils.py:1203-1274 | the workers of a run have VM names and Secrets of their own if and only if no two of their numbers collide, so with a cleaned prefix of up to 57 characters always |
| OsdVolumes.FlipFirstCounts | ceph/ceph.py:1660-1670 | changing the status of one volume moves one from count to count |
| OsdExact.FlipFirstExactly | ceph/ceph.py:1660-1670 | the first volume of the status changes it and keeps its path, and no other does |
| OsdExact.WithExactly | ceph/ceph.py:1660-1670 | the positions of the volumes of a status, in order |
| OsdVolumes.FreeOrAllocated | ceph/ceph.py:1660-1670 | every volume is in one of the two counts |
| OsdVolumes.CephNode.constructor | ceph/ceph.py:1598-1607 | all volumes start free |
| OsdVolumes.CephNode.CreateCephObject | ceph/ceph.py:3202-3223 | an OSD takes the first free volume or fails without a change; OSDs and allocated volumes stay equal in number |
| OsdVolumes.CephNode.CreateForRoles | ceph/ceph.py:1609-1613 | one object per role but pool, in order; fails exactly if there are more OSD roles than volumes |
| OsdExact.NoPoolExactly | ceph/ceph.py:1609-1613 | the roles that get an object: all but "pool", in order |
| OsdVolumes.CephNode.FillWithOsds | ceph/ceph.py:1614-1619 | the loop ends with no free volume if there was an OSD, and does nothing otherwise |
| OsdVolumes.CephNode.Populate | ceph/ceph.py:1598-1619 | construction: with an OSD role every volume ends up under an OSD; without one every volume stays free |
| OsdVolumes.CephNode.RemoveCephObject | ceph/ceph.py:2239-2248 | the first object of that identity goes; removing an OSD frees the first allocated volume, which always exists |
| OsdExact.IndexOfExactly | ceph/ceph.py:2239-2248 | removal looks for the first object of the identity |
| OsdVolumes.CephNode.GetOsdDevices | ceph/ceph.py:416-454 | the devices of the allocated volumes, less the dedicated journals, which take the first free volumes if there are enough; which volumes are allocated then |
| OsdExact.DevicesExactly | ceph/ceph.py:425-432 | the k-th device is the path of the k-th allocated volume on baremetal, and else /dev/vd with the k-th letter from b on |
| OsdExact.WithoutExactly | ceph/ceph.py:434-454 | of the devices, in order, exactly those that are no journals are left |
| OsdExact.ReserveExactly | ceph/ceph.py:434-454 | the reserved volumes are the first free ones, as many as there are journals; all others stay |
| OsdExact.BaseNameExactly | ceph/ceph.py:466-470 | the name of a path is what is behind its last slash |
| OsdVolumes.CephNode.SetupOsdDevices | ceph/ceph.py:456-470 | the loop assigns as specified |
| OsdVolumes.CephNode.AssignDevices | ceph/ceph.py:456-515 | collocated or lvm: every OSD is active with a device of its own, always on a virtual node, and on baremetal if and only if the allocated volumes' paths end in different non-empty names |
| OsdVolumes.AssignOrder | ceph/ceph.py:464-470 | the j-th OSD gets the j-th device from the end, and none once they run out |
| OsdExact.OnlyOsdsAreServed | ceph/ceph.py:456-470 | assigning devices changes no object's identity or role, and nothing of an object that is no OSD |
| OsdVolumes.EveryOsdActive | ceph/ceph.py:464-470 | given as many devices as OSDs, every OSD is active on a device of its own if and only if no two devices are mounted under one name and none under an empty one |
| OsdVolumes.SurplusInactive | ceph/ceph.py:464-470 | the j-th OSD is active if and only if there is a j-th device from the end and its name is not empty |
| OsdVolumes.DevicesDistinct | ceph/ceph.py:425-470 | the device list is as long as the allocated volumes; the devices differ as mounted always on a virtual node, and on baremetal if and only if the paths end in different non-empty names |
| OsdVolumes.OneNameTwoPaths | ceph/ceph.py:466-470 | two baremetal paths that end in one name: both OSDs get the same device |
| MergeTrees.PathLaw | init_suite.py:26-36 | at every path: where both have a value, two lists are joined with the original's items first, two dicts have the keys of both, and otherwise it is the override's; the override's where only it has one, the original's where the override is silent, nothing below a value that overwrote it |
| MergeTrees.OnlyMergeObeys | init_suite.py:16-36 | and no other tree obeys this at all paths |
| MergeTrees.AbsorbedExactly | init_suite.py:26-36 | when merging leaves nothing of the left tree |
| MergeTrees.AssociativeExactly | init_suite.py:26-36 | associative on a triple if and only if the middle tree hides nothing that the right one would merge with |
| MergeTrees.KindsAgreeSuffices | init_suite.py:26-36 | so on all triples whose kinds agree where paths meet |
| MergeTrees.NotAssociative | init_suite.py:26-36 | a scalar between two dicts breaks it |
| MergeTrees.OdfLaw | utility/odf_defaults.py:160-180 | section by section and key by key what the ODF merge holds: the suite's where it has something to say, the profile's elsewhere |
| MergeTrees.OdfExactly | utility/odf_defaults.py:169-180 | equal to merge_dicts(profile, suite) if and only if nothing below the second level would have to be merged |
| MergeTrees.TwoLevelsShallow | utility/odf_defaults.py:169-180 | which holds for section-to-key-to-scalar trees |
| MergeTrees.OdfDiffers | utility/odf_defaults.py:169-180 | with a third level the section-wise update and the deep merge differ |
| OdfMerge.MergeOdf | utility/odf_defaults.py:160-180 | on objects: the result is each suite section updating, replacing or adding to the profile's; only new objects are written to, so profile and suite stay as they are; the section dicts of the result are new, what is below them may be the suite's own |
| OdfMerge.SectionTurn | utility/odf_defaults.py:171-179 | one section: stored, put into a new dict, copied, or updated in place |
| OdfMerge.UpdatedErases | utility/odf_defaults.py:179 | dict.update goes one level deep |
| MergeHeap.MergeDicts | init_suite.py:16-36 | in place on objects: the left objects hold the merge, a list its own items and then the right one's, a dict the keys of both; the right tree is unchanged, and only the dicts and lists of the left that meet one of their kind on the right are written to |
| MergeHeap.ExtendList | init_suite.py:26-28 | list extension in place: the old items and then those of the other list |
| MergeHeap.MergeKeeping | init_suite.py:16-36 | trees that share no written object stay as they are |
| MergeHeap.EraseMerge | init_suite.py:16-36 | forgetting the objects, the result is the merge on values |
| MergeHeap.MergeFoot | init_suite.py:33-35 | the result is made of objects of both sides: the override's own ones where it was stored |
| MergeHeap.MergeSep | init_suite.py:33-35 | no object is used twice in the result if the two sides shared none |
| DeepCopies.DeepCopy | init_suite.py:125-127 | a copy of the same value made of new objects only |
| OverrideValues.Position | init_suite.py:106-107 | index i > 0 is the i-th test, 0 and below count back from the last, anything else raises |
| OverrideValues.AddressedExactly | init_suite.py:105-107 | the overrides of a test are those whose index means it, in order |
| OverrideValues.LastWins | init_suite.py:105-122 | of several overrides with a scalar at one path the last one wins, and what none mentions stays |
| OverrideValues.OverriddenIsFold | init_suite.py:105-107 | each test becomes the fold of the overrides addressed to it; an error exactly if an index is out of range |
| ProcessOverride.OverrideTests | init_suite.py:105-107 | the loop on the suite's own dicts does this |
| ProcessOverride.InPlaceFoot | init_suite.py:122 | a merge whose result is thrown away: the left object holds the effect, made of objects of both sides |
| OverrideValues.MadeIsFold | init_suite.py:114-129 | with distinct names the i-th cluster gets the fold of the config with overrides 0..i, or none if that is empty |
| ClusterOverrides.TurnAt | init_suite.py:116-129 | one turn: merge into the config, store a copy or none; the overrides of earlier turns hold what Stepped says |
| ClusterOverrides.ClusterConfigs | init_suite.py:112-129 | for one test: every cluster's stored config is the fold up to it and still is after all later merges, clusters the test had before stay unless named again, and each override is left holding what Left says |
| SharedShapes.SteppedInHeap | init_suite.py:26-36 | what a merge into the config makes of an override that shares objects with it |
| SharedShapes.SteppedAligned | init_suite.py:26-36 | config and override go on sharing objects at the same paths only |
| SharedTies.MergeTie | init_suite.py:33-35 | which parts of an override a merge stores by reference |
| SharedTies.SteppedErases | init_suite.py:26-36 | the value of the override after a further merge |
| SharedTies.SteppedTie | init_suite.py:26-36 | and which parts are still shared then |
| Sharing.UntouchedExactly | init_suite.py:26-36 | a further merge leaves an override as it was if and only if it adds nothing to a shared part |
| Sharing.AsReadExactly | init_suite.py:114-122 | an override is as read after each of its turns if and only if no later override adds anything to a part of it that was stored by reference |
| Sharing.EveryTestExactly | init_suite.py:114-122 | the same for all overrides and the configs of all tests |
| Sharing.TwoOverridesExactly | init_suite.py:114-122 | the first of two overrides is as read at the end if and only if the second adds nothing to its shared parts |
| Sharing.FlatUndisturbed | init_suite.py:114-122 | of an override without nesting nothing is ever shared |
| Sharing.WrittenThroughTheConfig | init_suite.py:33-35 | two overrides with one dict or list each under a key the config lacks: the first ends up holding both merged |
| Sharing.PutBack | init_suite.py:114-122 | looking at the end only is not enough: a third override can put back what the second changed |
| ClusterOverrides.ClustersOfTests | init_suite.py:112-129 | as long as nothing is added to a shared part, every test gets the folds, and so does the first test in which something is |
| ClusterOverrides.NextTest | init_suite.py:112-129 | the test after that, up to the first override that is not as read, gets the folds of what is left of the overrides |
| ClusterOverrides.NextTestExactly | init_suite.py:112-129 | for any config of that test and any cluster all of whose earlier overrides were left as read: it gets what it should if and only if what is left of its override, merged over the config so far, comes to the same as the override that was read |
| Sharing.SameOverExactly | init_suite.py:16-36 | when two overrides come to the same over one config, key by key |
| ClusterOverrides.NextTestWithoutConfig | init_suite.py:112-129 | without a config of its own the first cluster is right if and only if the first override was left as read |
| ClusterOverrides.NextTestWrong | init_suite.py:112-129 | a family of inputs on which it gets a wrong one |
| OverrideRun.PopConfigs | init_suite.py:114-115 | the config of every test is taken off it, a new empty one for a test without; configs and what is left of the tests are as they were; it stops exactly at a test whose own clusters are not a dict |
| OverrideRun.ConfigsApart | init_suite.py:114-115 | the popped configs share nothing, the new ones included |
| OverrideRun.Process | init_suite.py:105-130 | the whole function: it raises if and only if an index is out of range or, with clusters given, a test's own clusters are not a dict; else every test is the fold of the overrides addressed to it, and each of its clusters has the fold of the config popped off that, the overrides being undisturbed by all tests but the last |
| Images.CandidatesExactly | compute/onecloud.py:606-658 | which images are candidates: never Windows; arch and site count only if some image matches; the platform always counts |
| ImageChoice.CandidatesInOrder | compute/onecloud.py:606-658 | the candidates are the images that pass, in list order |
| Images.Narrow | compute/onecloud.py:606-658 | the step-by-step narrowing computes them |
| Images.SortByProximity | compute/onecloud.py:506-520 | the stable sort by version distance, or the list as it was for an unreadable version |
| Images.SortedOrdered | compute/onecloud.py:506-520 | sorted, and a permutation |
| Images.FirstOfSorted | compute/onecloud.py:734-746 | picking from the sorted list picks the nearest usable image, the earliest of the nearest |
| Images.PickImage | compute/onecloud.py:685-759 | version matches first, then the fallback |
| Images.Resolve | compute/onecloud.py:523-775 | the method computes the choice that ImageChoice describes |
| ImageChoice.ResolvedExactly | compute/onecloud.py:660-775 | the choice with a non-empty list, by positions: the preferred id if it is not excluded and some candidate has it; else the first candidate with a usable id, of the wanted version if some usable one has it, or the nearest one if only excluded ones have it; else the preferred id if it is not excluded and not listed as Windows; else none |
| ImageChoice.ListedWindowsExactly | compute/onecloud.py:760-775 | listed as Windows means that the first image listed under the id is one |
| ImageChoice.WithoutList | compute/onecloud.py:573-604 | without a list it is the preferred id, whatever is excluded |
| Images.NeverExcluded | compute/onecloud.py:660-775 | with a non-empty list the choice is never excluded, comes from the candidates or is the preferred one, and fails exactly if no candidate is usable and the preferred image is no way out |
| Images.ExcludedExactly | compute/onecloud.py:573-604 | an excluded id comes back if and only if there is no list and it is the preferred one |
| Images.NeverWindows | compute/onecloud.py:606-775 | with unique ids a listed Windows image is never chosen |
| Images.FirstVersionMatch | compute/onecloud.py:703-726 | the first usable version match is taken |
| Images.Fallback | compute/onecloud.py:703-759 | if no usable candidate has the wanted version: the nearest usable one is taken if some candidate has that version, and else the first usable one of the list |
| Images.FallbackNearestExactly | compute/onecloud.py:703-759 | so the choice is the nearest usable candidate if and only if some candidate has the wanted version or none behind the first usable one is strictly nearer |
| Images.FirstInsteadOfNearest | compute/onecloud.py:703-734 | wanted 9.7, listed 8.4 and 9.6: 8.4 is chosen |
| Images.Deploy | ceph/utils.py:586-649 | at most 5 posts, each the choice given the rejected ones before it; all but the last rejected and pairwise different; every way it can end |
| Images.PostsDiffer | ceph/utils.py:586-649 | with non-empty listings all posts are of different images |
| Images.RepeatsExactly | ceph/utils.py:627-628 | the last post repeats one exactly if its listing was missing or empty and the preferred image had been rejected |
| Images.FailedListingsRepeat | ceph/utils.py:627-628 | with every listing failing and every create rejected, the preferred image is posted twice |
| DnsReport.IndexByIp | utility/ibm_dns_report.py:111-115 | exactly the addresses of the listed instances, each with the name of the last instance that has it |
| DnsReport.GenerateReport | utility/ibm_dns_report.py:106-230 | one entry per record, in order, on the list its status says, with the record's own fields |
| ReportExact.StatusExactly | utility/ibm_dns_report.py:131-213 | the status of a record by its own fields: active if a listed instance has the address (an A record's data, a PTR record's name), whatever is excluded; else excluded if the host of its DNS name is; else an orphan |
| ReportExact.HostIs | utility/ibm_dns_report.py:131-213 | the host is what is before the first dot of an A record's name or of a PTR record's target |
| ReportExact.DescribesExactly | utility/ibm_dns_report.py:140-213 | an entry has the record's id and zone, and name and address each from the right field for either type |
| ReportExact.ThoseExactly | utility/ibm_dns_report.py:131-225 | each list takes, in order, exactly the records of its status |
| DnsReport.Partition | utility/ibm_dns_report.py:131-225 | every A and PTR record is on exactly one list, no other is; orphans are neither live nor excluded, active ones are |
| DnsReport.GroupByZone | utility/ibm_dns_report.py:286-291 | the groups, in order of first appearance |
| ReportExact.ZonesExactly | utility/ibm_dns_report.py:286-291 | the zones come in the order of their first entries |
| ReportExact.InZoneExactly | utility/ibm_dns_report.py:286-291 | a group holds the entries of its zone, in order |
| DnsReport.RegroupedAll | utility/ibm_dns_report.py:286-293 | grouping loses and repeats no entry |
| DnsReport.DeleteOrphans | utility/ibm_dns_report.py:265-366 | successful + failed is the number of orphans for every failure pattern; successful counts the accepted calls; a dry run makes no call |
| ReportExact.AcceptedExactly | utility/ibm_dns_report.py:320-351 | successful is the number of calls that were accepted |
| DnsReport.CallsAreReachable | utility/ibm_dns_report.py:293-351 | one call per entry whose zone id is known, under that id |
| ReportExact.ReachableAt | utility/ibm_dns_report.py:293-351 | a zone whose id is known is deleted in one go, its entries in order, after the zones before it |
| ReportExact.ZoneIdExactly | utility/ibm_dns_report.py:296-315 | the zone id is that of the zone's first entry if it has one, else the one the service knows for the name |
| DnsReport.ReachableExactly | utility/ibm_dns_report.py:296-315 | which entries those are |
| DnsReport.DeletedOnce | utility/ibm_dns_report.py:315-351 | no record is deleted twice, record ids being unique |
| DnsReport.AnnotateZones | utility/ibm_dns_report.py:483-487 | every entry gets the zone id of the first record of its id |
| ReportExact.AnnotatedExactly | utility/ibm_dns_report.py:483-487 | only the zone id changes, to that of the first record with the entry's id |
| DnsReport.OnlyOrphansAreDeleted | utility/ibm_dns_report.py:475-491 | report and deletion together: every delete call is for a record that is an orphan, by its own id, in the zone that was looked up for its zone's name |
| DnsReport.CallsInOwnZones | utility/ibm_dns_report.py:286-351 | all calls are in the zones of their records if and only if each orphan that gets a zone id gets its own |
| DnsReport.OwnZonesExactly | utility/ibm_dns_report.py:286-351 | that is, if and only if no two orphans whose zones have one name have different zone ids |
| DnsReport.TwoZonesOneName | utility/ibm_dns_report.py:286-315 | two zones of one name with an orphan each: one of the two is deleted under the other zone's id |
| DnsReport.OrphansDeletedOnce | utility/ibm_dns_report.py:475-491 | report and deletion together: with unique record ids no record is deleted twice |
| MonAddress.PatternAgreesWithLastResort | utility/odf_defaults.py:252-258 | where the port pattern matches it gives what the last resort would |
| MonAddress.HostOfPrinted | utility/odf_defaults.py:250-258 | before a port the host is everything up to the port, unless a slash cuts it |
| MonAddress.RoundTripExactly | utility/odf_defaults.py:242-258 | parsing the printed address gives the host back if and only if it is plain |
| MonAddress.NonceIgnored | utility/odf_defaults.py:250-251 | a trailing nonce does not matter |
| MonExact.HostOfParts | utility/odf_defaults.py:242-258 | from an address put together of white space, brackets, a tag, host, port and nonce the host is read |
| MonAddress.BracketedHost | utility/odf_defaults.py:242-258 | an IPv6 address in brackets with a port is read without the opening bracket, and that host is plain |
| MonAddress.TaggedBracketedHost | utility/odf_defaults.py:242-258 | behind a tag it is read with both brackets, and that host is not |
| Monmap.PrefersV2 | utility/odf_defaults.py:268-279 | the first usable v2 address, else the first usable v1 address, else the plain strings |
| Monmap.Cluster.SetAddrs | utility/odf_defaults.py:317-326 | set-addrs replaces the addresses of the named mon, or nothing |
| Monmap.ApplyV2Only | utility/odf_defaults.py:282-337 | the loop leaves the monmap and the failures as specified |
| MonExact.AppliedEach | utility/odf_defaults.py:311-330 | after any run, each mon for itself: with a name, a readable address and an accepted command it has just [v2:HOST:3300/0], and else it is as it was, whatever failed before |
| MonExact.FailuresExactly | utility/odf_defaults.py:305-337 | one failure for each mon without a name or a readable address or whose command raises, in the order of the dump |
| Monmap.VerifyMonmap | utility/odf_defaults.py:411-434 | nothing is reported if and only if every mon advertises v2 only; the reports are those of the single mons |
| MonExact.MismatchesExactly | utility/odf_defaults.py:411-434 | what the check reports of a mon: of its address vector if it has one, and else of its plain string, by the marks it contains |
| MonExact.ContainsExactly | utility/odf_defaults.py:425-434 | containing a mark |
| Monmap.NoFailuresNoMismatch | utility/odf_defaults.py:282-337 | after a run without failures the check reports nothing |
| Monmap.AppliedExactly | utility/odf_defaults.py:311-330 | then each mon has exactly its own host as v2 address |
| Monmap.FixpointExactly | utility/odf_defaults.py:311-330 | which monmaps a faultless run keeps |
| Monmap.ApplyTwiceExactly | utility/odf_defaults.py:282-337 | a second run changes and reports nothing if and only if all hosts are plain |
| Monmap.SecondRunChanges | utility/odf_defaults.py:282-337 | with such an address a second run changes what the first one stored |
| LogScanner.Extract | utility/rgw_command_extractor.py:119-145 | the one-pass scanner equals the recursive description |
| ScanExact.SegmentsExactly | utility/rgw_command_extractor.py:119-145 | by line numbers: a segment is a command line with the cleaned lines up to the next command line; the one behind the last is open |
| LogScanner.CollectedExactly | utility/rgw_command_extractor.py:129-141 | exactly one entry for each hash of a closed segment with output |
| ScanExact.CollectedInOrder | utility/rgw_command_extractor.py:129-141 | one entry for each segment with output that is the first of its hash, in order, with its own command and the output of its own lines |
| LogScanner.SegmentsOfTwo | utility/rgw_command_extractor.py:119-145 | splitting two parts: the segments of each, and the one open at the cut if the second part closes it |
| LogScanner.Directory.SaveToRemote | utility/rgw_command_extractor.py:148-174 | an entry is added to its subcommand's file if its hash is new there |
| LogScanner.SavedExactly | utility/rgw_command_extractor.py:165-172 | a file then holds its old hashes and the new ones addressed to it, each once |
| ScanExact.SavedInOrder | utility/rgw_command_extractor.py:165-172 | a file keeps its entries and gets, behind them and in order, those addressed to it whose hash is new |
| LogScanner.SavingTwice | utility/rgw_command_extractor.py:165-172 | saving the same entries again changes nothing |
| LogScanner.ProcessLogFile | utility/rgw_command_extractor.py:188-214 | the buffered loop scans and saves chunk by chunk |
| ScanExact.ChunksExactly | utility/rgw_command_extractor.py:188-214 | the k-th chunk is lines 1000 k to 1000 k + 999 |
| ScanExact.ProcessedInTurn | utility/rgw_command_extractor.py:188-214 | the chunks are scanned and saved one after the other |
| LogScanner.ChunkSegmentsExactly | utility/rgw_command_extractor.py:188-214 | for any number of parts: they give the segments of the whole if and only if no segment open at the end of one is closed later on, and never more |
| LogScanner.ChunksAgreeExactly | utility/rgw_command_extractor.py:188-214 | the same for the chunks of a file |
| LogScanner.ProcessedExactly | utility/rgw_command_extractor.py:188-214 | which hashes each file holds in the end: its old ones and those the scan of some chunk addressed to it, each once |
| LogScanner.ChunkLosesCommand | utility/rgw_command_extractor.py:188-214 | a file of 1001 lines of which nothing is saved although it holds a whole command |

## Left out

- SSH, HTTP and the Kubernetes, IBM Cloud and OneCloud clients: replaced by abstract stores and fault choices.
- Parallel.Pool.AwaitAll: the clock is a number of sweeps; after the deadline `result()` still blocks, which is not modelled, and neither are thread-pool internals.
- Batches.AlwaysBounded: the pool's own limit on workers is not modelled; it could only lower the number of items in flight.
- K8sNames.SanitizeGivesLabel: Unicode lower-casing is a parameter; only that it leaves lower-case labels alone is used, and only for idempotence.
- NodeNames.VmNameShape: lower-casing is a parameter that works part by part, up to the characters that are replaced anyway; in Python the final sigma is the one letter whose lower case depends on its neighbours, and it is replaced.
- OcpCluster.SafeExactly: each worker has a VM name of its own and no two names share a Secret, which RunWorkersSeparate gives for the nodes of a run with a cleaned prefix of up to 57 characters; for workers of any kind there is NeverLacksExactly. The clean-up by name pattern, which deletes through node objects of its own, is not one of the workers.
- OcpNode.CephVMNodeOCP.Create: errors raised after the Secret was made and before line 1467 leave the Secret behind; the contract says nothing about them.
- OcpNode.SetupVmNode: a failure of the node object's own constructor, and the clean-up for it, are not modelled.
- The clean-up of nodes, Secrets and DataVolumes by name pattern, and the LimitRange and quota checks of OCP Virtualization.
- `wait_for_datavolume_succeeded` and `WaitUntil` of ceph/waiter.py: each wait of OcpNode is given the answers of its polls, any number of them, and the timeout is where they end; a model of the clock would only add easy members.
- DnsExact.DeadService: counts calls; the seconds slept between them are counted by Retry.ExhaustedDnsLoop and by DeadDecorated.
- PagedServers.GetAllPages: the links lead from page to page; reading the offset out of the link's URL is abstracted to "usable or not". A server that mixes empty pages with links without offsets is not described beyond the single step.
- DnsProofs.AddDnsRecordsCorrect: the server is taken to hold at most one record per (type, name), which the code relies on as well; updating and removing records are not modelled.
- Provision.CreateNodes: credentials, quota and the image lookup are left out; the operating system's user name stands as the instance name.
- OsdVolumes.CephNode.CreateCephObject: volumes and objects are values in the node's lists, so aliasing between nodes is not captured; the role pool, for which the factory returns nothing, is excluded, as it is by the constructor's own filter.
- MergeHeap.MergeDicts: the two trees share no object beforehand (no YAML anchors across or inside files), and dict order is not kept.
- OdfMerge.MergeOdf: the two trees share no object within themselves, and dict order is not kept.
- ClusterOverrides.NextTest: of the tests after one that adds to a shared part, only the first is described, and that up to the first override that is no longer as read; by then the overrides can share objects with each other.
- ClusterOverrides.TurnAt: a scalar is an integer, with 0 for every false value; reading and globbing the YAML files is left out.
- OverrideRun.Process: the configs of all tests are popped before the first cluster loop rather than one by one, and all tests' own clusters are looked at then; the tests share nothing, so only what is left behind by an error differs. It covers the runs in which the overrides stay as read up to the last test; for the test after one that changes them there is NextTest.
- Images.CandidatesExactly: the predicates on one image (name patterns, architecture aliases, site fields) are answers given with the image; versions are real numbers, not floats.
- DnsReport.GenerateReport: instances that could not be listed are not in the input, and their records count as orphans; the CSV file and its columns' formatting are left out.
- DnsReport.OnlyOrphansAreDeleted: record ids are unique.
- DnsReport.OwnZonesExactly: every record carries the id of its zone, as the report gives it one; for records without it there is CallsInOwnZones.
- Monmap.ApplyV2Only: JSON decoding is a yes or no; `ceph mon set-addrs` is taken to store the printed v2 address as HOST:3300.
- The config and OSD ratio parts of `verify_odf_defaults`: comparisons of looked-up values.
- LogScanner.Extract: line cleaning, command matching, JSON reading and hashing are arbitrary functions.
- run.py, reporting, e-mail, Polarion and Report Portal output, the other clouds and the cleanup utilities.
