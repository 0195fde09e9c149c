# Address allocation in the VM DHCP controller, verified

This project models how vm-dhcp-controller hands out IPv4 addresses to virtual machines, and proves
what its stores, its controllers and its agent guarantee together.

Four stores have to agree while API writes fail, handlers are retried, objects are paused and
processes restart:

* the in-memory address allocator (`Ipam.IPAllocator`),
* the in-memory MAC cache (`MacCache.CacheAllocator`),
* the durable `IPPool.Status.IPv4.Allocated` map (`Stores.Pool`),
* the agent's pool cache and DHCP lease table (`Agent.Controller`, `Dhcp.DHCPAllocator`).

`dafny verify dfyconfig.toml` checks everything.

## How it is organised

| file | part |
|---|---|
| `Basics.dfy` | addresses, MACs, conditions, results |
| `Prefix.dfy` | octet-wise CIDR arithmetic and its meaning on numbers |
| `Admission.dfy` | the IPPool webhook: mutator and validator |
| `Ipam.dfy`, `MacCache.dfy` | the two in-memory allocators |
| `Stores.dfy` | IPPool and VirtualMachineNetworkConfig objects, the API server, the joint state |
| `VmNetCfg.dfy`, `VmNetCfgHandler.dfy` | vmnetcfg controller: the relation of each handler run, and the code |
| `PoolControl.dfy`, `PoolHandler.dfy` | ippool controller, likewise |
| `Handshake.dfy`, `VmHandler.dfy` | the InSynced handshake over a versioned store, and the VM controller |
| `Dhcp.dfy`, `Agent.dfy` | lease table, DHCP reply, and the agent's update |
| `Agreement.dfy` | both allocators agree in every run, at every exit |
| `Retries.dfy`, `SyncLaws.dfy` | what repeated Allocate runs consume, what one Sync or cleanup releases |
| `PoolLaws.dfy`, `PoolReports.dfy` | admission, rebuild, marks and counts of one pool; what its status says over every run |
| `FreeRuns.dfy` | runs without any guard: rebuilds never fail, the counts add up |
| `Invariant.dfy`, `Runs.dfy` | the invariant that ties memory to the durable status, over whole runs |
| `Recovery.dfy` | publication, crash safety, exact rebuilds, and exactly where publication ends |
| `Sticky.dfy` | when a MAC gets the address it had, in one round and while it is published as allocated |
| `Resume.dfy` | the same from pause to resume and beyond; how long a chosen address survives |
| `MovedNics.dfy` | a NIC moved to another network, served exactly when its old address can be taken there |
| `AgentLaws.dfy`, `EndToEnd.dfy` | the agent refines the pool status; what clients are answered |
| `Reachability.dfy`, `Witnesses.dfy`, `Rebinding.dfy` | which answers some run can give; runs into the states in which the code goes wrong |

A handler run is one step. Its relation (`AllocateExit`, `CleanupExit`, `SyncExit`, `BuildExit`, ...)
lists every way the run can end, each API write being free to land, to conflict or to be refused. The
classes run the code of the handlers, with real arrays where the Go code shares slices, and are proved
to stay within the relation; the laws about runs are proved on the relations. How the API server answers
each write is given to it from outside: a handler that blames a write has made one that did not land. Go map iteration is an
arbitrary choice of the next key.

## Main results

* **In-memory agreement** (`Agreement.AllocatorsAgreeInEveryRun`). Whatever sequence of handlers runs
  and wherever each one stops, the two allocators know the same networks, the addresses marked taken
  are exactly the cached ones, and no two MACs share one. Cleanup frees by address and forgets by MAC,
  so this holds exactly while cleaned-up records are current
  (`Agreement.CleanupOneConsistentExactly`), and after a rebuild exactly when no MAC is recorded twice
  (`PoolLaws.ReplayAgreesExactly`).
* **Every run** (`FreeRuns.RebuildNeverFails`, `FreeRuns.RunsConserve`, `EndToEnd.RepliesAreSound`). With no
  guard at all (any handler on any object, stopped anywhere, any write lost, restarts, pools paused and
  resumed and their agents redeployed at any point) BuildCache of a pool that is not paused succeeds,
  used + available is the size of the pool, and pool OnChange keeps every MAC record.
* **Recorded until released** (`Recovery.RecordedUntilReleased`, `Recovery.PublishedIsDurable`). From here on
  a run has two guards: cleaned-up records are current, and the erasure that follows a release is not
  lost. Both are needed: a run leads to a paused object whose second cleanup takes the address of another
  MAC (`Witnesses.SecondCleanupTakesAddress`), and a lost erasure breaks the invariant
  (`Recovery.EraseMustLand`). An address recorded for a MAC then stays recorded until a cleanup releases
  exactly that, and a published address is in the durable pool status unless a cleanup released it while
  the object went on publishing it.
* **Where publication ends** (`Recovery.DurableExactly`, `Recovery.InterruptedExactly`,
  `Witnesses.InterruptionIsReached`). Throughout a run everything published is durable if and only if every
  step takes off the objects what it released. A cleanup can stop half way although every write lands,
  when a later record is on a network that is not in memory; the earlier addresses then stay published
  and are no longer recorded, and a run leads there. With MACs unique across objects, and handlers that
  free addresses finishing and landing their writes, it cannot happen (`Recovery.OrderlyRunsAreDurable`).
* **Crash safety** (`Recovery.CrashSafe`, `Recovery.CrashSafeObject`, `Recovery.RestartRestores`). In every
  state of every run, with restarts anywhere before it, a run of Allocate that succeeds publishes the
  recorded address for every recorded NIC that was not released. If all NICs of the object are recorded,
  it changes nothing, and succeeds exactly when all their pools are ready and in memory; rebuilding them
  after a restart makes it so.
* **Sticky addresses** (`Sticky.StickyExactly`, `Sticky.ObjectIsSticky`, `Resume.ObjectStaysSticky`). The
  lookup of a recorded address ignores the network, so a MAC on two networks can get the address of the
  other one (`Sticky.OtherNetworkWins`); the exact condition is proved. Over whole runs, an object that
  keeps a NIC, and uses its MAC on no other network, gets the remembered address for it from every
  Allocate that succeeds: through pauses and resumes, any number of failed attempts, restarts, and
  whatever else runs in between (`Resume.ResumeIsSticky`), as long as no other object is served with the
  same NIC at another address. A NIC moved to a network whose pool
  does not manage the old address is never served again (`MovedNics.MovedNicStaysStuck`).
* **Handshake safety** (`Handshake.HandshakeSafe`). With stale reads and lost writes, the configs of a
  spec change only while InSynced is False, and whenever it is not False every record's MAC is in the
  spec. The wrapper reports a conflict as success, so this holds exactly unless Sync's bounded conflict
  retry runs out with a record outside the spec (`Handshake.WrapperSafeExactly`,
  `Handshake.ConflictLooksLikeSuccess`).
* **End to end** (`EndToEnd.RepliesAreSound`, `EndToEnd.LockstepAnswersExactly`). Two clients are never
  answered with one address, and none with the network, broadcast, server, router or an excluded
  address, over every controller run and for any order of snapshots that rebinds no address the agent
  holds. An agent that is handed every version needs no such guard and answers exactly what the pool
  status records. With rebinding the code can answer two clients with one address, and a run of the
  controller leads there if the agent misses versions (`Rebinding.MissedVersionsShareAnAddress`). Over all runs,
  a client can be answered with an address if and only if the pool manages the address and the client's
  hardware address is well formed (`Reachability.AnswerableExactly`).
* **Admission** (`Admission.PipelineExact`, `PoolLaws.AdmissionPipeline`). Of the pools the mutator lets
  through, the validator accepts exactly the sound ones, and the allocator can build each of them.

## Where the code differs from what one would expect

* `cleanup` on a paused object runs again on every change and on removal; if its address was given to
  another MAC in between, it frees that MAC's address. The record is then not current.
* `Sync` compares MACs only: a NIC moved to another network keeps its old record, its old address is not
  released, and Allocate asks for that address on the new network (`SyncLaws.MovedNicKeepsAddress`,
  `Witnesses.MovedNicIsReached`).
* The wrapper reports an Allocate that gave up on a conflict as Allocated, with the records there were
  before (`Retries.AllocatedTruthfulExactly`).
* `checkCIDR` returns no error for a CIDR that does not parse; `LoadPool` has refused it by then.
* `ensurePoolRange` on 255.255.255.255/32 writes the text of the invalid address into the range; the
  validator then refuses the pool.
* `NewIPSubnet` steps through IPv4-mapped 16-byte addresses, so `Next` and `Prev` do not stop at the
  ends of the IPv4 space there, while the webhook works on 4-byte addresses, where they do.

## Model

| member | source | states |
|---|---|---|
| `Prefix.FillHostBits` | pkg/util/network.go:70-74 | the byte loop sets exactly the bits outside the mask |
| `Prefix.LoadCIDR` | pkg/util/network.go:58-82 | fails exactly on an unparsable CIDR; otherwise network and broadcast are the first and last number of the block |
| `Prefix.BroadcastFromEither` | pkg/ipam/ipam.go:42-47 | the broadcast computed from the unmasked host address equals the one computed from the masked address, for every prefix length |
| `Prefix.ContainsMeans` | pkg/webhook/ippool/validator.go:175-204 | the octet-wise Contains test is the interval test network <= x <= broadcast |
| `Prefix.OverlapTest` | pkg/webhook/ippool/validator.go:168-170 | one block contains the other's base address if and only if the blocks share an address |
| `Admission.EnsureServerIP` | pkg/webhook/ippool/mutator.go:90-137 | without a given server, the smallest address strictly inside the block that is neither router nor excluded; fails exactly when there is none; each error exactly for its cause; terminates at the end of the address space |
| `Admission.EnsurePoolRange` | pkg/webhook/ippool/mutator.go:139-187 | missing ends default to network + 1 and broadcast - 1, given ends stay, for every block with room inside; refused exactly when start exceeds end, the invalid address sorting first on smaller blocks |
| `Admission.MutateCreate` | pkg/webhook/ippool/mutator.go:33-75 | yields a defaulted pool, and fails only when no pool is one |
| `Admission.CheckCIDRExact` | pkg/webhook/ippool/validator.go:157-173 | accepts exactly the blocks disjoint from the service block |
| `Admission.CheckInsideExact` | pkg/webhook/ippool/validator.go:175-204 | the three tests pass exactly for addresses strictly between network and broadcast |
| `Admission.CheckServerExact` | pkg/webhook/ippool/validator.go:217-245 | passes exactly for an unset server or one strictly inside, not the router and not occupied |
| `Admission.PipelineExact` | pkg/webhook/ippool/validator.go:42-73 | after defaulting, the validator accepts exactly the sound pools |
| `Admission.TinyBlocksRefused` | pkg/webhook/ippool/validator.go:175-204 | no pool on a /31 or /32 block is admitted |
| `Admission.DefaultRange` | pkg/webhook/ippool/mutator.go:155-172 | what the mutator leaves as start and end, on numbers |
| `Admission.PlainPoolsAdmitted` | pkg/webhook/ippool/mutator.go:33-75 | a pool that names only its block, and a router or none, is defaulted in exactly one way, and admitted if and only if the block is disjoint from the service block and the router lies strictly inside |
| `Admission.RefusedBecause` | pkg/webhook/ippool/validator.go:175-204 | each reason for refusing an address exactly for its cause |
| `PoolLaws.AdmissionPipeline` | pkg/webhook/ippool/mutator.go:139-187 | an admitted pool is accepted by NewIPSubnet and every expanded address is strictly between network and broadcast |
| `PoolLaws.AdmittedIsBuildable` | pkg/ipam/ipam.go:49-73 | a sound pool passes every test of NewIPSubnet, and 0.0.0.0 is in no range |
| `PoolLaws.PooledIsClean` | pkg/controller/ippool/controller.go:378-396 | a pooled address is strictly inside the block and is not server, router or excluded |
| `Ipam.Addresses` | pkg/ipam/ipam.go:75-79 | exactly the addresses from start to end |
| `Ipam.AddressesSize` | pkg/ipam/ipam.go:75-79 | there are end - start + 1 of them |
| `Ipam.IPAllocator.NewIPSubnet` | pkg/ipam/ipam.go:36-92 | succeeds exactly on buildable arguments; the subnet then holds exactly the range, all free; terminates |
| `Ipam.IPAllocator.DeleteIPSubnet` | pkg/ipam/ipam.go:94-96 | forgets that network only |
| `Ipam.IPAllocator.AllocateIP` | pkg/ipam/ipam.go:103-153 | takes one free address, the designated one if any; fails, changing nothing, exactly when none qualifies; for any iteration order |
| `Ipam.IPAllocator.DeallocateIP` | pkg/ipam/ipam.go:155-178 | frees exactly a taken address, otherwise an error and no change |
| `Ipam.IPAllocator.RevokeIP` | pkg/ipam/ipam.go:180-192 | removes the address from the subnet |
| `Ipam.IPAllocator.IsAllocated` | pkg/ipam/ipam.go:194-211 | the state of a managed address, an error exactly for others |
| `Ipam.IPAllocator.GetUsed` | pkg/ipam/ipam.go:213-231 | the number of taken addresses |
| `Ipam.IPAllocator.GetAvailable` | pkg/ipam/ipam.go:233-251 | the number of free addresses |
| `Ipam.Count` | pkg/ipam/ipam.go:224-228 | the counting loop gives the size of the set, in any order |
| `Ipam.ExhaustedExactly` | pkg/ipam/ipam.go:134-152 | an undesignated allocation has no candidate exactly when available is 0 |
| `Ipam.UsedPlusFree` | pkg/ipam/ipam.go:213-251 | used and available add up to the addresses of the subnet |
| `MacCache.CacheAllocator.NewMACSet` | pkg/cache/cache.go:28-33 | an empty set for the network |
| `MacCache.CacheAllocator.DeleteMACSet` | pkg/cache/cache.go:35-37 | forgets that network only |
| `MacCache.CacheAllocator.AddMAC` | pkg/cache/cache.go:39-51 | binds the MAC on a known network, otherwise an error and no change |
| `MacCache.CacheAllocator.DeleteMAC` | pkg/cache/cache.go:53-65 | forgets the MAC on a known network, otherwise an error and no change |
| `MacCache.CacheAllocator.HasMAC` | pkg/cache/cache.go:67-79 | membership on a known network |
| `MacCache.CacheAllocator.GetIPByMAC` | pkg/cache/cache.go:81-96 | the bound address, an error exactly when there is none |
| `VmNetCfg.AllocateOneCases` | pkg/controller/vmnetcfg/controller.go:127-214 | one round changes memory in at most one way, and the pool status exactly when it succeeds |
| `VmNetCfgHandler.CfgObject.constructor` | pkg/generated/controllers/network.harvesterhci.io/v1alpha1/virtualmachinenetworkconfig.go:98-99 | a deep copy with a record slice of its own |
| `VmNetCfgHandler.Handler.FindRecordedIP` | pkg/controller/vmnetcfg/controller.go:342-349 | the first non-empty address recorded for the MAC |
| `VmNetCfgHandler.Handler.EnterInPool` | pkg/controller/vmnetcfg/controller.go:190-214 | the status comes to record the address, with exactly one write unless it already does; a failure follows that write |
| `VmNetCfgHandler.Handler.AllocateRound` | pkg/controller/vmnetcfg/controller.go:127-214 | stays within AllocateOne: every branch and error of one loop round; a write failure follows an attempted write |
| `VmNetCfgHandler.Handler.Allocate` | pkg/controller/vmnetcfg/controller.go:114-225 | stays within AllocateExit at every exit; a write failure follows an attempted write |
| `VmNetCfgHandler.Handler.EraseInPool` | pkg/controller/vmnetcfg/controller.go:315-336 | erases the address with at most four attempts, trying again exactly on conflict, or fails after its last attempt leaving the status as it was |
| `VmNetCfgHandler.Handler.CleanupRound` | pkg/controller/vmnetcfg/controller.go:291-336 | stays within CleanupOne: frees by address, forgets by MAC, then erases |
| `VmNetCfgHandler.Handler.Cleanup` | pkg/controller/vmnetcfg/controller.go:286-340 | works off all records, or exactly the stale ones, until one fails |
| `VmNetCfgHandler.Handler.Sync` | pkg/controller/vmnetcfg/controller.go:229-270 | marks through the shared slice what cleanup then reads; stays within SyncExit |
| `VmNetCfgHandler.Handler.StatusSync` | pkg/generated/controllers/network.harvesterhci.io/v1alpha1/virtualmachinenetworkconfig.go:93-130 | publishes the records the handler returned, or the old ones on error, and its condition, False for every error but a conflict; no write only if the status says so already, unchanged only then or when the write did not land |
| `VmNetCfgHandler.Handler.SuspendAll` | pkg/controller/vmnetcfg/common.go:10-14 | every record becomes pending in place, nothing else changes |
| `VmNetCfgHandler.Handler.OnChange` | pkg/controller/vmnetcfg/controller.go:81-110 | a paused object is cleaned up before it is published as disabled and pending; any other as not disabled; no write only if the status says so already |
| `VmNetCfgHandler.Handler.OnRemove` | pkg/controller/vmnetcfg/controller.go:272-284 | the object goes exactly when its cleanup succeeded and the write landed |
| `PoolHandler.Handler.RevokeExcluded` | pkg/controller/ippool/controller.go:390-396 | removes exactly the excluded addresses |
| `PoolHandler.Handler.InitStores` | pkg/controller/ippool/controller.go:364-396 | a fresh subnet with exactly the range less server, router and excludes, and an empty MAC set |
| `PoolHandler.Handler.Replay` | pkg/controller/ippool/controller.go:398-412 | takes back MAC records in any order; fails only if one lies outside the pool |
| `PoolHandler.Handler.BuildCache` | pkg/controller/ippool/controller.go:352-417 | stays within BuildExit at every exit |
| `PoolHandler.Handler.StatusSync` | pkg/generated/controllers/network.harvesterhci.io/v1alpha1/ippool.go:93-130 | publishes CacheReady according to BuildCache's result, without a write only if it is right already |
| `PoolHandler.Handler.Cleanup` | pkg/controller/ippool/controller.go:479-498 | drops both stores exactly when there was an agent pod and it is gone |
| `PoolHandler.Handler.EnterMarks` | pkg/controller/ippool/controller.go:221-234 | enters reserved and excluded marks, an exclusion winning |
| `PoolHandler.Handler.OnChange` | pkg/controller/ippool/controller.go:150-249 | stopped and without agent exactly when paused; not ready when not in memory; otherwise counts of taken and free addresses, marks by the configuration, other records kept; no write only if the status says so already |
| `PoolHandler.LoadAllocated` | pkg/util/network.go:123-140 | splits the status into MAC, excluded and reserved addresses, each address once |
| `PoolLaws.RebuildSucceedsExactly` | pkg/controller/ippool/controller.go:398-412 | BuildCache fails exactly when a recorded address is not one of the pool's |
| `PoolLaws.RebuildExact` | pkg/controller/ippool/controller.go:352-417 | taken exactly at the MAC records, cache their inverse, other networks untouched, for any iteration order |
| `PoolLaws.ReplayAgreesExactly` | pkg/controller/ippool/controller.go:398-412 | the rebuilt stores agree if and only if no MAC is recorded twice |
| `PoolLaws.MarksKeepMacs` | pkg/controller/ippool/controller.go:221-238 | no MAC record is overwritten; stripping the marks gives back exactly the MAC records |
| `PoolLaws.RefreshSettles` | pkg/controller/ippool/controller.go:240-246 | a second OnChange with unchanged IPAM has nothing to write |
| `PoolLaws.PooledSize` | pkg/controller/ippool/controller.go:378-396 | range size less the distinct withheld addresses in range |
| `PoolLaws.Conservation` | pkg/controller/ippool/controller.go:196-206 | used + available equals that size |
| `PoolReports.CountsMean` | pkg/controller/ippool/controller.go:196-246 | in every run, what OnChange publishes as used is the number of cached MACs, and used + available is the range less the withheld addresses in it |
| `PoolReports.EveryMarkTrue` | pkg/controller/ippool/controller.go:221-238 | in every run without guards, a mark is only where the configuration wants one |
| `PoolReports.MarksMean` | pkg/controller/ippool/controller.go:221-246 | after OnChange an address of the range is marked excluded exactly if listed, reserved exactly if server or router and not listed, and recorded for a MAC exactly as before |
| `Agreement.ReleaseAgreesExactly` | pkg/controller/vmnetcfg/controller.go:293-313 | freeing an address and forgetting a MAC keeps agreement if and only if the record is current |
| `Agreement.CleanupOneConsistentExactly` | pkg/controller/vmnetcfg/controller.go:291-336 | the same for one record's cleanup at any of its exits |
| `Agreement.AllocateConsistent` | pkg/controller/vmnetcfg/controller.go:126-215 | Allocate keeps the allocators in agreement at every exit |
| `Agreement.CleanupConsistent` | pkg/controller/vmnetcfg/controller.go:286-340 | so does a cleanup of current records |
| `Agreement.BuildConsistent` | pkg/controller/ippool/controller.go:364-412 | so does BuildCache when no MAC is recorded twice |
| `Agreement.UsedIsCached` | pkg/controller/vmnetcfg/controller.go:160-168 | as many addresses are taken as MACs are cached |
| `Agreement.AllocatorsAgreeInEveryRun` | pkg/controller/vmnetcfg/controller.go:126-215 | agreement in every state of every run, restarts and arbitrary pool edits included |
| `Retries.BoundedConsumption` | pkg/controller/vmnetcfg/controller.go:136-169 | any number of attempts takes at most one address per MAC of the spec, and gives none back |
| `Retries.FirstChoicePublished` | pkg/controller/vmnetcfg/controller.go:143-179 | the attempt that succeeds publishes the address an earlier attempt chose |
| `Retries.FailedAttemptKeepsChoices` | pkg/controller/vmnetcfg/controller.go:157-214 | an attempt that fails on a pool write gives nothing back: every NIC up to that one holds an address for the next attempt |
| `Retries.AllocatedTruthfulExactly` | pkg/generated/controllers/network.harvesterhci.io/v1alpha1/virtualmachinenetworkconfig.go:100-112 | after a run of Allocate, Allocated = True means that the records are those of the spec if and only if the run did not give up on a conflict or the old records were |
| `Retries.ConflictReportsAllocated` | pkg/generated/controllers/network.harvesterhci.io/v1alpha1/virtualmachinenetworkconfig.go:106-112 | an input for which Allocated becomes True with no record at all |
| `Retries.PauseRemembers` | pkg/controller/vmnetcfg/controller.go:96-97 | pausing keeps every recorded address |
| `Retries.SyncRemembers` | pkg/controller/vmnetcfg/controller.go:252-267 | so does Sync for every MAC in the spec |
| `Sticky.LookupIgnoresNetwork` | pkg/controller/vmnetcfg/controller.go:342-349 | the lookup finds the first non-empty record of the MAC on whatever network, which is the one of this network if that record is on it |
| `Sticky.SpecAddressExactly` | pkg/controller/vmnetcfg/controller.go:150-169 | a new NIC whose spec asks for an address can be served if and only if that very address can be taken, and gets that one |
| `Sticky.AnyAddressExactly` | pkg/controller/vmnetcfg/controller.go:150-169 | one whose spec asks for none, or for 0.0.0.0, may get any free address and only those |
| `Sticky.MalformedNeverServed` | pkg/controller/vmnetcfg/controller.go:150-161 | one whose spec asks for text that is no address gets none |
| `Sticky.FreeCanBeNamed` | pkg/ipam/ipam.go:111-152 | in a state of a run an address can be asked for by name exactly if it is managed and free |
| `Sticky.StickyExactly` | pkg/controller/vmnetcfg/controller.go:143-164 | for current records that name an address for this network and MAC, every successful round publishes it if and only if the MAC is still cached, or the first record of the MAC is on this network, or the address recorded first elsewhere cannot be taken here |
| `Sticky.OtherNetworkWins` | pkg/controller/vmnetcfg/controller.go:342-349 | an input where the address recorded on another network is published instead |
| `Sticky.AllocatedIsSticky` | pkg/controller/vmnetcfg/controller.go:136-214 | in every state of every run, for a record published as Allocated and not released while it was, a run of Allocate that succeeds publishes that address for every NIC with that network and MAC |
| `Sticky.ObjectIsSticky` | pkg/controller/vmnetcfg/controller.go:114-225 | if that holds for all NICs of an object, Allocate on it changes nothing, succeeds exactly when the object may be served and all its pools are ready and in memory, and publishes the same addresses |
| `Sticky.StepStaysCleared` | pkg/controller/vmnetcfg/controller.go:126-222 | a MAC that memory and pool status have forgotten on a network stays so until Allocate runs for an object that is not paused and asks for it |
| `Sticky.ReleasedIsNotDurable` | pkg/controller/vmnetcfg/controller.go:286-340 | a released record is not recorded in any later state until an unpaused object asks for the NIC |
| `Resume.StepStaysAt` | pkg/controller/vmnetcfg/controller.go:126-340 | if memory and pool status know a MAC at one address at most, and all objects that are served with the NIC remember that address, no step makes it known at another |
| `Resume.NicIsSticky` | pkg/controller/vmnetcfg/controller.go:143-179 | over every run: any object's Allocate that succeeds then publishes that address for the NIC |
| `Resume.PausedObjectRemembers` | pkg/controller/vmnetcfg/controller.go:81-110 | no step changes the address a paused object remembers for a MAC |
| `Resume.ObjectRemembers` | pkg/controller/vmnetcfg/controller.go:114-270 | nor what an object remembers for a NIC it keeps, whether the step fails, succeeds or loses its status write |
| `Resume.ObjectStaysSticky` | pkg/controller/vmnetcfg/controller.go:143-179 | over every run: an object that keeps a NIC gets the remembered address for it from every Allocate that succeeds |
| `Resume.ResumeIsSticky` | pkg/controller/vmnetcfg/controller.go:81-225 | over every run: after a record was released, as by a pause, every Allocate of the object that succeeds publishes the address it had, at any time after the resume and after any number of failed attempts |
| `Resume.ResumeRefusedOnlyIfTaken` | pkg/controller/vmnetcfg/controller.go:155-164 | where such a run is refused the address, the address could not be taken |
| `Resume.ChosenSurvivesExactly` | pkg/controller/vmnetcfg/controller.go:160-168 | with the pool ready, an address held in memory for a MAC survives a step if and only if the network stays in memory and no cleanup releases the NIC |
| `Resume.ChosenIsPublished` | pkg/controller/vmnetcfg/controller.go:136-179 | over every run: until then, a run of Allocate that succeeds publishes the address that was chosen first |
| `MovedNics.MovedNicServedExactly` | pkg/controller/vmnetcfg/controller.go:155-164 | a NIC whose MAC is recorded elsewhere can be served if and only if the address recorded there can be taken here |
| `MovedNics.MovedNicStaysStuck` | pkg/controller/vmnetcfg/controller.go:143-222 | over every run: if the pool does not manage that address, every Allocate of the object fails as long as the NIC is in the spec |
| `Witnesses.MovedNicIsReached` | pkg/controller/vmnetcfg/controller.go:244-267 | from any two admitted pools a run leads to such a NIC |
| `SyncLaws.CleanupExact` | pkg/controller/vmnetcfg/controller.go:291-338 | a successful cleanup releases exactly what its records name, in all three stores |
| `SyncLaws.CleanupErases` | pkg/controller/vmnetcfg/controller.go:291-338 | wherever a cleanup stops, exactly the addresses of the records before that point are erased from the pools |
| `SyncLaws.KeptOrLost` | pkg/controller/vmnetcfg/controller.go:252-259 | every record is kept or lost, never both |
| `SyncLaws.KeptInOrder` | pkg/controller/vmnetcfg/controller.go:252-259 | the records kept, and those lost, stand in their original order |
| `SyncLaws.MarksSelectLost` | pkg/controller/vmnetcfg/controller.go:250-262 | cleanup works on exactly the records whose MAC left the spec |
| `SyncLaws.InSyncIsLeftAlone` | pkg/controller/vmnetcfg/controller.go:236-240 | an object in sync is left alone and its wrapper has nothing to write |
| `SyncLaws.SyncExact` | pkg/controller/vmnetcfg/controller.go:244-267 | a successful Sync keeps the records in the spec, in order, and releases exactly the others |
| `SyncLaws.SyncSettlesExactly` | pkg/controller/vmnetcfg/controller.go:244-267 | every record left by a successful Sync is of a NIC in the spec if and only if no record is of a NIC moved to another network |
| `SyncLaws.MovedNicKeepsAddress` | pkg/controller/vmnetcfg/controller.go:244-267 | such a NIC: its old address is neither released nor withdrawn, and Allocate asks for it on the new network |
| `Handshake.PublishedMacs` | pkg/controller/vmnetcfg/controller.go:222-270 | what a handler publishes belongs to the spec it read |
| `Handshake.WrapperSafeExactly` | pkg/generated/controllers/network.harvesterhci.io/v1alpha1/virtualmachinenetworkconfig.go:100-112 | a wrapped handler keeps the object safe exactly unless Sync gives up on a conflict with a record outside the spec |
| `Handshake.ConflictLooksLikeSuccess` | pkg/generated/controllers/network.harvesterhci.io/v1alpha1/virtualmachinenetworkconfig.go:106-112 | an input for which that happens |
| `Handshake.StepSafe` | pkg/controller/vm/controller.go:141-163 | one step, on any version ever read, keeps safety and edits configs only while out of sync |
| `Handshake.HandshakeSafe` | pkg/controller/vm/controller.go:136-163 | the same in every state of every run |
| `Handshake.TwoRunsReach` | pkg/controller/vm/controller.go:136-163 | with writes that land, two runs of the VM controller bring the spec to what the VM asks for, touching nothing else |
| `VmHandler.CollectMacs` | pkg/controller/vm/controller.go:58-89 | a NIC has the last MAC of the template, else that of the annotation |
| `VmHandler.AttachNetworks` | pkg/controller/vm/controller.go:91-109 | exactly the NICs with a multus attachment remain, with the last one |
| `VmHandler.Derive` | pkg/controller/vm/controller.go:58-109 | exactly the NICs with both, each with its MAC and network |
| `VmHandler.DerivedMacMeans` | pkg/controller/vm/controller.go:58-89 | a NIC has the MAC of the last interface of its name with one, and that of the annotation if no interface of its name has one |
| `VmHandler.DerivedNetworkMeans` | pkg/controller/vm/controller.go:91-109 | its network is that of the last multus network of its name; without one there is no config |
| `VmHandler.DerivedNicsExactly` | pkg/controller/vm/controller.go:58-109 | exactly the NICs with a MAC and an attachment get a config |
| `VmHandler.ListConfigs` | pkg/controller/vm/common.go:19-22 | each config once, in some order |
| `VmHandler.CfgStore.Update` | pkg/controller/vm/controller.go:144 | a spec write is accepted exactly on the newest version, unless the server refuses |
| `VmHandler.CfgStore.UpdateStatus` | pkg/controller/vm/controller.go:157 | a status write is accepted exactly on the newest version, unless the server refuses |
| `VmHandler.OnMissing` | pkg/controller/vm/controller.go:117-130 | a missing object is created with the configs derived from the VM and no status, which is where the handshake starts |
| `VmHandler.OnChange` | pkg/controller/vm/controller.go:51-166 | writes exactly when the spec differs from what the VM asks for, and then what the handshake prescribes, unless the version is outdated or the server refuses |
| `Dhcp.DHCPAllocator.AddLease` | pkg/dhcp/dhcp.go:58-135 | each error exactly for its cause; otherwise exactly one lease more |
| `Dhcp.DHCPAllocator.GetLease` | pkg/dhcp/dhcp.go:143-148 | the client address of the lease is what a request of the client is answered with, no lease means no answer; storing it again would change nothing |
| `Dhcp.DHCPAllocator.DeleteLease` | pkg/dhcp/dhcp.go:150-163 | exactly that lease less, an error exactly when there is none |
| `Dhcp.DHCPAllocator.Handle` | pkg/dhcp/dhcp.go:184-282 | answers exactly discover and request packets of leased clients, with the leased address, the lease's server, mask and router, and its lease time or one year |
| `Agent.Controller.FilterExcludedAndReserved` | pkg/agent/ippool/ippool.go:65-71 | leaves exactly the MAC records in the object's own map |
| `Agent.Controller.Prune` | pkg/agent/ippool/ippool.go:25-39 | stays within the relation of the first loop |
| `Agent.Controller.AddOne` | pkg/agent/ippool/ippool.go:44-58 | one lease and one cache entry more, or nothing and the reason |
| `Agent.Controller.Extend` | pkg/agent/ippool/ippool.go:41-60 | stays within the relation of the second loop |
| `Agent.Controller.UpdatePoolCacheAndLeaseStore` | pkg/agent/ippool/ippool.go:24-63 | stays within UpdateExit at every exit |
| `Agent.Controller.Update` | pkg/agent/ippool/ippool.go:10-22 | does nothing for a pool that is not ready or has no status, otherwise updates to its MAC records |
| `AgentLaws.EveryExitAgrees` | pkg/agent/ippool/ippool.go:24-63 | from agreement, with no cached address rebound, agreement survives every exit and a missing lease cannot occur |
| `AgentLaws.OnlyBadInputFails` | pkg/agent/ippool/ippool.go:24-63 | if no MAC is named twice, duplicate leases cannot occur either; only an unusable MAC or network stops an update |
| `AgentLaws.UpdateRefines` | pkg/agent/ippool/ippool.go:24-63 | a successful update makes the cache the snapshot and the leases its exact inverse |
| `AgentLaws.AgreementExactly` | pkg/agent/ippool/ippool.go:26-31 | the leases follow if and only if no cached address is rebound |
| `AgentLaws.OrderIrrelevant` | pkg/agent/ippool/ippool.go:24-63 | any two successful updates end in the same state |
| `AgentLaws.RebindingSharesAnAddress` | pkg/agent/ippool/ippool.go:26-31 | snapshots with rebinding after which two clients are answered with one address |
| `Rebinding.MissedVersionsShareAnAddress` | pkg/agent/ippool/ippool.go:26-31 | from any admitted pool a run through four versions of it; an agent that is handed only these answers two clients with one address |
| `Invariant.AllocateOk` | pkg/controller/vmnetcfg/controller.go:190-222 | Allocate keeps the invariant and every MAC record at every exit; what it publishes is durable |
| `Invariant.CleanupAllOk` | pkg/controller/vmnetcfg/controller.go:286-340 | a completed cleanup of current records keeps the invariant |
| `Invariant.CleanupOk` | pkg/controller/vmnetcfg/controller.go:286-340 | so does a cleanup of current records wherever it stops, unless an erasure is lost |
| `Invariant.BuildOk` | pkg/controller/ippool/controller.go:352-417 | BuildCache keeps the invariant |
| `Invariant.PoolOnChangeOk` | pkg/controller/ippool/controller.go:150-249 | pool OnChange keeps it, losing and inventing no MAC record |
| `FreeRuns.EveryFreeRunFits` | pkg/controller/vmnetcfg/controller.go:126-340 | in every run without guards, pool pauses, resumes and agent redeployments included, memory manages exactly the addresses of each pool, and neither cache nor pool status names another |
| `FreeRuns.RebuildNeverFails` | pkg/controller/ippool/controller.go:364-412 | in every state of every such run, BuildCache succeeds exactly when the pool is not paused |
| `FreeRuns.RunsConserve` | pkg/ipam/ipam.go:134-152 | in every state of every such run, used + available is the range less the withheld addresses in it, and an undesignated allocation has a candidate exactly when available is not 0 |
| `FreeRuns.OnChangeKeepsMacs` | pkg/controller/ippool/controller.go:221-246 | in every state of every such run, pool OnChange overwrites, loses and invents no MAC record |
| `Runs.ReleaseSettles` | pkg/controller/vmnetcfg/controller.go:286-340 | wherever a guarded cleanup stops, exactly the records it released are lost from the pool status |
| `Runs.StepOk` | pkg/controller/vmnetcfg/controller.go:126-340 | every step keeps the invariant and takes exactly what it released out of the pool status |
| `Runs.EveryRunOk` | pkg/controller/vmnetcfg/controller.go:126-340 | the invariant in every state of every run, interrupted handlers and lost status writes included |
| `Runs.StepIsFree` | pkg/controller/vmnetcfg/controller.go:126-340 | a guarded step is a step of an unguarded run |
| `Recovery.RecordedUntilReleased` | pkg/controller/vmnetcfg/controller.go:190-214 | once recorded, an address stays recorded for its MAC as long as no step releases just that |
| `Recovery.ReleaseUnrecords` | pkg/controller/vmnetcfg/controller.go:315-336 | a step that releases it has taken it out of the pool status |
| `Recovery.PublishedIsDurable` | pkg/controller/vmnetcfg/controller.go:190-222 | in every state of every run, an address published as Allocated is in the durable status unless a cleanup released it while the object went on publishing it |
| `Recovery.DurableExactly` | pkg/controller/vmnetcfg/controller.go:190-222 | throughout a run everything published is durable if and only if every step takes off the objects what it released |
| `Recovery.LandedWithdraws` | pkg/controller/vmnetcfg/controller.go:229-284 | with MACs unique, a handler that finished and whose status write landed has done so |
| `Recovery.OrderlyRunsAreDurable` | pkg/controller/vmnetcfg/controller.go:190-222 | with MACs unique across objects and releases that finish and land, everything published as Allocated is durable |
| `Recovery.CrashSafe` | pkg/controller/ippool/controller.go:398-412 | in every state of every run, restarts anywhere before it, a run of Allocate that succeeds, for any object, publishes the recorded address for every NIC that was recorded and not released since |
| `Recovery.CrashSafeObject` | pkg/controller/vmnetcfg/controller.go:114-225 | if that holds for all NICs of the object, Allocate changes nothing and succeeds exactly when the object may be served and all its pools are ready and in memory |
| `Recovery.RestartRestores` | pkg/controller/ippool/controller.go:352-417 | restart at any point of a run: once the networks of an object are rebuilt, in any order, Allocate of the object succeeds and gives all its recorded NICs their addresses |
| `Recovery.RunsRebuildExactly` | pkg/controller/ippool/controller.go:364-412 | a rebuild from any status of a run succeeds and is exact |
| `Recovery.RunsCount` | pkg/controller/ippool/controller.go:196-206 | in every state of a run as many addresses are used as MACs are cached |
| `Recovery.DurableSurvivesExactly` | pkg/controller/vmnetcfg/controller.go:291-336 | wherever a cleanup stops, a durable record survives it exactly when no record before that point names its address |
| `Recovery.InterruptedExactly` | pkg/controller/vmnetcfg/controller.go:291-336 | if the records stay published, they are all still durable exactly when none of those released was published as Allocated |
| `Recovery.InterruptedRemoval` | pkg/controller/vmnetcfg/controller.go:294-297 | from any state with a durable first record and a second one whose network is not in memory, removal releases the first and stops with no write failing; it stays published and is no longer durable |
| `Witnesses.InterruptionIsReached` | pkg/controller/vmnetcfg/controller.go:286-340 | from any two admitted pools a run leads to such a removal |
| `Witnesses.SecondCleanupTakesAddress` | pkg/controller/vmnetcfg/controller.go:81-110 | from any admitted pool a run leads to a paused object whose next OnChange, with every write landing, takes the address of another MAC |
| `Recovery.EraseMustLand` | pkg/controller/vmnetcfg/controller.go:315-336 | cleaning up a durable record keeps the invariant if and only if its erasure lands |
| `EndToEnd.RunsNeverRebind` | pkg/controller/vmnetcfg/controller.go:203 | in no run does a step give a recorded address to another MAC |
| `EndToEnd.RepliesAreSound` | pkg/dhcp/dhcp.go:206-229 | over every controller run without guards: no two clients share a reply address, and none is network, broadcast, server, router or excluded |
| `EndToEnd.LockstepAnswersExactly` | pkg/agent/ippool/ippool.go:10-63 | an agent that misses no version answers exactly what the ready pool records |
| `Reachability.ServingRun` | pkg/controller/vmnetcfg/controller.go:114-225 | from any admitted pool, a run that publishes a given pooled address for a given MAC |
| `Reachability.AnsweringRun` | pkg/dhcp/dhcp.go:206-229 | the same run with an agent: it ends with the client answered with that address |
| `Reachability.LeasesWellFormed` | pkg/dhcp/dhcp.go:74-80 | over every run only hardware addresses that parse get a lease |
| `Reachability.UpdateOnTerms` | pkg/dhcp/dhcp.go:86-131 | a new lease carries the pool's server address, router and mask and the configured lease time |
| `Reachability.LeasesOnTerms` | pkg/dhcp/dhcp.go:226-239 | over every run, every lease carries the pool's server address, router and mask |
| `Reachability.AnswerableExactly` | pkg/dhcp/dhcp.go:206-229 | an address can be answered in some run if and only if the pool manages it and the client's hardware address parses |

## Left out

- Parsing of addresses, CIDRs, MACs and annotations: values start out parsed; a field that does not
  parse is modelled as such. IPv6 and non-canonical spellings are not modelled.
- Kubernetes clients, informers and queues: kept only as stores whose writes land, conflict or are
  refused, and whose reads may be stale in the handshake. Network attachment labels are the identity: a
  pool is found by its network name, so two pools on one network are not modelled.
- DeployAgent, MonitorAgent, agent pods, images, metrics, HTTP endpoints and logging: orchestration and
  reporting that add only easy members. Deleting an agent pod is an outcome handed to pool cleanup; that a
  pod is deployed or goes away is a step of every run.
- DHCP options beyond server, mask, router and lease time, NTP lookup and packet encoding: foreign
  calls; only which lease answers which client is kept.
- Timestamps, reasons and messages of conditions: only the status of a condition matters to a handler.
- Changing router or exclusions of a live pool: pool configurations are constant during a run, since
  the handlers do not repeat the revocation.
- Pool deletion: the webhook refuses it while a network config uses the pool, so runs keep their pools.
- `PoolHandler.Handler.BuildCache`: a MAC recorded at 0.0.0.0 asks the allocator for any address; that
  case is left loose, and admission keeps 0.0.0.0 out of every range.
- `VmNetCfgHandler.Handler.EraseInPool`: a pool without IPv4 status makes the Go code dereference nil;
  here it is an error exit, and the runs include it.
- `PoolHandler.Handler.EnterMarks`: an excluded entry that is not an address gets no mark; admission
  refuses such pools.
- `Runs.EveryRunOk`: reads inside a step are fresh; a handler acting on an outdated pool object appears
  only as a write that conflicts.
