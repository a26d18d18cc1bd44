# hostpathpv-plugin: a verified model

A Dafny model of the storage quota engine of the host-path CSI driver: the quota manager with
its project ids and kernel limits, the protocol that garbage-collects quota directories, the
scheduler's packing and scoring, the operation lock and the volume identifier.
`dafny verify dfyconfig.toml` checks all of it.

## How it is laid out

| file | what it models |
|---|---|
| `VolumeIdCodec.dfy`, `QuotaPaths.dfy` | volume identifiers, quota directory names |
| `ProjectIds.dfy`, `QuotaProvider.dfy` | the project-id pool, the path-to-id cache, the kernel below |
| `QuotaManager.dfy`, `XfsQuotaManager.dfy` | what each call of the quota manager does; the object that does it |
| `Conservation.dfy`, `Enforcement.dfy`, `QuotaOutcomes.dfy` | invariants over every run, exact outcomes of a call |
| `Restart.dfy`, `Starts.dfy`, `Lifetimes.dfy`, `Overbooking.dfy` | restart, when a start succeeds and what it finds, histories of calls and starts, the books over them |
| `WorstFitPlacement.dfy`, `NodeMatch.dfy`, `SchedulerAndNode.dfy` | placement on the node, the scheduler's test, the one against the other |
| `NodeStatus.dfy`, `NodeScores.dfy` | the published record, the scores |
| `AfterRestart.dfy` | inputs on which results that rest on exact books fail after a restart |
| `MetaStore.dfy`, `OrphanProtocol.dfy`, `SyncWorker.dfy`, `ProtocolRefinement.dfy` | the ConfigMap under concurrent clients, the cleaning protocol, the sync worker, both as parties of the protocol |
| `OperationLocks.dfy` | the operation lock |
| `MapSums.dfy`, `Sorting.dfy`, `HostPathTypes.dfy`, `Results.dfy` | sums over maps, sorting, the published record types, Option and Result |

A call of the quota manager runs under its mutex and is one step, given as a function from
state to state (`Publish`, `Expand`, `Release`, `Refresh`). The methods of the classes are
proved to compute these functions; invariants are proved about the functions over runs of any
length. What the outside world decides in one call - which system calls fail, which free id
and which of several equally free disks is picked - is a parameter, so every statement holds
for all of these choices. The kernel is two maps: from directory to project id, and from
device and project id to a limit in 512-byte blocks.

## What turned out not to hold

Each of these is stated as a lemma, with the exact condition under which the code does meet
the property.

- After a restart the books (`QuotaSize`, `AllocatableSize`) are right only if there was nothing
  to restore: all capacity is offered again (`RestartConservedIff`). The next publish, expand or
  release on a disk puts its books right exactly if it asks for no more than `Capacity` minus
  `QuotaSize` (`BooksRightIff`); otherwise it is accepted all the same, and `AllocatableSize`
  wraps (`PublishAfterRestartIff`, and `FullDiskAcceptsAgain` for a run that gets there). Over
  whole histories no disk gives away more than it has exactly if no call does that
  (`HistoryWithinIff`). The kernel's limits oversubscribe the disk exactly if a volume's whole
  blocks do not fit (`OversubscribedAfterRestartIff`).
- A start does not always succeed, and a quota manager whose start failed refuses every call.
  `StartSucceedsIff` says exactly when: each directory must carry a project id in range that has
  a limit, and no two the same. A publish that fails and cannot remove its directory again may
  leave one without such an id (`FailedPublishStartsIff`); then no start ever succeeds
  (`NeverStartsAgain`, `DownForGood`). Nor does one after a failed removal once the freed id was
  given away (`SharedIdNeverStarts`); until then a restart mends it (`RestartMendsFailedRelease`).
- A restart that cannot read a mount point succeeds without the volumes on that disk
  (`UnreadableDisksAreForgotten`). Every directory is managed after it exactly if nothing lay
  there (`PartialStartEnforcedIff`); otherwise a later volume may be given a forgotten
  directory's id, and then no start that reads every mount point succeeds (`ForgottenIdIsShared`).
- Growing a volume never reaches the kernel (`ExpandOutcome`, `GrownIsNotEnforced`); a restart
  gives back the size at creation (`RestoredSize`, `RestoredTotalsIff`).
- When a directory cannot be removed, its project id is freed all the same
  (`ReleaseEnforcesIff`), and the next volume may share it (`FailedRemovalSharesAnId`). A failed
  publish may leave its directory behind (`FailedPublishIsUndoneIff`).
- A volume of less than 512 bytes has no limit at all (`NewVolumeEnforcedIff`).
- A second delete or expand of one id is granted and not counted (`StaysExactIff`), so a
  delete can be granted beside a running expand (`TwoExpandsLetDeleteIn`); in runs without such a
  grant it never is (`DeleteGrantedIff`). Create and expand come to stand together exactly when a
  create is granted while an expand stands (`CreateBesideExpandIff`,
  `EveryCompatibleSetIsReached`).
- The guarantees of worst-fit placement in terms of `AllocatableSize` hold while the books are
  exact (`ExactGapBound`, `ExactCapacityBound`). After a restart they fail
  (`GapFailsAfterRestart`, `CapacityFailsAfterRestart`); what always holds is `CapacityBound`,
  in terms of capacities and of what was given away, and `GapBound`, with what lies on disks on
  which nothing was booked since the start.
- For one volume the scheduler and the node differ in two ways and no other: the scheduler counts
  disabled disks, and it does not see a free size of 2^63 bytes and more, which is published as
  a negative number (`SchedulerAgreesWithNode`, `NoneDisabledAgree`). Overbooking after a restart
  leads to such a size (`OverbookedDiskIsRefused`).
- The scheduler accepts sets of volumes that the node then cannot place
  (`SchedulerAcceptsWhatNodeRefuses`), and refuses sets that the node could place
  (`SchedulerRefusesWhatNodeAccepts`). Both place all of them under the condition of
  `CapacityBound`, with no disk disabled or overbooked (`BothAccept`).
- The comparison that decides whether to publish compares a disk's `Allocatable` with itself. A
  change of free space is published exactly if the node's total `QuotaSize` changes with it
  (`FreeSpacePublishedIff`, `FreeSpaceIsCurrentIff`). With exact books that is the total free
  size (`ExactFreeSpacePublishedIff`), so a change on one disk is published
  (`OneDiskIsPublished`) and opposite changes on two are not (`FreeSpaceCanBeStale`). After a
  restart not even a change on one disk need be (`NoOpExpandIsNotPublished`).
- When the disks cannot be listed, an empty list is handed in (`EmptyListing`): the node's record
  is withdrawn, or, if they never were listed, an old record stays in place for good and every
  sync says it succeeded (`UnlistedDisks`, `NeverListed`).
- An update of the node's record that takes effect while its answer is lost is not remembered, and
  a later sync that goes back to the remembered record leaves it in place: the published usage
  can then be wrong by any amount (`LostAnswerIsStale`). The remembered record is the published
  one exactly if that has not happened since the last acknowledged update (`SyncedIsUpToDate`).
- The identifier's comment gives 108 bytes as the longest name; the code accepts 113
  (`RoundTrip`). Strings that were never composed are decomposed too; the composed ones are those
  with at most 128 bytes, dashes as separators and lower-case digits (`ComposedIff`). Of a string
  longer than 65535 bytes the tail is dropped (`DecomposedName`).
- `RoundOffBytes` is documented to round sizes below 1 MiB up to 1 MiB; that holds of every size
  but 0, which stays 0 (`RoundOffAtLeastMiBIff`).
- `parseQuotaPathInfoFromDirName` returns no error for a path without the prefix
  (`ParseNoError`), and slices out of range for one that ends in the bare prefix
  (`ParseOutOfRange`).

## Model

| member | source | states |
|---|---|---|
| OrphanProtocol.NeverReleasesALiveVolume | pkg/csi-plugin/hostpath/syncworker.go:80-141 | in every interleaving of create, delete, publish, unpublish, node restart and the cleaner's steps, a volume the cleaner releases (found or retried) is not in the metastore, and never is again |
| OrphanProtocol.RunKeepsInvariant | pkg/csi-plugin/hostpath/syncworker.go:111-141 | the protocol's invariant over every run: every quota belongs to a volume that once was in the metastore, the cleaner's lists hold only volumes that are gone, and what is gone stays gone |
| OrphanProtocol.MetaFirstWouldReleaseALiveVolume | pkg/csi-plugin/hostpath/syncworker.go:83-88 | a run in which reading the metastore before the quota list would make a live volume an orphan |
| OrphanProtocol.CreatedStaysUntilDeleted | pkg/csi-plugin/hostpath/controllerserver.go:89-124 | an acknowledged volume is in the metastore until somebody begins to delete it |
| OrphanProtocol.ManagerRefinesQuotas | pkg/csi-plugin/hostpath/nodeserver.go:119-176 | the quota manager's calls change its set of volumes as the protocol's publish, unpublish and release steps do |
| ProtocolRefinement.JointIsProtocolRun | pkg/csi-plugin/hostpath/syncworker.go:83-141 | every interleaving of the quota manager's calls and starts, with failures anywhere, with the cleaner's passes and all other parties' steps is a run of the protocol |
| ProtocolRefinement.CleanerCallsAreSafe | pkg/csi-plugin/hostpath/syncworker.go:111-141 | from empty disks, in every such interleaving, a volume that the cleaner asks the quota manager to release is not in the metastore, and never is again |
| ProtocolRefinement.HistoryIsProtocolRun | pkg/csi-plugin/hostpath/quota-manager/quotamanager_xfs.go:110-329 | every history of the quota manager alone, with failures and failing starts, does to its volumes what some run of the protocol does |
| ProtocolRefinement.PassIsProtocolRun | pkg/csi-plugin/hostpath/syncworker.go:83-141 | one pass of the sync worker, as its loops compute it, is a run of the cleaner's events, also if the listing or the metastore read fails |
| OrphanProtocol.RestartFindsOnlyPublished | pkg/csi-plugin/hostpath/quota-manager/quotamanager_xfs.go:260-329 | why the protocol's restart may find any volumes whose publish once began: calls and restarts, whatever fails in them, leave directories and records of no others |
| Lifetimes.HistoryKeepsOnly | pkg/csi-plugin/hostpath/quota-manager/quotamanager_xfs.go:110-329 | the same over every history of calls and starts |
| OrphanProtocol.RestartKeepsVolumes | pkg/csi-plugin/hostpath/quota-manager/quotamanager_xfs.go:260-329 | with every directory managed and readable, restoring finds exactly the volumes there were |
| MetaStore.NoLostUpdates | pkg/csi-plugin/hostpath/metestore.go:56-86 | for any number of clients between their get and their update, the stored set is the accepted operations one after another |
| MetaStore.PresentUntilUnset | pkg/csi-plugin/hostpath/metestore.go:65-86 | a volume is present exactly if it was added and not unset since |
| MetaStore.ConfigMapMetaStore.AddMetaInfo | pkg/csi-plugin/hostpath/metestore.go:65-76 | whatever others do between get and update, and whether or not the answer arrives, the operation takes effect last or not at all, and not at all if anything changed; what is acknowledged is stored |
| MetaStore.ConfigMapMetaStore.UnsetMetaInfo | pkg/csi-plugin/hostpath/metestore.go:78-86 | the same for removal |
| MetaStore.ConfigMapMetaStore.ListMetaInfos | pkg/csi-plugin/hostpath/metestore.go:56-63 | the stored set, if the read succeeds |
| SyncWorker.SyncWorker.CleanOrphanQuotaPath | pkg/csi-plugin/hostpath/syncworker.go:111-141 | computes the retry loop and the main loop; no orphan is forgotten: each is released or kept for the next pass, an id leaves the list only by a release, a failed read keeps the list, nothing but orphans is touched, and with all releases successful the quotas left are a subset of the metastore |
| SyncWorker.SyncWorker.SyncQuotaPathUsage | pkg/csi-plugin/hostpath/syncworker.go:143-164 | every known volume listed once is published with this node, its path and its used size, and remembered with its path, quota and used size; other volumes keep their annotation; nothing is sent for volumes that look as they did; and skipping those publishes the same as the loop that skips none, up to the first update that is not acknowledged, save for volumes whose last update took effect unanswered |
| SyncWorker.SyncWorker.SyncNodeQuotaStatus | pkg/csi-plugin/hostpath/syncworker.go:166-229 | computes the sync step on the remembered and the published record; after a successful sync the remembered record has exact totals and usage within one GiB, and is the published one exactly if no update took effect unanswered since, unless the node has no capacity; disabled flags follow the annotation |
| SyncWorker.SyncWorker.NodeChanged | pkg/csi-plugin/hostpath/syncworker.go:238-250 | the comparison loop, including the index out of range |
| NodeStatus.SkippedUpdateIsUpToDate | pkg/csi-plugin/hostpath/syncworker.go:238-250 | a record is left in place only while its capacity and quota totals are exact and total and per-disk usage are within one GiB |
| NodeStatus.ComparisonInRange | pkg/csi-plugin/hostpath/syncworker.go:244-245 | the comparison never indexes out of range while the number of disks does not shrink |
| NodeStatus.BlindToFreeSpace | pkg/csi-plugin/hostpath/syncworker.go:245 | the comparison cannot tell records apart that differ in the disks' free sizes, quotas or disabled flags |
| NodeStatus.SyncedIsUpToDate | pkg/csi-plugin/hostpath/syncworker.go:220-250 | the staleness bound over every run of syncs, failed listings, failed and unanswered updates and worker restarts with a fixed number of disks: the comparison of listed disks stays in range, after each successful sync of theirs the remembered record has exact totals and usage within one GiB in total and on every disk, and it is the published one exactly if no update took effect unanswered since the last acknowledged one |
| NodeStatus.EmptyListing | pkg/csi-plugin/hostpath/syncworker.go:101-108 | exactly what a sync does when the disks could not be listed |
| NodeStatus.UnlistedDisks | pkg/csi-plugin/hostpath/syncworker.go:101-108 | disks that were listed and then are not have their record withdrawn; if they never were, an old record stays |
| NodeStatus.NeverListed | pkg/csi-plugin/hostpath/syncworker.go:101-108 | it stays over every run in which they never are |
| NodeStatus.LostAnswerIsStale | pkg/csi-plugin/hostpath/syncworker.go:220-226 | for every k, a successful sync after which the published usage is wrong by k GiB, because of one lost answer |
| NodeStatus.FreeSpacePublishedIff | pkg/csi-plugin/hostpath/syncworker.go:238-250 | whatever the books, a change of nothing but free space and quotas is published exactly if the node's total `QuotaSize` changes |
| NodeStatus.FreeSpaceIsCurrentIff | pkg/csi-plugin/hostpath/syncworker.go:238-250 | after a sync the published free sizes are the current ones exactly if the total `QuotaSize` has changed or no disk's free size has |
| NodeStatus.ExactFreeSpacePublishedIff | pkg/csi-plugin/hostpath/syncworker.go:238-250 | with exact books a change is published exactly if the node's total free size changes |
| NodeStatus.OneDiskIsPublished | pkg/csi-plugin/hostpath/syncworker.go:238-250 | with exact books a change on a single disk is always published |
| NodeStatus.FreeSpaceCanBeStale | pkg/csi-plugin/hostpath/syncworker.go:245 | for every k, a change of a disk's free size by k that is not published |
| AfterRestart.NoOpExpandIsNotPublished | pkg/csi-plugin/hostpath/quota-manager/quotamanager_xfs.go:160-196 | a run after which a disk's free size changes and nothing is published: fill a disk, restart, expand the volume to its own size |
| NodeStatus.RoundOffAbove | pkg/util/util.go:27-39 | the rounded size is less than one MiB, or GiB from one GiB on, above the size |
| NodeStatus.RoundOffIsWhole | pkg/util/util.go:27-39 | the rounded size is whole MiB, or whole GiB from one GiB on |
| NodeStatus.RoundOffMonotone | pkg/util/util.go:27-39 | rounding keeps order |
| NodeStatus.RoundOffIdempotent | pkg/util/util.go:27-39 | rounding twice is rounding once |
| NodeStatus.RoundOffAtLeastMiBIff | pkg/util/util.go:27-39 | every size but zero is rounded up to at least one MiB |
| NodeStatus.BuildUsage | pkg/csi-plugin/hostpath/syncworker.go:194-218 | the loop computes the record with 64-bit totals and sorted disks |
| NodeStatus.PublishedTotals | pkg/csi-plugin/hostpath/syncworker.go:203-217 | each published total is the sum over the published disks |
| NodeStatus.UsageTotals | pkg/csi-plugin/hostpath/syncworker.go:203-217 | the totals are the 64-bit sums over the listed disks, and the available size is the difference of capacity and used |
| NodeStatus.UsageDisks | pkg/csi-plugin/hostpath/syncworker.go:208-218 | one entry for each listed disk with its own mount point, sizes and disabled flag, the freest first and then by mount point |
| HostPathTypes.StringLeqIff | pkg/hostpathclient/types.go:46-52 | the order of mount points: a prefix first, otherwise the first byte in which they differ |
| NodeStatus.OrderDoesNotMatter | pkg/hostpathclient/types.go:46-52 | the record does not depend on the order in which the disk map was read |
| NodeStatus.AllocatableIsTheRest | pkg/csi-plugin/hostpath/syncworker.go:203-216 | when the manager's books are exact, every published disk and the published node have `Allocatable` = `Capacity` - `QuotaSize` |
| NodeStatus.SchedulerAgreesWithNode | pkg/csi-plugin/hostpath/syncworker.go:193-218 | for one volume, whatever the books: the scheduler accepts what the node refuses exactly if only a disabled disk offers the space, and refuses what the node accepts exactly if only disks of 2^63 and more free bytes have it |
| NodeStatus.NoneDisabledAgree | pkg/csi-plugin/hostpath/syncworker.go:193-218 | with no disk disabled the two agree exactly if, when such a wrapped disk fits, another disk offers the space; so they do whenever free sizes are below 2^63 |
| NodeStatus.SchedulerAcceptsIff | pkg/extender-scheduler/scheduler/predicate/hostpathpv_disk_pressure.go:90-115 | the scheduler accepts one volume exactly if some disk has that much free space, below 2^63 |
| AfterRestart.OverbookedDiskIsRefused | pkg/csi-plugin/hostpath/quota-manager/quotamanager_xfs.go:155-156 | a run that leads to a disk on which the node accepts everything and the scheduler nothing |
| Conservation.RunConserves | pkg/csi-plugin/hostpath/quota-manager/quotamanager_xfs.go:110-217 | over every run with failures anywhere, `QuotaSize` is the sum of the volumes' quotas, at most the capacity, and `AllocatableSize` the exact rest, with no wrap in a stored value |
| Conservation.ExpandConserves | pkg/csi-plugin/hostpath/quota-manager/quotamanager_xfs.go:160-196 | the same for growing, although `QuotaSize + quotaSize` may wrap on the way |
| Conservation.EmptyConserved | pkg/csi-plugin/hostpath/quota-manager/quotamanager_xfs.go:277-287 | empty disks satisfy the books |
| Conservation.RepublishIsIdle | pkg/csi-plugin/hostpath/quota-manager/quotamanager_xfs.go:114-117 | publishing a known volume again changes nothing |
| Conservation.RunKeepsPool | pkg/csi-plugin/hostpath/quota-manager/quotaProvider/quota_xfs.go:34-103 | over every run with failures at any system call, the allocated ids are the image of an injective cache, in range, and the pool is full exactly when `num` paths are cached |
| QuotaProvider.SetKeepsPool | pkg/csi-plugin/hostpath/quota-manager/quotaProvider/quota_xfs.go:55-84 | the deferred rollback leaks no id |
| QuotaProvider.GetKeepsPool | pkg/csi-plugin/hostpath/quota-manager/quotaProvider/quota_xfs.go:34-53 | loading an id from a directory never shares it |
| QuotaProvider.DeleteKeepsPool | pkg/csi-plugin/hostpath/quota-manager/quotaProvider/quota_xfs.go:86-103 | deleting frees exactly the path's own id, whether or not the directory goes |
| QuotaProvider.FullExactlyWhenNumCached | pkg/csi-plugin/hostpath/quota-manager/quotaProvider/projidallocator.go:67-76 | the pool reports full exactly when `num` paths are cached |
| QuotaProvider.QuotaVolumeProvider.GetProjectQuota | pkg/csi-plugin/hostpath/quota-manager/quotaProvider/quota_xfs.go:34-53 | computes the provider step for reading a quota |
| QuotaProvider.QuotaVolumeProvider.SetProjectQuota | pkg/csi-plugin/hostpath/quota-manager/quotaProvider/quota_xfs.go:55-84 | computes the provider step for setting a quota, for some free id |
| QuotaProvider.QuotaVolumeProvider.DeleteProjectQuota | pkg/csi-plugin/hostpath/quota-manager/quotaProvider/quota_xfs.go:86-103 | computes the provider step for deleting a quota |
| QuotaProvider.KernelState.SetProjectLimit | pkg/csi-plugin/hostpath/quota-manager/quotaProvider/quota_common_linux.go:118-141 | the kernel holds whole 512-byte blocks |
| ProjectIds.ProjectIDAllocator.Allocate | pkg/csi-plugin/hostpath/quota-manager/quotaProvider/projidallocator.go:49-65 | an id is taken exactly if it is in range and free |
| ProjectIds.ProjectIDAllocator.AllocateNext | pkg/csi-plugin/hostpath/quota-manager/quotaProvider/projidallocator.go:67-76 | some free id in range, or none exactly if the pool is full |
| ProjectIds.ProjectIDAllocator.Release | pkg/csi-plugin/hostpath/quota-manager/quotaProvider/projidallocator.go:78-86 | frees one id; ids out of range or free are ignored |
| ProjectIds.ProjectIDAllocator.Has | pkg/csi-plugin/hostpath/quota-manager/quotaProvider/projidallocator.go:88-95 | whether the id is allocated |
| Enforcement.NeverOversubscribed | pkg/csi-plugin/hostpath/quota-manager/quotaProvider/quota_xfs.go:55-103 | from empty disks, in every run whose directory removals succeed and whose sizes are at least a block, the kernel's limits on a disk sum to at most its capacity and no two volumes share a project id |
| Enforcement.RunEnforces | pkg/csi-plugin/hostpath/quota-manager/quotamanager_xfs.go:110-217 | in these runs every managed directory exists, carries its cached id and has a limit of at most the recorded quota, and nothing else exists |
| Enforcement.FailedPublishIsUndoneIff | pkg/csi-plugin/hostpath/quota-manager/quotamanager_xfs.go:136-139 | a failed publish leaves the whole state as it was exactly if it made no directory or can remove it again |
| Enforcement.ReleaseEnforcesIff | pkg/csi-plugin/hostpath/quota-manager/quotaProvider/quota_xfs.go:86-103 | a release keeps all this exactly if the directory can be removed |
| Enforcement.FailedRemovalSharesAnId | pkg/csi-plugin/hostpath/quota-manager/quotaProvider/quota_xfs.go:55-102 | after a failed removal the next publish may be given the id the directory still carries: two directories with one id, and on one disk one limit |
| Enforcement.NewVolumeEnforcedIff | pkg/csi-plugin/hostpath/quota-manager/quotaProvider/quota_common_linux.go:116-127 | a new volume gets a limit exactly if its size is at least 512 |
| QuotaOutcomes.PublishOutcome | pkg/csi-plugin/hostpath/quota-manager/quotamanager_xfs.go:110-158 | exactly when a new volume is created, and all that changes then |
| QuotaOutcomes.ExpandOutcome | pkg/csi-plugin/hostpath/quota-manager/quotamanager_xfs.go:160-196 | exactly when growing succeeds; it changes the books only and never the provider or the kernel |
| QuotaOutcomes.GrownIsNotEnforced | pkg/csi-plugin/hostpath/quota-manager/quotaProvider/quota_xfs.go:57-61 | a grown volume keeps its old limit, and lacks whole blocks exactly if it grew past its last one |
| QuotaOutcomes.ReleaseOutcome | pkg/csi-plugin/hostpath/quota-manager/quotamanager_xfs.go:198-217 | exactly when a release succeeds, and all that changes then |
| QuotaOutcomes.ReleaseUndoesPublish | pkg/csi-plugin/hostpath/quota-manager/quotamanager_xfs.go:110-217 | releasing a new volume restores the state before it, up to the kernel limit under the freed id |
| Restart.RestartRefines | pkg/csi-plugin/hostpath/quota-manager/quotamanager_xfs.go:260-329 | restoring in any order of disks and directories ends in one state: each volume with its path, disk and kernel limit, each disk with their sum, the same id cache, pool and kernel |
| Starts.RestartAfterRun | pkg/csi-plugin/hostpath/quota-manager/quotamanager_xfs.go:260-329 | restart after every run, whatever fails in it: when a start succeeds and what it finds, and that it is the state `Restored` if every directory could be removed and sizes are at least a block |
| Starts.RestoreSucceedsIff | pkg/csi-plugin/hostpath/quota-manager/quotamanager_xfs.go:296-325 | in every state the loop comes to its end exactly if each directory parses, answers, carries an id in range with a limit, and no two carry one id |
| Starts.StartSucceedsIff | pkg/csi-plugin/hostpath/quota-manager/quotamanager_xfs.go:260-329 | the same without any order of enumeration |
| Starts.StartFinds | pkg/csi-plugin/hostpath/quota-manager/quotamanager_xfs.go:296-325 | what a start that succeeds finds in every state: each directory's volume with its limit, each disk with the 64-bit sum of its directories' limits, exactly their ids in cache and pool |
| Starts.FailedPublishStartsIff | pkg/csi-plugin/hostpath/quota-manager/quotamanager_xfs.go:129-139 | exactly when the directory left by a failed publish lets the node start |
| Starts.NeverStartsAgain | pkg/csi-plugin/hostpath/quota-manager/quotamanager_xfs.go:42-45 | a run after which no start succeeds, in any order of enumeration (there is one) and whatever the system calls do |
| Starts.SharedIdNeverStarts | pkg/csi-plugin/hostpath/quota-manager/quotaProvider/quota_xfs.go:34-53 | after a failed removal whose id was given away no start succeeds |
| Starts.RestartMendsFailedRelease | pkg/csi-plugin/hostpath/quota-manager/quotaProvider/quota_xfs.go:86-103 | before it was given away a restart finds everything as it was |
| Restart.RestoredSize | pkg/csi-plugin/hostpath/quota-manager/quotamanager_xfs.go:304-320 | a restored quota never exceeds the recorded one, and equals it exactly if the volume has not grown and its size is whole blocks |
| Restart.RestoredTotalsIff | pkg/csi-plugin/hostpath/quota-manager/quotamanager_xfs.go:310-311 | `QuotaSize` of a disk is the same after a restart exactly if no volume on it has grown and their sizes are whole blocks |
| Restart.UnreadableDisksAreForgotten | pkg/util/util.go:42-55 | when mount points cannot be read the restart succeeds and restores exactly the volumes on the other disks |
| Restart.RestartConservedIff | pkg/csi-plugin/hostpath/quota-manager/quotamanager_xfs.go:279-287 | the books are right after a restart exactly if there was no volume |
| Restart.PublishAfterRestartIff | pkg/csi-plugin/hostpath/quota-manager/quotamanager_xfs.go:110-158 | the first volume after a restart is accepted whether or not it fits; the disk's books are right afterwards exactly if it does, and otherwise `AllocatableSize` wraps |
| Restart.FullDiskAcceptsAgain | pkg/csi-plugin/hostpath/quota-manager/quotamanager_xfs.go:279-287 | a run that gets there: fill a disk, restart, fill it again |
| Lifetimes.HistoryEnforces | pkg/csi-plugin/hostpath/quota-manager/quotamanager_xfs.go:110-329 | over whole histories of calls and starts, failed starts among them, in which directories can be removed and read and sizes are at least a block, every managed directory has its own project id and a limit of at most the recorded quota, and the pool of ids is exact |
| Lifetimes.HistoryKeepsPool | pkg/csi-plugin/hostpath/quota-manager/quotamanager_xfs.go:42-45 | over every history, whatever fails in it, the ids a process holds are the image of an injective cache, within the range |
| Lifetimes.SoundStart | pkg/csi-plugin/hostpath/quota-manager/quotamanager_xfs.go:260-329 | in such histories a start succeeds exactly if the system calls do |
| Lifetimes.DownForGood | pkg/csi-plugin/hostpath/quota-manager/quotamanager_xfs.go:42-45 | once a start can no longer succeed, nothing changes any more |
| Lifetimes.PartialStartEnforcedIff | pkg/util/util.go:42-55 | after a start that could not read every mount point every directory is managed exactly if nothing lay on those disks |
| Lifetimes.ForgottenIdIsShared | pkg/util/util.go:42-55 | otherwise a later publish may be given a forgotten directory's id, and then no full start succeeds |
| Overbooking.BooksRightIff | pkg/csi-plugin/hostpath/quota-manager/quotamanager_xfs.go:147-214 | after a publish, an expand or a release the disk's books are right exactly if the call asked for no more than `Capacity` minus `QuotaSize`, whether or not a start came before |
| Overbooking.OnlyUnbookedIsOverbooked | pkg/csi-plugin/hostpath/quota-manager/quotamanager_xfs.go:285 | only a disk on which nothing was booked since the last start can be overbooked |
| Overbooking.HistoryWithinIff | pkg/csi-plugin/hostpath/quota-manager/quotamanager_xfs.go:110-329 | over every such history no disk ever gives away more than it has exactly if no call overbooks |
| Overbooking.NeverOversubscribedAcrossStarts | pkg/csi-plugin/hostpath/quota-manager/quotamanager_xfs.go:110-329 | then, through any number of starts, the kernel's limits on a disk sum to at most its capacity, and its books are right exactly if something was booked on it since the last start or nothing is on it |
| Lifetimes.OversubscribedAfterRestartIff | pkg/csi-plugin/hostpath/quota-manager/quotamanager_xfs.go:285 | the first volume after a restart makes the kernel's limits exceed the disk exactly if its whole blocks do not fit beside the restored volumes |
| XfsQuotaManager.XFSQuotaManager.AllocateNewQuotaDir | pkg/csi-plugin/hostpath/quota-manager/quotamanager_xfs.go:219-257 | whatever order the disk map yields, the directory is made on a disk with the most free space among the enabled ones with room |
| XfsQuotaManager.XFSQuotaManager.GetVolumeQuotaPath | pkg/csi-plugin/hostpath/quota-manager/quotamanager_xfs.go:110-158 | computes the publish step |
| XfsQuotaManager.XFSQuotaManager.ExpandVolume | pkg/csi-plugin/hostpath/quota-manager/quotamanager_xfs.go:160-196 | computes the expand step |
| XfsQuotaManager.XFSQuotaManager.ReleaseVolumePath | pkg/csi-plugin/hostpath/quota-manager/quotamanager_xfs.go:198-217 | computes the release step |
| XfsQuotaManager.XFSQuotaManager.SetQuotaDiskDisabledState | pkg/csi-plugin/hostpath/quota-manager/quotamanager_xfs.go:92-108 | sets the flag of a disk with that mount point to the argument, if there is one and the attribute can be written, and changes nothing else |
| QuotaOutcomes.DisabledDiskTakesNothing | pkg/csi-plugin/hostpath/quota-manager/quotamanager_xfs.go:92-108 | once a disk was disabled no volume is created on it, over any run until it is enabled; then it takes volumes again |
| XfsQuotaManager.XFSQuotaManager.ListPathQuotaInfos | pkg/csi-plugin/hostpath/quota-manager/quotamanager_xfs.go:71-90 | on success each stale record has the used size that was read, every other field and every other record is as before, and the whole table is returned; it fails exactly if a stale record cannot be read |
| XfsQuotaManager.XFSQuotaManager.ListQuotaDiskInfos | pkg/csi-plugin/hostpath/quota-manager/quotamanager_xfs.go:50-69 | on success each disk that was read has the reported usage, and all other fields are as before; it fails exactly if one that has to be read does not answer |
| XfsQuotaManager.XFSQuotaManager.RestoreQuotaInfo | pkg/csi-plugin/hostpath/quota-manager/quotamanager_xfs.go:295-325 | goes through every directory of every readable disk exactly once, in some order |
| QuotaManager.RefreshAllIsRun | pkg/csi-plugin/hostpath/quota-manager/quotamanager_xfs.go:71-90 | a listing is a run of refresh steps, so it keeps what every run keeps |
| XfsQuotaManager.ReportAllIsRun | pkg/csi-plugin/hostpath/quota-manager/quotamanager_xfs.go:50-69 | a listing of the disks is a run of refresh steps |
| WorstFitPlacement.GapBound | pkg/csi-plugin/hostpath/quota-manager/quotamanager_xfs.go:219-257 | before and after restarts, over any sequence of volumes of size at most c that overbooks no disk, the gap between two enabled disks never exceeds the larger of its first value and c + q, where q is the most that lies on a disk on which nothing was booked since the start |
| WorstFitPlacement.ExactGapBound | pkg/csi-plugin/hostpath/quota-manager/quotamanager_xfs.go:219-257 | with exact books, as before the first restart, it never exceeds the larger of its first value and c |
| AfterRestart.GapFailsAfterRestart | pkg/csi-plugin/hostpath/quota-manager/quotamanager_xfs.go:219-257 | after a restart one volume of size k can open a gap of 6k |
| WorstFitPlacement.CapacityBound | pkg/csi-plugin/hostpath/quota-manager/quotamanager_xfs.go:219-257 | before and after restarts, none of the volumes is refused for space if their total and (n-1)*c fit beside what was given away into the capacities of the n enabled disks |
| WorstFitPlacement.ExactCapacityBound | pkg/csi-plugin/hostpath/quota-manager/quotamanager_xfs.go:219-257 | with exact books, as before the first restart, if they fit into the free space |
| AfterRestart.CapacityFailsAfterRestart | pkg/csi-plugin/hostpath/quota-manager/quotamanager_xfs.go:219-257 | after a restart the last of eleven volumes is refused although they fit into the free space offered |
| AfterRestart.RestartResets | pkg/csi-plugin/hostpath/quota-manager/quotamanager_xfs.go:279-287 | a restart leads to the states in which the two fail |
| SchedulerAndNode.SchedulerAcceptsWhatNodeRefuses | pkg/extender-scheduler/scheduler/predicate/hostpathpv_disk_pressure.go:90-115 | with 6k and 4k bytes free the scheduler, reading the published record, accepts 3k, 3k, 2k and 2k, and no run of the manager creates all four in that order |
| SchedulerAndNode.SchedulerRefusesWhatNodeAccepts | pkg/extender-scheduler/scheduler/predicate/hostpathpv_disk_pressure.go:90-115 | with 6k and 6k bytes free the scheduler refuses 4k, 3k, 3k and 2k, and no run of the manager that publishes them in that order lacks space |
| SchedulerAndNode.BothAccept | pkg/extender-scheduler/scheduler/predicate/hostpathpv_disk_pressure.go:90-115 | under the condition of `CapacityBound`, with no disk disabled or overbooked, the node refuses none and the scheduler, reading the published record, accepts all |
| NodeMatch.CanNodeMatch | pkg/extender-scheduler/scheduler/predicate/hostpathpv_disk_pressure.go:90-115 | sorts and walks both lists in place; true exactly if next-fit places everything, and the free sizes become what it leaves |
| NodeMatch.PackSound | pkg/extender-scheduler/scheduler/predicate/hostpathpv_disk_pressure.go:96-109 | each placed request has one disk, no disk gives more than it had, what is left is exactly the difference, and nothing non-negative becomes negative |
| NodeMatch.AcceptedFits | pkg/extender-scheduler/scheduler/predicate/hostpathpv_disk_pressure.go:110-113 | a true answer is an assignment of every request |
| NodeMatch.HalfFull | pkg/extender-scheduler/scheduler/predicate/hostpathpv_disk_pressure.go:96-114 | when it answers false, every disk took nothing because a request exceeded it, or is more than half filled |
| NodeMatch.AcceptsHalf | pkg/extender-scheduler/scheduler/predicate/hostpathpv_disk_pressure.go:90-115 | requests that are not all zero, that every disk could hold singly and that total at most half of the free space are accepted |
| NodeMatch.AcceptsSpace | pkg/extender-scheduler/scheduler/predicate/hostpathpv_disk_pressure.go:90-115 | requests of at most c are accepted on n disks if their total and (n-1)*c fit into the free space |
| NodeMatch.SingleRequest | pkg/extender-scheduler/scheduler/predicate/hostpathpv_disk_pressure.go:90-115 | one request is accepted exactly if some disk is large enough |
| NodeMatch.FilterNode | pkg/extender-scheduler/scheduler/predicate/hostpathpv_disk_pressure.go:29-88 | a node passes exactly if no volume rules it out and either the new requests total zero or they can be packed; then every new claim has a disk with space for all that is assigned to it; a claim without a volume, a host-path claim on another kind of node or a claim bound elsewhere rules it out, and nothing does if nothing new is asked for |
| NodeMatch.PassesIsAssigned | pkg/extender-scheduler/scheduler/predicate/hostpathpv_disk_pressure.go:59-83 | why: the packing of the requests is an assignment of the new claims |
| NodeMatch.IgnoresOthers | pkg/extender-scheduler/scheduler/predicate/hostpathpv_disk_pressure.go:35-68 | volumes that are no host-path claims, and claims bound to this node, do not change the answer |
| NodeMatch.OneNewClaim | pkg/extender-scheduler/scheduler/predicate/hostpathpv_disk_pressure.go:29-88 | one new claim passes exactly if the node is a host-path node and some disk has the space, or it asks for nothing |
| NodeScores.ScoreNodes | pkg/extender-scheduler/scheduler/prioritize/hostpath_diskusage.go:33-108 | each score is ten times the node's free percentage over the largest one, rounded down at both steps, and 100 if some node is no host-path node; so scores are 0 to 10, a node with at least as large a free fraction never scores lower, and some node scores 10 if any percentage is positive |
| NodeScores.MapScoringNode | pkg/extender-scheduler/scheduler/prioritize/hostpath_diskusage.go:60-81 | the free percentage, rounded down, in the node's own cell, and 0 for a node without free space |
| NodeScores.ReduceScoringNode | pkg/extender-scheduler/scheduler/prioritize/hostpath_diskusage.go:83-108 | ten times each score over the maximum, rounded down |
| NodeScores.RawScoreMonotone | pkg/extender-scheduler/scheduler/prioritize/hostpath_diskusage.go:72-76 | the first rounding keeps the order of free fractions |
| OperationLocks.RunStaysSafe | pkg/util/idlocker.go:106-258 | in every interleaving of balanced callers delete stands alone, clone never beside expand, counters are at least 1, and those of create, clone and restore count their holders |
| OperationLocks.DeleteWaits | pkg/util/idlocker.go:137-156 | delete is refused until the last creator, cloner and restorer has released |
| OperationLocks.EveryCompatibleSetIsReached | pkg/util/idlocker.go:106-187 | every set of entries that these rules allow does occur, including create beside expand |
| OperationLocks.CreateBesideExpandIff | pkg/util/idlocker.go:106-187 | create and expand come to stand together in one way only: a create granted while an expand stands |
| OperationLocks.StaysExactIff | pkg/util/idlocker.go:106-258 | a step keeps every count exact exactly if it is not a second granted delete or expand |
| OperationLocks.DeleteGrantedIff | pkg/util/idlocker.go:106-258 | over every run without such a grant, a delete is granted exactly if nobody holds a create, clone, restore or expand |
| OperationLocks.TwoExpandsLetDeleteIn | pkg/util/idlocker.go:166-182 | a delete granted beside a running expand |
| OperationLocks.OperationLock.TryAcquire | pkg/util/idlocker.go:106-187 | granted exactly if no blocking operation has an entry, with the new counters |
| OperationLocks.GrantedIff | pkg/util/idlocker.go:106-187 | for each operation, the entries it is tested against and no others |
| OperationLocks.OperationLock.ReleaseLock | pkg/util/idlocker.go:243-258 | one holder fewer; the last one's entry goes |
| VolumeIdCodec.RoundTrip | pkg/util/volid.go:36-100 | names of at most 113 bytes, and no others, compose to at most 128 bytes and decompose to what was composed |
| VolumeIdCodec.ComposeInjective | pkg/util/volid.go:36-53 | no two identities share an id |
| VolumeIdCodec.DecomposedName | pkg/util/volid.go:55-100 | the name is the whole rest of the string exactly if its length fits 16 bits |
| VolumeIdCodec.DecomposeNormalises | pkg/util/volid.go:55-100 | what is accepted composes, exactly if it counts as at most 128 bytes, to a spelling that is accepted as the same identity |
| VolumeIdCodec.AcceptedComposesBackIff | pkg/util/volid.go:36-100 | an accepted string composes back to itself exactly if it has at most 128 bytes, dashes as separators and lower-case digits |
| VolumeIdCodec.ComposedIff | pkg/util/volid.go:36-100 | the composed strings are exactly the accepted ones of that form |
| VolumeIdCodec.DecomposeAcceptsOtherSpellings | pkg/util/volid.go:63-97 | an accepted string that was never composed |
| VolumeIdCodec.CSIIdentifier.ComposeCSIID | pkg/util/volid.go:36-53 | the method with its reused buffer composes the identity |
| VolumeIdCodec.CSIIdentifier.DecomposeCSIID | pkg/util/volid.go:55-100 | fills the receiver; on failure the name is untouched, and the fields read before it stay as read |
| QuotaPaths.ParseQuotaPath | pkg/csi-plugin/hostpath/quota-manager/common.go:26-39 | a directory name written for a volume is read back as that volume |
| QuotaPaths.QuotaPathIs | pkg/csi-plugin/hostpath/quota-manager/common.go:26-28 | the quota path, byte by byte |
| QuotaPaths.QuotaPathInjective | pkg/csi-plugin/hostpath/quota-manager/common.go:26-28 | no two volumes or disks share a quota path |
| QuotaPaths.IdentitySurvivesRestart | pkg/csi-plugin/hostpath/quota-manager/common.go:30-39 | compose, name a directory, list, parse and decompose returns the identity |
| QuotaPaths.ParseOutOfRange | pkg/csi-plugin/hostpath/quota-manager/common.go:30-39 | exactly the paths on which parsing slices out of range |
| QuotaPaths.ParseNoError | pkg/csi-plugin/hostpath/quota-manager/common.go:30-39 | exactly the paths that are read without an error as the volume with the empty id |

## Left out

- System calls, extended attributes, mounting and `/proc`: two maps with failures chosen by the environment take their place.
- The first half of `restoreQuotaInfo`, which finds the disks: they are given to the constructor.
- Disks that hold anything but quota directories, and a crash in the middle of one call. A start that fails changes nothing outside its process.
- Disk and volume records are values in the manager's maps, not shared objects; the manager never gives out a pointer to one, so no aliasing is lost.
- `path.Clean` and `path.Join` in general: mount points are clean, not the root and without the prefix `k8squota`; restart is stated for volume ids without a slash.
- Clients, informers and the API server's storage: a ConfigMap is a version and a set of keys, since every value is the empty string.
- Two assumptions on the callers of the protocol: no create of an id reads the metastore once a delete of it has begun, and a publish begins after a create was acknowledged. A second node's quotas are another instance of the same machine.
- `VolumeLocks`: the protocol is safe without them.
- `CreateVolume`, `DeleteVolume`, `NodePublishVolume` and `NodeUnpublishVolume` beyond their requests to the metastore and the quota manager: validation, mounting and gRPC codes.
- Timers and the age of cached usage figures: which records are refreshed is a choice of the environment.
- NodeScores.MapScoringNode: floating-point rounding is not modelled; the division is exact and rounded down.
- NodeScores.ScoreNodes: floating-point rounding is not modelled; the two divisions are exact and rounded down.
- NodeStatus.RoundOffAbove: floating-point rounding is not modelled; the code's arithmetic is exact for sizes up to 2^53.
- SyncWorker.SyncWorker.CleanOrphanQuotaPath: the quota manager behind it is the set of its volumes.
- NodeStatus.SyncedIsUpToDate: nobody else writes the node's record.
- SyncWorker.SyncWorker.SyncQuotaPathUsage: nobody else writes the annotations.
- The fake quota manager, liveness, routes, logging, the command-line tools and the bind step of the scheduler.
