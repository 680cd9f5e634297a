# Wakame-vdc: the logic behind the database models

A Dafny model of the small algorithms that sit behind Wakame-vdc's Sequel queries and model
hooks, with proofs of what they promise. A table is a sequence or map of rows (a row's id is its
position), an association or query is a function of the tables, and one API call or transaction
is one atomic step. Where the source changes rows, a class holds the tables and its methods are
proved equal to the step functions about which the lemmas speak. A Ruby exception is an `Err`,
nil and NULL are `None`.

| file | component |
|---|---|
| `Wrappers.dfy`, `SortedSets.dfy` | nil/error results; ORDER BY over a set of numbers |
| `IpAllocation.dfy`, `LeasedRanges.dfy` | free-address search over run boundaries; the two range reports |
| `DynamicRanges.dfy` | subnet arithmetic and the dynamic range table of a network |
| `LeaseLifecycle.dfy`, `LeaseInvariants.dfy` | IP leases, the index of leased addresses, IP handles and their expiry |
| `NextFit.dfy`, `IncrementalScheduler.dfy` | next-fit scheduling over all ranges, on top of the allocator and the lease tables |
| `JobQueue.dfy` | the queue shared by the workers |
| `ChangeHistory.dfy` | the change log and snapshots of past rows |
| `DeviceNames.dfy` | the next guest device name |
| `FilterClause.dfy` | removal of the soft-delete filter from WHERE trees |
| `MacAddresses.dfy` | MAC text forms and ranges |
| `HostCapacity.dfy` | node and domain capacity |
| `SecurityGroups.dfy` | references between security groups |

## What turned out not to hold

Each is proved, with inputs on which it fails and the exact condition under which the code does
what is expected.

- Destroying a lease row frees its address by value, and `release_ip_lease` and
  `delete_reserved` also select deleted rows. The index then loses an address another row holds
  (`StaleReleaseSharesAddress`). It stays in agreement exactly when no destroyed row is a stale
  one (`StepAgreement`, `RunAgreement`).
- A new dynamic range may swallow existing ones although the code's comment says that ranges do
  not overlap: only the endpoints of the new range are looked up (`LaterRangeSwallowsEarlier`).
  Disjoint ranges stay disjoint exactly when the new one encloses none (`AddKeepsDisjointExactly`).
- The history plugin logs a column's default when an object is created with nil or false there
  (`ValueIsLostAtCreation`). That needs a nullable column with a default, or a boolean column with
  a default other than false; every other column is always right (`ExactColumns`). Instances, the
  only archived table with the `terminated_at` that snapshots read, have no such column
  (`InstanceHistoryIsExact`).
- A handle acquired together with a vif, from a pool with an initial expiry, keeps that expiry
  although its lease is attached (`StampedAcquireExpires`). Attached leases never expire exactly in
  the runs without such an acquire (`RunNeverExpires`); no address leaks in any run. The
  repository's own callers of `schedule` pass a pool or a vif, not both: only a direct caller, which
  dcmgr/lib/dcmgr/scheduler/ip_address/incremental.rb:21-23 allows for, gets there.
- Crossed bounds make `available_ip` return an address where a scan finds none
  (`AvailableIpIsLinearScan`). Only a direct caller can pass them: the scheduler's bounds are
  never crossed (`ScanRange`).
- An empty device name stalls the name search (`EmptyNameStalls`, `CandidateIsLeastFree`). Only a
  direct caller can pass one: the names the hypervisor collects have matched its patterns.
- The filter rewrite reads each filter as neutral for its place (`TargetsAreNeutral`), which is
  TRUE, filter by filter, exactly when no OR mixes filters with other alternatives and no NOT
  stands right above a filter (`NeutralIsTrueWherePlaced`, `PlacedKeepsMeaning`). A mixed OR drops
  the filter and loses rows (`DroppedUnderOrLosesRow`); on all rows that is harmless exactly when
  the other alternatives hold without looking at the row (`HarmlessUnderOr`). A negated filter
  becomes true (`NegatedTargetIsTrue`). The rewrite can leave a filter behind in an ill-formed
  comparison (`CollapsedComparisonSurvives`, `NoTargetSurvives`).
- A MAC range with exactly one free address reports none (`LastFreeMacIsHidden`, `LeftMeansTwoFree`).

## Assumptions

- The ascending boundary query has no ORDER BY; its rows are taken in ascending order. The loops
  of `leased_ranges` and `not_leased_ranges` get the ascending boundary rows of their range (the
  source calls the query without its arguments).
- `history_snapshot` groups an ordered subquery; it is read as "the newest row per attribute".
  A value survives being stored in the history table and typecast back. A statement that leaves
  a NOT NULL column NULL, or false in a column that is not boolean, is refused with its log entries.
- The scheduler creates a handle and its lease in the transaction of its caller: the HTTP request
  (dcmgr/lib/sinatra/sequel_transaction.rb) or the command line (dcmgr/bin/vdc-manage:150). In the
  interactive shell's bulk mode (dcmgr/bin/vdc-manage:39-45) a refused lease is rescued inside the
  open transaction and its handle stays without one; `AcquireLease`, `RunAccounted` and
  `ExpiryIsSafe` assume that this does not happen.
- The network of a vif at the time of `add_ip_lease` is a parameter, so runs may attach and detach
  vifs to and from networks in between.
- `Sequel::ASTTransformer#v` is library code, read as plain structural recursion.
- A `boundaries` row with a NULL neighbour, an association cache, a row lock and the wall clock are
  what they are meant to be; times are parameters.

## Model

| member | source | states |
|---|---|---|
| SortedSets.SortedEnumerates | dcmgr/lib/dcmgr/models/dhcp_range.rb:61-64 | the ordered result lists exactly the selected addresses, each once, ascending or descending |
| IpAllocation.AvailableIpIsLinearScan | dcmgr/lib/dcmgr/models/dhcp_range.rb:58-95 | looking at two boundary rows gives the same answer as a linear scan, for every leased set and both orders, exactly when from <= to |
| IpAllocation.LinearScanMeaning | dcmgr/lib/dcmgr/models/dhcp_range.rb:58-69 | that answer is nil exactly when every address is leased, else the least (asc) or greatest (desc) free one |
| IpAllocation.FirstRowsOfRun | dcmgr/lib/dcmgr/models/ip_lease.rb:11-20 | the first two rows of the self-join are the two ends of the leased run at the starting bound |
| IpAllocation.FirstRowOfGap | dcmgr/lib/dcmgr/models/ip_lease.rb:11-20 | with a free starting bound, the first row lies beyond it and has a NULL neighbour on that side |
| LeasedRanges.LeasedRanges | dcmgr/lib/dcmgr/models/dhcp_range.rb:97-106 | the loop folds the boundary rows into ranges |
| LeasedRanges.NotLeasedRanges | dcmgr/lib/dcmgr/models/dhcp_range.rb:108-119 | the loop fails exactly without a boundary row; else its flattened result is the range bounds around the folded ends |
| LeasedRanges.FoldIsMaximalRuns | dcmgr/lib/dcmgr/models/dhcp_range.rb:97-106 | the folded ranges are ascending, disjoint, non-adjacent pairs covering exactly the leased addresses |
| LeasedRanges.NotLeasedRangesAreComplement | dcmgr/lib/dcmgr/models/dhcp_range.rb:108-119 | given a lease, the flattened result read as pairs is exactly the complement; (x+1, x) is an empty gap |
| DynamicRanges.UsableMeansBetween | dcmgr/lib/dcmgr/models/dhcp_range.rb:122-134 | prefix matching selects network..broadcast, and usable addresses lie strictly between |
| DynamicRanges.BlockSizeIsPow2 | dcmgr/lib/dcmgr/models/dhcp_range.rb:122-134 | a prefix p leaves 2^(32-p) addresses |
| DynamicRanges.PrefixMeansLeadingBits | dcmgr/lib/dcmgr/models/network.rb:294-304 | a subnet holds exactly the addresses that share its leading bits |
| DynamicRanges.HostBitsOfSubnet | dcmgr/lib/dcmgr/models/dhcp_range.rb:122-134 | the network address has no host bit set, the broadcast address every one, and both are in the subnet |
| DynamicRanges.Network.AddIpv4DynamicRange | dcmgr/lib/dcmgr/models/network.rb:156-169 | the call stores the range or raises and leaves the table as it was |
| DynamicRanges.Network.DelIpv4DynamicRange | dcmgr/lib/dcmgr/models/network.rb:171-180 | the call removes the named range or raises and leaves the table as it was |
| DynamicRanges.Network.Ipv4U32DynamicRangeArray | dcmgr/lib/dcmgr/models/network.rb:148-154 | the array holds an address iff `exists_in_dhcp_range?` (lines 105-109) does, nested ranges included |
| DynamicRanges.HitRangesFinds | dcmgr/lib/dcmgr/models/dhcp_range.rb:22-28 | the query selects the ranges containing one of the addresses |
| DynamicRanges.AddAcceptsExactly | dcmgr/lib/dcmgr/models/network.rb:156-169 | a range is accepted iff it is over usable addresses and every stored range is disjoint from it or strictly enclosed; which error is raised otherwise, in terms of the bounds |
| DynamicRanges.AddKeepsDisjointExactly | dcmgr/lib/dcmgr/models/network.rb:156-169 | an accepted range leaves disjoint ranges disjoint iff it strictly encloses none of them |
| DynamicRanges.LaterRangeSwallowsEarlier | dcmgr/lib/dcmgr/models/network.rb:156-169 | a run of two adds that stores a range and one enclosing it |
| DynamicRanges.ReachableIsLaminar | dcmgr/lib/dcmgr/models/network.rb:156-180 | in every reachable table two ranges are disjoint or strictly nested, strictly between network and broadcast |
| DynamicRanges.DelUndoesAdd | dcmgr/lib/dcmgr/models/network.rb:171-180 | a delete undoes the matching add, removes one row only and raises iff the range is not stored |
| LeaseLifecycle.AddressTables.Create | dcmgr/lib/dcmgr/models/network_vif_ip_lease.rb:94-130 | lease row and index row are added together, or a validation error changes nothing |
| LeaseLifecycle.AddressTables.Destroy | dcmgr/lib/dcmgr/models/network_vif_ip_lease.rb:132-143 | frees the address by value and marks the row, keeping an earlier deletion time |
| LeaseLifecycle.AddressTables.Attach | dcmgr/lib/dcmgr/models/network_vif_ip_lease.rb:23-34 | attaches and stops the handle's expiry; a second attach raises |
| LeaseLifecycle.AddressTables.Detach | dcmgr/lib/dcmgr/models/network_vif_ip_lease.rb:36-46 | detaches and starts the expiry the pool asks for; detaching a free lease raises |
| LeaseLifecycle.AddressTables.Add | dcmgr/lib/dcmgr/models/network_vif.rb:245-263 | `add_ip_lease` as a step on the tables |
| LeaseLifecycle.AddressTables.Remove | dcmgr/lib/dcmgr/models/network_vif.rb:265-276 | `remove_ip_lease` detaches or destroys |
| LeaseLifecycle.AddressTables.AcquireLease | dcmgr/lib/dcmgr/scheduler/ip_address/incremental.rb:54-61 | handle and lease are created together or not at all |
| LeaseLifecycle.AddressTables.ReleaseIpLease | dcmgr/lib/dcmgr/models/network_vif.rb:128-130 | deletes exactly the rows of the vif and frees exactly their addresses, those of deleted rows included |
| LeaseLifecycle.AddressTables.DeleteReserved | dcmgr/lib/dcmgr/models/network.rb:21-25 | deletes exactly the reserved rows of the address and frees it, deleted rows included |
| LeaseLifecycle.AddressTables.DestroyIpHandle | dcmgr/lib/dcmgr/models/ip_handle.rb:63-85 | destroys the lease unless attached; marks an alive handle and drops the expiry of an attached one |
| LeaseLifecycle.AddressTables.Expire | dcmgr/lib/dcmgr/cli/network.rb:393-399 | the loop over the expired handles of unattached leases; an error leaves exactly the handles before it dropped |
| LeaseInvariants.DestroyAllAgreement | dcmgr/lib/dcmgr/models/network_vif_ip_lease.rb:132-143 | destroying rows keeps index and alive rows in agreement iff no destroyed row is deleted already while a surviving row has its address |
| LeaseInvariants.StepAgreement | dcmgr/lib/dcmgr/models/network_vif_ip_lease.rb:94-143 | the same for every operation on leases and handles |
| LeaseInvariants.RunAgreement | dcmgr/lib/dcmgr/models/network_vif_ip_lease.rb:94-143 | over whole runs, from empty tables: agreement throughout iff no step destroys a stale row |
| LeaseInvariants.FreedCanBeLeasedAgain | dcmgr/lib/dcmgr/models/network_vif_ip_lease.rb:105-108 | a leased pair is refused; once freed it can be leased again with the deleted row still in the table |
| LeaseInvariants.StaleReleaseSharesAddress | dcmgr/lib/dcmgr/models/network_vif.rb:128-130 | a run of five calls after which two alive rows share an address |
| LeaseInvariants.CreateAccepts | dcmgr/lib/dcmgr/models/network_vif_ip_lease.rb:94-130 | a lease is created iff its address lies between network and broadcast address, no alive lease has it, and its handle's pool serves the network; the new row and its index row are the only change |
| LeaseInvariants.AcquireAccepts | dcmgr/lib/dcmgr/scheduler/ip_address/incremental.rb:45-61 | the same for an address acquired with a new handle |
| LeaseInvariants.ReleaseDestroysExactly | dcmgr/lib/dcmgr/models/network_vif.rb:128-130 | a release deletes exactly the vif's rows, a freed reservation exactly its reserved rows, with their addresses; every other row stays |
| LeaseInvariants.StepSound | dcmgr/lib/dcmgr/models/ip_handle.rb:63-85 | every operation keeps each alive lease attached, handled or reserved; it keeps attached leases' alive handles without expiry, save exactly an acquire that attaches under an initial expiry; expiring and dropping handles never fail |
| LeaseInvariants.RunAccounted | dcmgr/lib/dcmgr/models/network_vif.rb:245-276 | in every run no alive lease is without an owner, and each handle has exactly one lease |
| LeaseInvariants.RunNeverExpires | dcmgr/lib/dcmgr/models/ip_handle.rb:63-73 | over whole runs: attached leases' alive handles have no expiry throughout iff no accepted step is such an acquire |
| LeaseInvariants.StampedAcquireExpires | dcmgr/lib/dcmgr/scheduler/ip_address/incremental.rb:54-61 | a one-step run that ends with an attached lease whose alive handle expires |
| LeaseInvariants.ExpiryIsSafe | dcmgr/lib/dcmgr/node_modules/maintenance.rb:27-35 | in every state of every run expiry succeeds and deletes exactly the unattached leases whose alive handle is past its time |
| LeaseInvariants.ExpiryMarksHandles | dcmgr/lib/dcmgr/models/ip_handle.rb:16-38 | in every state of every run expiry marks exactly the alive, expired handles of unattached leases |
| LeaseInvariants.SetExpiryTakesEffect | dcmgr/lib/dcmgr/endpoints/12.03/ip_handles.rb:31-39 | an expiry time is set only on an unattached lease's handle, and ends that lease in the first expiry run from then on |
| LeaseInvariants.DropEffect | dcmgr/lib/dcmgr/models/ip_handle.rb:63-85 | all tables after dropping a handle, with and without a vif on its lease and for a handle deleted before |
| LeaseInvariants.DetachUndoesAttach | dcmgr/lib/dcmgr/models/network_vif_ip_lease.rb:23-46 | only a free lease is attached, only an attached one detached; detaching restores rows and index |
| LeaseInvariants.DropUndoesAcquire | dcmgr/lib/dcmgr/models/ip_handle.rb:63-85 | dropping the handle of a lease acquired without a vif frees its address again and leaves every other row as it was |
| LeaseInvariants.RemoveUndoesAdd | dcmgr/lib/dcmgr/models/network_vif.rb:245-276 | giving a lease to a vif and taking it off again restores rows and index; the handle then expires as its pool says |
| IncrementalScheduler.DrainLeasesAllFree | dcmgr/lib/dcmgr/models/network_vif_ip_lease.rb:105-130 | taking `available_ip` and creating the lease until nil gives the vif every free address once, in order, no creation refused |
| IncrementalScheduler.RangeQueryOrdered | dcmgr/lib/dcmgr/models/dhcp_range.rb:11-16 | the query selects the ranges meeting the bounds, by begin or by descending end |
| IncrementalScheduler.ScanRange | dcmgr/lib/dcmgr/scheduler/ip_address/incremental.rb:83-108 | one range: the nearest usable free address; the network's own addresses passed over are leased as reserved |
| IncrementalScheduler.FirstRangeWins | dcmgr/lib/dcmgr/scheduler/ip_address/incremental.rb:74-110 | the first range with a usable free address has the nearest one of all, nested ranges included |
| IncrementalScheduler.GetLeaseAddress | dcmgr/lib/dcmgr/scheduler/ip_address/incremental.rb:66-112 | the nearest usable free address over all ranges, nil iff there is none |
| IncrementalScheduler.LatestAutoIsNewest | dcmgr/lib/dcmgr/scheduler/ip_address/incremental.rb:27-30 | the starting point is the newest alive lease of type auto |
| IncrementalScheduler.Schedule | dcmgr/lib/dcmgr/scheduler/ip_address/incremental.rb:11-62 | next-fit with one wrap-around; it runs out iff no usable address is left in any range, and the lease is never refused as taken or out of range |
| IncrementalScheduler.GrantLeases | dcmgr/lib/dcmgr/scheduler/ip_address/incremental.rb:45-61 | on success the new row is alive, not reserved, has the chosen address and the vif that asked; for a pool it carries the one new handle, of that pool; the skipped addresses have reserved rows and older rows stay |
| IncrementalScheduler.GrantTakesOne | dcmgr/lib/dcmgr/scheduler/ip_address/incremental.rb:25-61 | a granted address heads the order of hand-outs, and that order goes on from it |
| IncrementalScheduler.RunHandsOutRotation | dcmgr/lib/dcmgr/scheduler/ip_address/incremental.rb:11-62 | scheduling again and again without release hands out the usable addresses of all ranges in order from the starting point, around once, and runs out exactly after the last |
| IncrementalScheduler.TurnMembers | dcmgr/lib/dcmgr/scheduler/ip_address/incremental.rb:31-42 | that order lists exactly the unleased addresses of all ranges, the network's own left out, each once |
| IncrementalScheduler.TurnOrder | dcmgr/lib/dcmgr/scheduler/ip_address/incremental.rb:27-42 | it goes from the latest address on, then from the other end; without a lease yet it is plainly ascending or descending |
| JobQueue.QueuedJobs.Submit | dcmgr/lib/dcmgr/models/queued_job.rb:44-56 | appends a pending job |
| JobQueue.QueuedJobs.Pop | dcmgr/lib/dcmgr/models/queued_job.rb:58-81 | hands out a job, nothing, or a validation error |
| JobQueue.QueuedJobs.Cancel | dcmgr/lib/dcmgr/models/queued_job.rb:83-113 | finishes a job that is not finished yet |
| JobQueue.QueuedJobs.FinishSuccess | dcmgr/lib/dcmgr/models/queued_job.rb:116-123 | finishes a job that is not finished yet |
| JobQueue.QueuedJobs.FinishFail | dcmgr/lib/dcmgr/models/queued_job.rb:126-138 | requeues or finishes a job that is not finished yet |
| JobQueue.FirstWaiting | dcmgr/lib/dcmgr/models/queued_job.rb:61-64 | the first pending row of the queue by id |
| JobQueue.RefusedExactly | dcmgr/lib/dcmgr/models/queued_job.rb:14-34 | which calls are refused, with which error; a refusal changes nothing |
| JobQueue.LimitOverRuns | dcmgr/lib/dcmgr/models/queued_job.rb:68-73 | in every run a job keeps its queue and the limit it was submitted with, but that a zero limit becomes the positive default of its first worker |
| JobQueue.FinishedByLastFailure | dcmgr/lib/dcmgr/models/queued_job.rb:126-138 | a job whose attempts all fail is finished exactly by its max(1, limit)-th failure |
| JobQueue.ReachableIsConsistent | dcmgr/lib/dcmgr/models/queued_job.rb:14-34 | in every run state, worker, finish and start columns agree, retry_count <= max(1, retry_max), and pending jobs are untried or below their limit |
| JobQueue.PopsAreCounted | dcmgr/lib/dcmgr/models/queued_job.rb:75-77 | the retry counts add up to the pops of the run |
| JobQueue.TotalPopsBounded | dcmgr/lib/dcmgr/models/queued_job.rb:58-81 | over any interleaving the pops are at most the sum of max(1, retry_max) |
| JobQueue.PopUsesUpAttempts | dcmgr/lib/dcmgr/models/queued_job.rb:126-138 | a measure that every pop decreases and no call but submit increases |
| JobQueue.QueueRunsDry | dcmgr/lib/dcmgr/models/queued_job.rb:58-81 | without submissions the number of further pops is bounded in advance |
| JobQueue.PopIsFirstInFirstOut | dcmgr/lib/dcmgr/models/queued_job.rb:60-64 | a pop takes the least pending id of its queue, and nothing only when none is pending |
| JobQueue.FailedJobIsNext | dcmgr/lib/dcmgr/models/queued_job.rb:126-138 | a popped job that fails is the next one its queue hands out iff it has attempts left, else it is finished; no other row changes |
| JobQueue.RowsSettle | dcmgr/lib/dcmgr/models/queued_job.rb:105-146 | finished rows never change, started_at and the limit of a started job never change |
| JobQueue.HandedOutOnce | dcmgr/lib/dcmgr/models/queued_job.rb:58-81 | between two pops of one job lies a failure report that requeued it |
| ChangeHistory.ArchivedTable.StoreChanges | dcmgr/lib/dcmgr/models/base_new.rb:432-452 | the loop appends one entry per column |
| ChangeHistory.ArchivedTable.Create | dcmgr/lib/dcmgr/models/base_new.rb:419-423 | inserts the row and logs all columns; a duplicate uuid or a row the database refuses changes nothing |
| ChangeHistory.ArchivedTable.Update | dcmgr/lib/dcmgr/models/base_new.rb:425-429 | stores the row and logs the changed columns only; a refused row changes nothing |
| ChangeHistory.ArchivedTable.Snapshot | dcmgr/lib/dcmgr/models/base_new.rb:393-417 | overwrites a copy of the current row from the log, or raises outside the life span |
| ChangeHistory.ReachableRowsAccepted | dcmgr/lib/dcmgr/models/base_new.rb:419-429 | in every run each stored row is one the database accepts |
| ChangeHistory.CreateStores | dcmgr/lib/dcmgr/models/base_new.rb:419-423 | a create is stored iff its uuid is new and every value fits its column; the row it leaves |
| ChangeHistory.CreateLogs | dcmgr/lib/dcmgr/models/base_new.rb:432-452 | a stored create adds one entry per column: the value assigned unless nil or false, else the default; large columns as blobs |
| ChangeHistory.UpdateStores | dcmgr/lib/dcmgr/models/base_new.rb:425-429 | an update is stored iff the assigned values fit their columns; it sets those, keeps the other columns and all other objects |
| ChangeHistory.UpdateLogs | dcmgr/lib/dcmgr/models/base_new.rb:425-429 | a stored update adds one entry for each column that changed, with its new value, and no other |
| ChangeHistory.SnapshotGranted | dcmgr/lib/dcmgr/models/base_new.rb:393-399 | a snapshot is granted exactly from the creation to the termination |
| ChangeHistory.LogIsPast | dcmgr/lib/dcmgr/models/base_new.rb:404-417 | at every time from the creation on the log gives the value the column had then, if the creation was logged truly |
| ChangeHistory.SnapshotRestoresPast | dcmgr/lib/dcmgr/models/base_new.rb:393-417 | the same for a snapshot inside the life span; at the creation time only then |
| ChangeHistory.HistoryIsExact | dcmgr/lib/dcmgr/models/base_new.rb:393-452 | all snapshots of the life span are right in a column iff its creation was logged truly |
| ChangeHistory.ExactColumns | dcmgr/lib/dcmgr/models/base_new.rb:393-452 | a column is right in all snapshots of all objects in every run iff it is NOT NULL or defaults to nil, and defaults to false if boolean |
| ChangeHistory.ValueIsLostAtCreation | dcmgr/lib/dcmgr/models/base_new.rb:444-449 | in any other column a create the database accepts is reported with the default |
| ChangeHistory.InstanceHistoryIsExact | dcmgr/config/db/migrations/0001_v1110_origin.rb:129-150 | for the columns of instances every snapshot is right, whatever is assigned at creation |
| DeviceNames.CandidateIsLeastFree | dcmgr/lib/dcmgr/models/volume.rb:48-55 | the shortlex-least name above the list's minimum and not in it, for every order and repetition, iff no name is empty; nil iff the list is |
| DeviceNames.CarryIsPlusOne | dcmgr/lib/dcmgr/models/volume.rb:52-54 | succ with carry is +1 in bijective base 26 |
| DeviceNames.ShortLessIsLess | dcmgr/lib/dcmgr/models/volume.rb:50 | the sort order is the numeric order, and the numbering is injective |
| DeviceNames.SortKeepsNames | dcmgr/lib/dcmgr/models/volume.rb:50 | sorting keeps the names |
| DeviceNames.EmptyNameStalls | dcmgr/lib/dcmgr/models/volume.rb:54 | with an empty name in the list the answer is that name |
| FilterClause.RewriteKeepsMeaning | frontend/dcmgr_gui/app/models/base_new.rb:216-242 | with the filter only under ANDs, the rewritten tree has the three-valued truth of the original with each filter read as TRUE |
| FilterClause.WithDeletedRestores | frontend/dcmgr_gui/app/models/base_new.rb:254-257 | rewriting (alive AND P) is equivalent to P |
| FilterClause.TargetFreeIsKept | frontend/dcmgr_gui/app/models/base_new.rb:216-242 | a tree without the filter comes back as it is |
| FilterClause.NoTargetSurvives | frontend/dcmgr_gui/app/models/base_new.rb:216-247 | no filter is left in the result, iff no IS node shrinks to a new one |
| FilterClause.OtherOperandStays | frontend/dcmgr_gui/app/models/base_new.rb:234-235 | a two-argument node with the filter on one side becomes its other side |
| FilterClause.RewriteIsIdempotent | frontend/dcmgr_gui/app/models/base_new.rb:216-242 | a second rewrite changes nothing |
| FilterClause.TargetsAreNeutral | frontend/dcmgr_gui/app/models/base_new.rb:216-242 | the truth of the rewritten tree, for every tree of ANDs, ORs and NOTs: each filter is read as TRUE under AND, FALSE under OR, and as making true an operator with nothing but filters |
| FilterClause.NeutralIsTrueWherePlaced | frontend/dcmgr_gui/app/models/base_new.rb:216-242 | in such a tree that reading is the reading as TRUE iff no OR mixes filters with other alternatives and no NOT stands right above a filter |
| FilterClause.PlacedKeepsMeaning | frontend/dcmgr_gui/app/models/base_new.rb:216-242 | then the rewritten tree has the truth of the original with each filter read as TRUE, at any depth |
| FilterClause.UnderAndsIsPlaced | frontend/dcmgr_gui/app/models/base_new.rb:216-242 | filters under ANDs only are placed so |
| FilterClause.RewriteAddsNoRows | frontend/dcmgr_gui/app/models/base_new.rb:216-242 | with filters under ANDs and ORs at any depth the rewritten tree is never truer than with each filter read as TRUE |
| FilterClause.NegatedTargetIsTrue | frontend/dcmgr_gui/app/models/base_new.rb:236-238 | a filter under NOT becomes true of every row instead of none |
| FilterClause.DroppedUnderOr | frontend/dcmgr_gui/app/models/base_new.rb:221-233 | in one OR the filter is dropped, and on which rows that agrees with TRUE |
| FilterClause.HarmlessUnderOr | frontend/dcmgr_gui/app/models/base_new.rb:221-233 | it agrees on every row iff the other alternatives are true without looking at the row |
| FilterClause.DroppedUnderOrLosesRow | frontend/dcmgr_gui/app/models/base_new.rb:221-233 | a condition and a row that is lost |
| FilterClause.CollapsedComparisonSurvives | frontend/dcmgr_gui/app/models/base_new.rb:234-235 | a tree in which a filter is left behind |
| MacAddresses.PrettyMacAddr | dcmgr/lib/dcmgr/models/mac_lease.rb:45-52 | pads in a loop, then joins the digit pairs |
| MacAddresses.PrettyText | dcmgr/lib/dcmgr/models/mac_lease.rb:45-52 | the text is the twelve lower-case digits of the address in six groups |
| MacAddresses.NormalizeAnyText | dcmgr/lib/dcmgr/models/network_vif.rb:294-300 | any text is normalised to its hexadecimal digits in lower case, and refused iff there are more than twelve |
| MacAddresses.PrettyRoundTrip | dcmgr/lib/dcmgr/models/network_vif.rb:294-300 | normalising a printed address gives 12 digits with its value, so the lease lookup by value hits; refused exactly from 2^48 on |
| MacAddresses.SplitRoundTrip | dcmgr/lib/dcmgr/models/mac_lease.rb:32-42 | vendor and device part make up the address again |
| MacAddresses.SixDigitsTakeVendor | dcmgr/lib/dcmgr/models/mac_lease.rb:32-42 | six digits are read like twelve with the configured vendor in front; other sizes give nil |
| MacAddresses.IntToMac | dcmgr/lib/dcmgr/cli/mac_range.rb:17-24 | pads in a loop, then inserts the delimiters |
| MacAddresses.IntText | dcmgr/lib/dcmgr/cli/mac_range.rb:17-24 | the text is the six lower-case digits of the number in three groups |
| MacAddresses.ReadsOneGroup | dcmgr/lib/dcmgr/cli/mac_range.rb:11-31 | digits without delimiter are read as their number iff there are one to six |
| MacAddresses.ReadsTwoGroups | dcmgr/lib/dcmgr/cli/mac_range.rb:11-31 | two groups of one or two digits are read with their digits run together |
| MacAddresses.ReadsThreeGroups | dcmgr/lib/dcmgr/cli/mac_range.rb:11-31 | so are three groups: a single digit is not read as a pair |
| MacAddresses.IntRoundTrip | dcmgr/lib/dcmgr/cli/mac_range.rb:11-31 | reading back what is printed is the identity exactly below 2^24, an error above |
| MacAddresses.RangeByParts | dcmgr/lib/dcmgr/models/mac_range.rb:29-35 | a range holds the addresses of its vendor whose device part lies between its ends |
| MacAddresses.LeftMeansTwoFree | dcmgr/lib/dcmgr/models/mac_range.rb:8-15 | addresses left means at least two free ones, and over distinct leases exactly that |
| MacAddresses.LastFreeMacIsHidden | dcmgr/lib/dcmgr/models/mac_range.rb:8-15 | a range of one unleased address reports none left |
| MacAddresses.GetRandomAvailableMac | dcmgr/lib/dcmgr/models/mac_range.rb:18-26 | returns the first unleased draw, which lies in the range; while it searches a free address exists |
| HostCapacity.CheckIsExact | dcmgr/lib/dcmgr/models/host_node.rb:83-90 | the check holds iff the node stays within its offering with the instance |
| HostCapacity.RunStaysWithinOffering | dcmgr/lib/dcmgr/models/host_node.rb:83-90 | no run of checked placements, terminations and state changes overloads a node |
| HostCapacity.PlacedWhenItFits | dcmgr/lib/dcmgr/models/host_node.rb:83-90 | in every run an instance is placed iff its node stays within its offering with it |
| HostCapacity.DomainIsPartitioned | dcmgr/lib/dcmgr/models/host_node.rb:179-181 | the domain sum is the sum of the node sums |
| HostCapacity.DomainAvailableIsFreeSum | dcmgr/lib/dcmgr/models/host_node.rb:178-199 | the domain compares the summed free resources plus the unreserved part of the stopped instances |
| HostCapacity.StoppedIsPartitioned | dcmgr/lib/dcmgr/models/host_node.rb:181-182 | the share of the stopped instances is summed node by node as well |
| HostCapacity.DomainCheckIsExact | dcmgr/lib/dcmgr/models/host_node.rb:178-199 | the check passes iff for either resource the demand fits into the free sum plus the stopped share minus the floor of factor times that share |
| HostCapacity.FullReserve | dcmgr/lib/dcmgr/models/host_node.rb:178-199 | at factor 1 it passes iff the demand fits into the free sum |
| HostCapacity.NodeFitsDomainFits | dcmgr/lib/dcmgr/models/host_node.rb:178-199 | if an online node takes an instance, so does the domain, at every usage factor in [0,1] |
| HostCapacity.DomainFitsNoNodeFits | dcmgr/lib/dcmgr/models/host_node.rb:178-199 | the converse fails |
| SecurityGroups.GroupTables.LinkReferencees | dcmgr/lib/dcmgr/models/security_group.rb:77-95 | the create pass over the rule lines |
| SecurityGroups.GroupTables.PruneReferencees | dcmgr/lib/dcmgr/models/security_group.rb:97-103 | the delete pass over the references |
| SecurityGroups.GroupTables.SaveGroup | dcmgr/lib/dcmgr/models/security_group.rb:105-130 | delete pass, row, create pass; a malformed rule changes nothing |
| SecurityGroups.GroupTables.DestroyGroup | dcmgr/lib/dcmgr/models/security_group.rb:132-138 | refuses or removes the group with its references |
| SecurityGroups.SaveSetsReferences | dcmgr/lib/dcmgr/models/security_group.rb:77-103 | a save is accepted iff no line is malformed; right after it the references are exactly the existing groups its lines name, and other groups' references stay |
| SecurityGroups.RunSound | dcmgr/lib/dcmgr/models/security_group.rb:105-138 | in every run edges join existing groups, are named by the referencer's rules and stored once |
| SecurityGroups.DestroyOnlyUnreferenced | dcmgr/lib/dcmgr/models/security_group.rb:132-138 | a group is destroyed iff it exists, has no interface and no reference to it, and only its own references go |
| SecurityGroups.SelfReferenceStays | dcmgr/lib/dcmgr/models/security_group.rb:132-138 | in every run a group whose current rules name it has the edge to itself and is not destroyed |

## Left out

- FilterClause.RewriteKeepsMeaning: trees are values; that `reject!` also drops the arguments from the original tree in place is not captured.
- FilterClause.NeutralIsTrueWherePlaced: the condition is filter by filter; a tree that breaks it can still agree with TRUE on all rows by what stands beside the filter, for which the exact condition is given for one OR (`HarmlessUnderOr`).
- ChangeHistory.HistoryIsExact: the primary key column is excepted (it is logged before the database assigns it), and times of events increase strictly. The implicit defaults that MySQL outside strict mode gives omitted NOT NULL columns are not modelled.
- MacAddresses.GetRandomAvailableMac: the unbounded random search is run on a finite stretch of draws.
- MacAddresses.IntRoundTrip: the format patterns are read for single-line texts.
- DeviceNames.CandidateIsLeastFree: lower-case letters only. The hypervisor tests the downcased name against its patterns (dcmgr/lib/dcmgr/drivers/hypervisor/linux_hypervisor/kvm.rb:26), so upper-case names pass it too; Ruby's successor of upper-case and mixed names is not modelled.
- IncrementalScheduler.Schedule: addresses the scheduler reserved before running out stay reserved, as for callers that catch the exception (dcmgr/lib/dcmgr/scheduler/network/network_group.rb:65); the rollback of an enclosing transaction that fails later is not modelled.
- Locks and isolation: every call is atomic; the finish calls of the job queue read without a row lock.
- The address 0.0.0.0, for which the join's unsigned subtraction would fail in MySQL.
- Rule text parsing (ports, ICMP fields, address syntax), NAT lookups, network routes, service lookups and load balancer ports.
- The unique database indexes beyond (network, ipv4), tags, labels, uuid generation, serialisation of job parameters.
- RPC handlers, HTTP endpoints, user interfaces, clients and configuration.
