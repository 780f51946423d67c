# Verification of the heavy-flow offload agent

Dafny models of the four stateful parts of the gateway agent and proofs about every run of
them. `dafny verify dfyconfig.toml` checks the whole project.

**The Top-K tracker** (`Sets`, `Flow`, `OrderedChains`, `BucketList`, `SpaceSavingSpec`,
`StreamSummary`, `Sorting`, `SpaceSaving`, `TopKDiff`, `Offload`). The array-encoded
Stream-Summary of the Space-Saving algorithm threads four structures through one set of
element ids: a bucket list, an element chain per bucket, hash chains and a stack of free
ids. `StreamSummary` keeps all of them consistent and refines the map from flows to counts
of `SpaceSavingSpec`, where the frequency guarantees are proved. Chains are described
without paths: each link carries a ghost stamp, and `next` is the member of the same chain
with the greatest smaller stamp. The stamps also settle ties: of several least flows the one
whose last packet is the latest is evicted, so the tables follow from the packets alone.
`Offload` runs the epochs: inserts, dump, diff, and shows that the installed rules are those
of the newest table.

**The route control plane** (`RouteState`, `RouteProofs`, `RouteNeighs`, `RouteBalance`,
`RouteTheorems`, `Route`, `RouteView`, `Vrf`, `Runs`, `Requests`, and `CountedList` for the
address list of a VRF). RIB, FIB, result slots, shared next hops and neighbours, tied
together by reference counts. The operations of `Route` change the tables step by step with
their rollbacks, while allocators and hash tables may fail at any step (`Env`), and are
proved against the functions of `RouteState` and `RouteProofs`. The invariant has two parts:
`Core`, about the tables of the code, holds whatever the VRFs share; `Balanced` and
`Counted`, about the neighbours, are kept under the conditions of `RouteBalance`.
`RouteView` shows what the counted tables stand for, a map from prefixes to ordered lists of
next hops. `Runs` gives a step relation on VRF entries, that map and the neighbour table,
and proves that it determines every run; `Requests` proves that the tables follow it.

**The longest-prefix-match table** (`Bits`, `IpAddress`, `IpPrefix`, `IpNumber`, `LpmTable`):
mask arithmetic over words and byte arrays, its meaning for addresses as numbers, and lookup
as the longest match.

**The P4 sketch** (`Sketch`): run lengths per bucket over whole packet histories.

## Where the code departs from what it is for

- `clear()` loops over the whole hash index but assigns `head2[0]` every time
  (`platform/drivers/top_k/space_saving.cpp:26`). The constant `wipe` of `StreamSummary`
  selects the code as written (`false`) or as meant (`true`). `StreamSummary.Clear`,
  `TopKDump` and `Epoch` state exactly when the code as written still empties the summary,
  `StaleIndexAfterDump` shows it failing, `LoopAfterDump` how a hash chain closes on itself
  next, and `Offload.Run` holds for the meant version, and for the written one on flows that
  hash to slot 0.
- The next-hop key has no VRF (`agent/route.c:139-142`) but the neighbour key has
  (`agent/neigh.h:20-23`). An insert may take a reference on a next hop that holds the
  neighbour of another VRF, which leaves every table consistent and every count right. The
  last release through a VRF whose neighbour it is not leaves that neighbour with a count too
  high (`VanishedAstray`), and takes a live next hop's neighbour away if the releasing VRF has
  one with a single reference (`WrongNeighbour`). `UnrefBalance` has the exact condition,
  `RouteNhopDelete`, `RouteDelete` and `RouteCleanup` lift it, and `SharedNhopLeaks` is a leak.
  `Requests.Run` keeps all counts right if each next hop is asked for by one VRF name only
  (`AllForHome`).
- `shc_vrf_add` sets the neighbour counter of the entry to 0, which is wrong exactly if such
  a leak had left it above (`ResetCounts`, `VrfTable.Add`), as `SharedNhopLeaks` does.
- A count that reaches `N` collides with the right sentinel: `Insert` leaves a valid tracker
  if and only if the next count of its flow is below `N`, and otherwise a bucket list whose
  walk from `N` does not end or that looks empty (`Broken`). Fewer than `N` inserts between
  dumps never get there (`NextCountBelow`), `N` of one flow do (`OverrunAfterN`).
- `mpath` is declared with `ROUTE_MAX_ECMP` = 1 elements (`agent/route.h:84`, `agent/shc_dp.h:32-35`)
  while multicast routes take up to 8; the model gives it `MAX_NHOPS_PER_RTOUE`.
- `fib_nhop_equal` recognises no next hop whose encapsulation type is not one that
  `SHC_ENCAP_TYPE_VALID` accepts (`agent/route.h:13-14`), and the insert does not reject it: such a
  next hop can be put on one multicast route twice (`RepeatedNhopBreaks`). `RouteNhopInsert`
  says exactly when the tables stay consistent, `RecognisedNeverRepeat` that no other insert is
  affected, and `Requests.Run` covers every run without such a repetition (`NeverRepeats`).
- `fib_nhop_equal` ignores the gateway of TGRE next hops, and the check for a full route
  precedes the check for an equal next hop; the model follows both.

## Model

| member | source | states |
|---|---|---|
| `Flows.LessIsStrictTotalOrder` | platform/drivers/hal_topk_type.hpp:13-24 | the flow order is irreflexive, transitive and total with the field-by-field equality, which both sorts and the merge rely on |
| `Flows.LessIsBySource` | platform/drivers/hal_topk_type.hpp:13-24 | a smaller source address comes first whatever the rest, then a smaller destination, then a smaller port |
| `SpaceSavingSpec.StepKeepsBounds` | platform/drivers/top_k/space_saving.cpp:135-165 | one insert keeps the Space-Saving guarantees: a monitored count is between the true count and the true count plus the minimum, an unmonitored flow occurred at most minimum times, the counts add up to the packets |
| `SpaceSavingSpec.StepIsDetermined` | platform/drivers/top_k/space_saving.cpp:135-165 | a packet leaves one table: which of several least flows goes is settled by their last packets, the latest goes |
| `SpaceSavingSpec.TablesAreDetermined` | platform/drivers/top_k/space_saving.cpp:135-165 | the tables of a run follow from its packets alone |
| `SpaceSavingSpec.LeadsToOne` | platform/drivers/top_k/space_saving.cpp:135-165 | so a valid tracker has just one table for the packets since the last clear |
| `SpaceSavingSpec.RunBounds` | platform/drivers/top_k/space_saving.cpp:135-165 | the guarantees hold after every prefix of every run of inserts since the last clear |
| `SpaceSavingSpec.RunFloorMonotone` | platform/drivers/top_k/space_saving.cpp:75-80 | along a run the minimum never decreases and a full table stays full |
| `SpaceSavingSpec.FloorAtMostAverage` | platform/drivers/top_k/space_saving.cpp:135-165 | capacity times the minimum is at most the number of packets |
| `SpaceSavingSpec.HeavyFlowIsMonitored` | platform/drivers/top_k/space_saving.cpp:135-165 | a flow with more than total/capacity packets is monitored, and its count is off by at most total/capacity |
| `SpaceSavingSpec.NextCountBelow` | platform/drivers/top_k/space_saving.cpp:178-208 | fewer than N packets since the last clear keep every bucket index strictly between the sentinels 0 and N |
| `SpaceSavings.EvictAfterAdmit` | platform/drivers/top_k/space_saving.cpp:143-157 | admitting at minimum + 1 and then evicting the newest least element replaces the old least flow whose last packet is the latest; the newcomer is never the victim |
| `OrderedChains.PushKeepsChained` | platform/drivers/top_k/space_saving.cpp:51-55 | pushing on a chain keeps every chain complete and acyclic; also the head insertion of lines 85-88 |
| `OrderedChains.PopKeepsChained` | platform/drivers/top_k/space_saving.cpp:96-119 | taking the first element off its chain does |
| `OrderedChains.CutKeepsChained` | platform/drivers/top_k/space_saving.cpp:96-119 | and so does splicing out an element after a known predecessor |
| `OrderedChains.RemoveKeepsMirrored` | platform/drivers/top_k/space_saving.cpp:96-104 | the doubly linked element chain stays its own inverse under cut |
| `BucketList.LinkKeepsListed` | platform/drivers/top_k/space_saving.cpp:62-68 | linking a bucket right of its greatest smaller bucket keeps Left and Right inverse, strictly increasing and exactly the nonempty buckets |
| `BucketList.CutKeepsListed` | platform/drivers/top_k/space_saving.cpp:69-74 | unlinking a bucket keeps the same |
| `BucketList.LinkAtSentinelLoops` | platform/drivers/top_k/space_saving.cpp:62-68 | a bucket equal to the sentinel N ties Left[N] to N, so no bucket set is listed any more and the walk of work() would not end |
| `StreamSummaries.StreamSummary.constructor` | platform/drivers/top_k/space_saving.cpp:16-18 | on storage taken as zeroed only the capacity is set |
| `StreamSummaries.StreamSummary.Clear` | platform/drivers/top_k/space_saving.cpp:20-32 | after clear() nothing is monitored and the id stack is full, with id M + 2 on top; all four structures are consistent if and only if every hash slot but 0 was already empty (as written) or all slots are wiped (as meant) |
| `StreamSummaries.StreamSummary.ClearSlots` | platform/drivers/top_k/space_saving.cpp:26 | which slots the loop of line 26 empties: slot 0 only, as written |
| `StreamSummaries.StreamSummary.GetId` | platform/drivers/top_k/space_saving.cpp:33-45 | an id comes off the free stack, distinct from all used ones, its fields reset; no chain is disturbed |
| `StreamSummaries.StreamSummary.AddIndex` | platform/drivers/top_k/space_saving.cpp:51-55 | the two links written; on consistent chains the element joins exactly the hash chain of its slot |
| `StreamSummaries.StreamSummary.Find` | platform/drivers/top_k/space_saving.cpp:56-61 | returns an element of the flow if and only if the flow is monitored |
| `StreamSummaries.StreamSummary.LinkHead` | platform/drivers/top_k/space_saving.cpp:62-68 | the bucket list gains exactly this bucket, in order; bucket N overwrites the links of the right sentinel instead |
| `StreamSummaries.StreamSummary.CutHead` | platform/drivers/top_k/space_saving.cpp:69-74 | which two links change; with CutBuckets the list loses exactly this bucket |
| `StreamSummaries.StreamSummary.GetMin` | platform/drivers/top_k/space_saving.cpp:75-80 | the minimum count of a full table, 0 before; the branch answering 1 is dead |
| `StreamSummaries.StreamSummary.MinBucket` | platform/drivers/top_k/space_saving.cpp:75-80 | Right[0] is the minimum count and heads a nonempty chain |
| `StreamSummaries.StreamSummary.ListedIsNotBroken` | platform/drivers/top_k/space_saving.cpp:75-80 | with the buckets properly listed the walk of work() leaves N and getmin() does not meet an empty list with an element at N |
| `StreamSummaries.StreamSummary.Link` | platform/drivers/top_k/space_saving.cpp:81-95 | element chains and bucket list stay valid and the nine-step scan with its fallback finds the same left neighbour as a full search; at count N the sentinel is overwritten |
| `StreamSummaries.StreamSummary.Cut` | platform/drivers/top_k/space_saving.cpp:96-104 | the element leaves its chain, and the bucket leaves the list exactly when it becomes empty |
| `StreamSummaries.StreamSummary.Recycle` | platform/drivers/top_k/space_saving.cpp:105-120 | the element leaves its hash chain and its id goes on top of the free ids |
| `StreamSummaries.StreamSummary.Unindex` | platform/drivers/top_k/space_saving.cpp:107-118 | the search for the predecessor ends and unlinks exactly this element |
| `StreamSummaries.StreamSummary.Admit` | platform/drivers/top_k/space_saving.cpp:146-150 | an absent flow enters at the given count; no other count changes and the representation stays valid; at count N the bucket list is broken |
| `StreamSummaries.StreamSummary.Evict` | platform/drivers/top_k/space_saving.cpp:153-156 | one flow of minimum count leaves, of several the one linked last; no other count changes; a list broken at N stays broken |
| `StreamSummaries.StreamSummary.LeastIsNewest` | platform/drivers/top_k/space_saving.cpp:153 | the head of the first bucket is the newest of the least flows |
| `StreamSummaries.StreamSummary.Bump` | platform/drivers/top_k/space_saving.cpp:160-164 | a monitored flow goes up by one and nothing else changes; at count N the bucket list is broken |
| `SpaceSavings.SpaceSaving.constructor` | platform/drivers/top_k/space_saving.cpp:123-130 | an empty tracker whose invariant holds |
| `SpaceSavings.SpaceSaving.Insert` | platform/drivers/top_k/space_saving.cpp:135-165 | from any valid tracker: the invariant survives if and only if the next count of the flow stays below N, and otherwise the bucket list is broken; below N Insert refines the abstract step on the map from flows to counts, which replaces a least flow, of several the one whose last packet is the latest, and runs the eviction loop exactly once when a full table meets a new flow and never otherwise |
| `SpaceSavings.SpaceSaving.PlaceForNew` | platform/drivers/top_k/space_saving.cpp:143-150 | the id stack is not empty, and the left neighbour of the new bucket is 0 or the minimum bucket right below it, so fallback 0 is right |
| `SpaceSavings.SpaceSaving.OneBucketLeft` | platform/drivers/top_k/space_saving.cpp:143-157 | a full table whose minimum is N - 1 has no bucket but that one, so the eviction after an overrun finds an element |
| `SpaceSavings.SpaceSaving.EvictSurplus` | platform/drivers/top_k/space_saving.cpp:151-157 | the loop restores the capacity, in one round exactly when the table was full, and completes the abstract step with the latest of the least flows; a list broken at N stays broken |
| `SpaceSavings.WalkNext` | platform/drivers/top_k/space_saving.cpp:181-182 | the inner loop visits the next live element of the bucket, none twice |
| `SpaceSavings.WalkDone` | platform/drivers/top_k/space_saving.cpp:181-182 | a finished walk has listed every monitored flow once, by nonincreasing count, before any sort |
| `SpaceSavings.SpaceSaving.Collect` | platform/drivers/top_k/space_saving.cpp:180-182 | from CNT = 0 the walk ends with CNT equal to tot, the scratch buffer is not overrun and holds exactly the monitored flows by nonincreasing count |
| `SpaceSavings.SpaceSaving.Work` | platform/drivers/top_k/space_saving.cpp:178-184 | work(), with CNT set to 0 and the sort, however it breaks ties, leaves the same |
| `SpaceSavings.PrefixIsTopK` | platform/drivers/top_k/space_saving.cpp:196-203 | the first K rows of that list, sorted by flow id, are a strictly sorted top-K table |
| `SpaceSavings.SpaceSaving.TopKDump` | platform/drivers/top_k/space_saving.cpp:190-208 | the old table takes the former new one; the new one holds min(tot, K) flows, strictly sorted, none omitted with a larger count; the tracker stays valid if and only if the clear at the end was complete |
| `SpaceSavings.SpaceSaving.StaleSlots` | platform/drivers/top_k/space_saving.cpp:26 | no slot but 0 is in use if and only if every monitored flow hashes to slot 0 |
| `Sorting.SortPrefix` | platform/drivers/top_k/space_saving.cpp:183 | std::sort: an ordered permutation of the prefix |
| `TopKDiff.MergeDelete` | agent/topk_deal.cpp:53-60 | the three steps of the merge: a flow only in the old table is deleted |
| `TopKDiff.MergeAdd` | agent/topk_deal.cpp:61-68 | a flow only in the new table is added |
| `TopKDiff.MergeSkip` | agent/topk_deal.cpp:47-52 | a flow in both is skipped |
| `TopKDiff.Diff` | agent/topk_deal.cpp:24-70 | on strictly sorted tables: one add for each flow only in the new table, one delete for each only in the old one, in increasing flow order, and nothing else; replaying them turns old into new |
| `TopKDiff.DiffIsDetermined` | agent/topk_deal.cpp:24-70 | these conditions leave one sequence of operations |
| `TopKDiff.ReplayExact` | agent/topk_deal.cpp:27-70 | what operations in flow order do to any installed set |
| `TopKDiff.OpCount` | agent/topk_deal.cpp:27-70 | they are as many as the symmetric difference has flows |
| `Offloads.Offload.DiffCmp` | agent/topk_deal.cpp:18-71 | dump and diff: the log grows by the difference of the two newest tables and nothing else, one operation per flow, in flow order; the installed set, the replay of all operations so far, is then the set of flows of the newest table |
| `Offloads.Offload.EmitDiff` | agent/topk_deal.cpp:24-70 | the log grows by exactly the difference, as many operations as the symmetric difference has flows |
| `Offloads.Offload.Epoch` | agent/topk_deal.cpp:18-71 | one batch of inserts, dump and diff: the new table is the top-K table of the counts the batch leads to, the log grows by its difference to the table before and nothing else; the tracker survives if and only if the clear was complete |
| `Offloads.Offload.Run` | agent/topk_deal.cpp:18-71 | the same over any number of epochs: a table for each batch, and the log grows by the differences of consecutive tables, one after the other; with a clear that wipes the whole index or, as written, with batches whose flows all hash to slot 0 |
| `Offloads.RanAt` | agent/topk_deal.cpp:18-71 | after every epoch of a run the installed flows are those of the table of its own batch |
| `Offloads.InstalledIs` | agent/topk_deal.cpp:18-71 | replaying the differences of a run installs its last table |
| `Offloads.HeavyFlowIsOffloaded` | platform/drivers/top_k/space_saving.cpp:190-208 | a flow with more than 1/capacity of a batch, or more than 1/(K + 1) where the capacity exceeds K, is in the table installed for it |
| `Offloads.OmittedIsBelowAll` | platform/drivers/top_k/space_saving.cpp:193-203 | K + 1 times the count of an omitted flow is at most the sum of all counts |
| `SpaceSavingSpec.TotalOverRows` | platform/drivers/top_k/space_saving.cpp:135-165 | the sum of all counts is at least that of any set of rows |
| `Offloads.OmittedFlowIsLight` | platform/drivers/top_k/space_saving.cpp:190-208 | an omitted flow exceeds an installed one by at most total/capacity packets |
| `Offloads.StaleIndexAfterDump` | platform/drivers/top_k/space_saving.cpp:26 | with clear() as written one packet and one dump suffice to leave a stale element that find() would return, and it is the one getid() hands out next |
| `Offloads.LoopAfterDump` | platform/drivers/top_k/space_saving.cpp:26-61 | the next flow of that slot is then indexed behind itself, and the walk of find() never leaves it |
| `Offloads.OverrunAfterN` | platform/drivers/top_k/space_saving.cpp:135-165 | for every N > 0, N packets of one flow make its count reach N and break the bucket list, so the bound of NextCountBelow is tight |
| `Routes.ControlPlane.constructor` | agent/vrf.c:267-298 | the tables after initialisation satisfy the invariant, the blackhole slot reserved |
| `Routes.EqualByType` | agent/route.c:188-213 | what counts as the same next hop: with VXLAN the very same key, with TGRE the same tunnel behind whatever gateway, with an invalid type none |
| `Routes.InsertAnswers` | agent/route.c:613-691 | the result of an insert, case by case: its three checks, then each call to a library in turn, with the code of the first that refuses |
| `Routes.InsertMeansAppended` | agent/route.c:613-691 | what a successful insert means: the next hop is the last one of its prefix, all other lists are as before, and an unknown next hop takes a reference on its neighbour |
| `Routes.RemoveAnswers` | agent/route.c:725-806 | the result of a next-hop delete, case by case |
| `Routes.RemoveMeansTakenOff` | agent/route.c:725-806 | what a delete that found its next hop means: it left the list, the others keep their order, the prefix goes with its last one |
| `Routes.ControlPlane.NeighAdd` | agent/neigh.c:263-311 | adds one reference, creating the entry and counting it in the VRF; exact result, nothing changes on failure |
| `Routes.ControlPlane.NeighDel` | agent/neigh.c:313-348 | drops one reference, removing the entry and its counts with the last |
| `Routes.ControlPlane.NhopObjCreate` | agent/route.c:218-308 | takes one reference on a shared next hop, creating it and its neighbour reference if unknown; exact result, every failing branch restores all tables |
| `Routes.ControlPlane.CreateNew` | agent/route.c:234-270 | the branch for an unknown next hop with its three rollbacks and exact result |
| `Routes.ControlPlane.NhopObjDelete` | agent/route.c:525-572 | drops one reference; the last one removes the next hop from the hash and releases its neighbour |
| `Routes.ControlPlane.FibResIdAlloc` | agent/route.c:353-372 | the first free slot, reset: every smaller one was in use; fails only if none is free |
| `Routes.ControlPlane.FibResObjCreate` | agent/route.c:387-441 | the new slot holds the given next hops in order, inherited flags and the type's limits |
| `Routes.ControlPlane.RtPrefixObjUpdate` | agent/route.c:453-523 | RIB and FIB move together to the new slot, or neither does: the result is 0 if and only if both additions were accepted |
| `Routes.ControlPlane.RtPrefixObjDelete` | agent/route.c:694-719 | RIB, FIB and the VRF's counter lose the prefix |
| `Routes.ControlPlane.FibResObjDelete` | agent/route.c:583-608 | the slot is freed |
| `Routes.ControlPlane.InstallRoute` | agent/route.c:667-684 | new first free slot, prefix update, old slot freed; all or nothing, exact result |
| `Routes.ControlPlane.RouteNhopInsert` | agent/route.c:613-691 | all-or-nothing insert of any next hop: its answer for every check and library call, the next hop appended exactly when the answer is 0 and no equal one was there, no change otherwise; the tables stay consistent if and only if nothing changed or the next hop was not on the prefix already; neighbour counts stay right |
| `Routes.UnrecognisedIsInvalid` | agent/route.c:188-213 | only a next hop of an invalid encapsulation type goes unrecognised on a prefix that has it |
| `Routes.RepeatedNhopBreaks` | agent/route.c:613-691 | a next hop of an invalid encapsulation type put twice on a multicast route, after which the tables are inconsistent |
| `Routes.ControlPlane.RouteNhopDelete` | agent/route.c:725-806 | all-or-nothing delete that keeps the tables consistent: its answer for every check and library call, the next hop taken off exactly when the answer is 0 and it was there, no change otherwise; neighbour counts stay right if and only if the reference is not the last, names no gateway, or is released by the VRF whose neighbour it holds |
| `Routes.ControlPlane.RouteDelete` | agent/route.c:809-845 | removes a prefix and releases each of its next hops once, not found otherwise; neighbour counts stay right if and only if each of these releases keeps them so |
| `Routes.ControlPlane.ReleaseAll` | agent/route.c:839-843 | the release loop keeps the reference counts consistent at every step, the references not yet released being pending |
| `Routes.ControlPlane.RouteCleanup` | agent/route.c:1104-1117 | the loop releases the prefixes of the VRF one by one: none is left, every other route keeps its slot and contents; neighbour counts stay right if and only if every next hop that holds another VRF's neighbour is also on a prefix outside this VRF |
| `Routes.CleanupEmpties` | agent/route.c:1104-1117 | in whatever order the prefixes are visited, the cleanup takes the routes of the VRF away and nothing else, and each next hop that leaves the tables gives one neighbour reference back |
| `RouteProofs.RefNewKeeps` | agent/route.c:234-270 | creating a next hop keeps RIB, FIB, slots, hash and references consistent, one reference pending |
| `RouteProofs.RefKnownKeeps` | agent/route.c:290 | so does one more reference on a known next hop |
| `RouteProofs.UnrefKeeps` | agent/route.c:545-571 | so does releasing a pending reference |
| `RouteProofs.PutRouteKeeps` | agent/route.c:667-684 | installing a route exchanges the references of old and new next hops |
| `RouteProofs.DropRouteKeeps` | agent/route.c:694-719 | deleting one leaves its references pending |
| `RouteProofs.InsertKeeps` | agent/route.c:613-691 | the tables after an insert are consistent if and only if the next hop was not on the prefix already, whichever VRF created it |
| `RouteProofs.RemoveKeeps` | agent/route.c:725-806 | deleting a next hop keeps the tables consistent, whichever VRF created it |
| `RouteProofs.DeleteKeeps` | agent/route.c:809-845 | deleting a prefix keeps the tables consistent and takes one slot |
| `RouteProofs.UnrefUndoesRef` | agent/route.c:298-307 | releasing the reference just taken restores hash, next hops, neighbours and all counters |
| `RouteBalance.RefBalance` | agent/route.c:218-308 | taking a reference keeps the neighbour counts right, also on a next hop of another VRF |
| `RouteBalance.UnrefBalance` | agent/route.c:545-571 | releasing one keeps them right if and only if it is not the last one, or the gateway is 0, or the releasing VRF is the one whose neighbour the next hop holds; the counters of neighbours stay right in every case |
| `RouteBalance.VanishedAstray` | agent/route.c:545-571 | a next hop that vanishes through another VRF leaves its neighbour with a count too high |
| `RouteBalance.WrongNeighbour` | agent/route.c:545-571 | the release through another VRF takes the neighbour away from a live next hop of that VRF if and only if that VRF has such a neighbour with no other reference |
| `RouteBalance.UnrefAllBalance` | agent/route.c:839-843 | the same condition for a whole list of releases: all of them must meet it |
| `RouteBalance.InsertBalance` | agent/route.c:613-691 | an insert keeps the neighbour counts right |
| `RouteBalance.RemoveBalance` | agent/route.c:725-806 | deleting a next hop does if and only if the release does |
| `RouteBalance.DeleteBalance` | agent/route.c:809-845 | deleting a prefix does if and only if all its releases do |
| `RouteNeighs.UnrefReleases` | agent/route.c:545-571 | through whatever VRF, a release changes the neighbour table by the next hops that leave: one reference each, on the neighbour of the releasing VRF |
| `RouteNeighs.ReleasesTwice` | agent/route.c:839-843 | such changes compose, so the order of releases does not matter |
| `RouteNeighs.RemoveReleases` | agent/route.c:725-806 | deleting a next hop makes such a change |
| `RouteNeighs.DeleteReleases` | agent/route.c:809-845 | and so does deleting a prefix |
| `RouteNeighs.InsertNeighs` | agent/route.c:613-691 | an insert takes a reference exactly for a next hop that was not in the tables |
| `RouteTheorems.UsedSlots` | agent/route.c:353-441 | the slots in use are as many as the prefixes, and the blackhole |
| `RouteTheorems.NhopIsUsed` | agent/route.c:525-572 | every next hop in the tables is on some prefix |
| `RouteTheorems.InsertThenRemove` | agent/route.c:613-806 | inserting a next hop that the prefix does not have and deleting it restores ordered next hops, type flags and all counters; for a new prefix the whole state |
| `RouteTheorems.CountersStayBelowCapacity` | agent/route.c:290 | reference counts lie between 1 and the number of slots, neighbour counts between 1 and the number of next hops, so no counter wraps |
| `RouteTheorems.EmptyRibIsEmpty` | agent/route.c:525-608 | with the last prefix gone no next hop or slot but the blackhole is left, and no neighbour if their counts were right |
| `RouteTheorems.QuietVrfHoldsNothing` | agent/vrf.c:60-69 | if every next hop is used by the VRF alone whose neighbour it holds, a VRF without prefixes owns no next hop and no neighbour |
| `RouteTheorems.SharedNhopLeaks` | agent/route.c:139-142 | two VRFs that share a gateway and tunnel and delete their routes in the order of insertion leak a neighbour; all neighbour counters are right then, and resetting that of the first VRF makes them wrong |
| `RouteViews.InsertShows` | agent/route.c:613-691 | as a map from prefixes to lists, an insert appends the next hop to one list |
| `RouteViews.RemoveShows` | agent/route.c:725-806 | a delete takes it off, and the prefix with the last one |
| `RouteViews.DeleteShows` | agent/route.c:809-845 | a prefix delete removes one entry |
| `RouteViews.CleanupShows` | agent/route.c:1104-1117 | a cleanup removes the entries of one VRF |
| `RouteViews.EqualIsThere` | agent/route.c:188-213 | whether an equal next hop is present can be read off the map |
| `Vrfs.VrfTable.constructor` | agent/vrf.c:267-298 | no VRF is registered and nothing is allocated |
| `Vrfs.VrfTable.Lookup` | agent/vrf.c:147-161 | finds a valid VRF of the name if and only if there is one |
| `Vrfs.VrfTable.IdLookup` | agent/vrf.c:163-172 | its id, or the error |
| `Vrfs.VrfTable.Add` | agent/vrf.c:72-107 | registers an unknown name in the first free entry and counts it; a known name or a full table changes nothing; routes are untouched; the neighbour counters stay right if and only if the reset one was 0 |
| `Vrfs.VrfTable.Seek` | agent/vrf.c:80-89 | the loop finds whether the name is registered and otherwise the first free entry |
| `Vrfs.ResetCounts` | agent/vrf.c:60-69 | resetting the neighbour counter of a VRF is right if and only if it was 0 |
| `Vrfs.NamesFollow` | agent/vrf.c:72-139 | which names are registered after an entry was taken or given up, and that valid names stay different |
| `Vrfs.VrfTable.Del` | agent/vrf.c:119-139 | unregisters the name and frees its entry after the cleanup of its VRF, whose meaning is CleanupEmpties; an unknown name changes nothing |
| `Requests.Serve` | agent/vrf.c:72-172 | one request does to VRF entries, routes and neighbour table exactly what the step relation says, with its result; required only is that it does not repeat a next hop unrecognised |
| `Runs.StepIsDetermined` | agent/vrf.c:72-172 | the step relation leaves one result and one next state: VRF entries, routes and neighbours follow from the request and the answers of the libraries |
| `Runs.RecognisedNeverRepeat` | agent/route.c:188-213 | no run repeats a next hop whose inserts are for unicast routes or of an accepted encapsulation type |
| `Requests.Run` | agent/vrf.c:72-298 | every run of requests that repeats no next hop, whatever the libraries answer, follows the step relation, and its tables are consistent and stand for its last state; if each next hop is requested for one VRF name only all neighbour counts are right; nothing is held once no VRF is left |
| `Runs.RunIsDetermined` | agent/vrf.c:72-298 | results and states of any run follow from the requests and the answers of the libraries alone, with faults and full tables |
| `Requests.AddCodeIs` | agent/route.c:613-691 | what an insert returns can be read off routes and neighbours: known next hops are those on some route |
| `Requests.RoomIsSeen` | agent/route.c:353-372 | a slot is free if and only if the routes and the blackhole do not fill the table |
| `Requests.ViewKeys` | agent/route.c:139-142 | the next hops in the hash table are those on some route |
| `Requests.HomedIsSeparated` | agent/route.c:139-142 | if every next hop belongs to the VRF it is meant for, no release goes astray |
| `CountedLists.CountedList.FindVal` | agent/route.c:905-916 | counts one more reference of a present address; valid afterwards if and only if the 32-bit counter did not wrap |
| `CountedLists.CountedList.AddAtHead` | agent/route.c:918-925 | a new address enters once |
| `CountedLists.CountedList.DeleteAtVal` | agent/route.c:927-956 | drops one reference of the address, the node with the last one, the others keeping their order; absent addresses change nothing |
| `CountedLists.CountedList.Record` | agent/route.c:979-983 | find-then-add adds one reference to the multiset of addresses |
| `CountedLists.CountedList.LengthIsDistinctCount` | agent/route.c:900-956 | List_len is the number of distinct addresses |
| `CountedLists.RecordThenDelete` | agent/route.c:979-994 | recording and deleting an address restores the multiset |
| `Bits.MaskActs` | common/ipprefix.h:110-111 | and with a mask clears the low bits, or with its complement sets them, for every width |
| `Bits.ClearInterval` | common/ipprefix.h:110-111 | clearing low bits is an interval test, by induction on the number of bits |
| `IpAddresses.AddressOrder` | common/ipaddress.h:67-85 | operator< is a strict total order agreeing with operator==, every IPv4 address before every IPv6 one |
| `IpPrefixes.MaskByteValue` | common/ipprefix.h:70-79 | byte k of the IPv6 mask has as many leading ones as the mask has left for it |
| `IpPrefixes.GetMask6` | common/ipprefix.h:66-80 | the buffer holds the mask |
| `IpPrefixes.GetSubnet6` | common/ipprefix.h:150-162 | the loop computes the subnet |
| `IpPrefixes.GetBroadcast6` | common/ipprefix.h:36-48 | the loop computes the broadcast address |
| `IpPrefixes.IsAddressInSubnet6` | common/ipprefix.h:113-128 | the loop decides membership |
| `IpPrefixes.PrefixOrder` | common/ipprefix.h:180-191 | operator< on prefixes is a strict total order up to ==, by mask length first and address next |
| `IpPrefixes.ContainsBySubnet` | common/ipprefix.h:99-178 | an address is in a prefix if and only if both have the same subnet |
| `IpPrefixes.SubnetInterval` | common/ipprefix.h:28-178 | an address of the family is in the prefix if and only if it lies between subnet and broadcast address, for every mask length |
| `IpPrefixes.SubnetNests` | common/ipprefix.h:137-178 | a shorter mask does not notice a longer one applied before |
| `IpPrefixes.SubnetIdempotent` | common/ipprefix.h:137-178 | getSubnet is idempotent |
| `IpPrefixes.WiderContainsMore` | common/ipprefix.h:99-178 | widening a prefix loses no address |
| `IpNumbers.SubnetByLeadingBits` | common/ipprefix.h:28-178 | as numbers, a prefix of length m is a block of 2^(width - m) addresses at a multiple of that size; getSubnet is its first, getBroadcastIp its last |
| `IpNumbers.ContainsByLeadingBits` | common/ipprefix.h:99-178 | an address is in a prefix if and only if its m leading bits are those of the prefix |
| `IpNumbers.LessIsNumeric` | common/ipaddress.h:67-85 | operator< compares addresses of one family as numbers |
| `LpmTables.FibHash.constructor` | common/lpm_trie.cpp:10-92 | an empty table per prefix length |
| `LpmTables.FibHash.IsExist` | common/lpm_trie.cpp:12-23 | a prefix is found if and only if its subnet has a route |
| `LpmTables.FibHash.Modify` | common/lpm_trie.cpp:25-37 | rewrites an existing route and adds none |
| `LpmTables.FibHash.Get` | common/lpm_trie.cpp:39-51 | reads the route of the subnet, leaving the out parameter alone otherwise |
| `LpmTables.FibHash.Insert` | common/lpm_trie.cpp:53-61 | stores the route under the subnet; prefixes differing in host bits share it |
| `LpmTables.FibHash.Delete` | common/lpm_trie.cpp:81-92 | removes the route of the subnet |
| `LpmTables.FibHash.Lookup` | common/lpm_trie.cpp:63-79 | answers with the route of the longest stored prefix containing the address, and fails only if none does |
| `LpmTables.LongestIsUnique` | common/lpm_trie.cpp:63-79 | there is one longest match |
| `LpmTables.ScanIsLongest` | common/lpm_trie.cpp:63-79 | a naive scan over all routes in any order finds exactly that one |
| `Sketches.CounterStep` | platform/p4src/shc_real_time_sketch.p4:254-304 | the counter register is ((r - 1) mod 3) + 1 for a run of length r and shows 3 exactly when r is a multiple of 3 |
| `Sketches.BucketsAreIndependent` | platform/p4src/shc_real_time_sketch.p4:254-304 | packets of other buckets change nothing |
| `Sketches.FlagsArePaidFor` | platform/p4src/shc_real_time_sketch.p4:336-360 | the amortised bound behind it, by induction over the history |
| `Sketches.FlagBound` | platform/p4src/shc_real_time_sketch.p4:336-360 | three times the flags of a bucket are at most its packets plus one |
| `Sketches.BurstFlags` | platform/p4src/shc_real_time_sketch.p4:336-360 | the exact number of flags a burst of one flow raises, whatever came before |
| `Sketches.FreshBurst` | platform/p4src/shc_real_time_sketch.p4:254-360 | packet n of a burst in an untouched bucket is flagged if and only if n, or n + 1 for fingerprint 0, is a multiple of 3; the counter after it |
| `Sketches.Sketch.constructor` | platform/p4src/shc_real_time_sketch.p4:254-280 | every register starts at fingerprint 0 and count 1, which acts as one packet of fingerprint 0 |
| `Sketches.Sketch.PktUpdate1` | platform/p4src/shc_real_time_sketch.p4:254-267 | compares and replaces the fingerprint of one bucket |
| `Sketches.Sketch.PktNum1` | platform/p4src/shc_real_time_sketch.p4:280-292 | advances or restarts the counter of one bucket |
| `Sketches.Sketch.Apply` | platform/p4src/shc_real_time_sketch.p4:336-360 | the registers hold what the whole packet history determines, and eflag is raised exactly for multiples of 3 in the run |

## Left out

- `tuple_3_t::to_str`, BOBHash and the P4 hash functions and random generator: any function into the slots serves; `location` is a parameter of the tracker.
- The test `hash_cond1 >= 0` of the sketch, which always holds for an unsigned value.
- Locks, threads and timers: insert, dump and diff are serialised, as are the route operations.
- Storage from `new ssummary` is assumed to be zeroed: its constructor (`platform/drivers/top_k/space_saving.cpp:16-18`) initialises only the capacity, and `clear()` as written leaves the other hash slots as they are.
- `change_C`, `Query`, `space_saving_init` and everything commented out in the tracker; `be_able_to_insert` is set once and never cleared.
- How `std::sort` works inside: `SortPrefix` promises an ordered permutation and no more.
- The conversion of the three flow fields to 32-bit arguments of the rule calls in `diff_cmp`; the log of operations keeps whole flows.
- What `shc_swTohw_rule` does with a call: operations are recorded in a log.
- `rte_hash`, `rte_fib`, `rte_fbarray`, `rte_malloc` and the object-id allocators are maps and sets whose additions may fail (the overwrite in a rollback does not), and allocated object ids are not tracked.
- Masking inside `rte_fib`: prefixes are taken with zero host bits, one address family.
- `lpm_em`, `f_res_oid`, `nh_oid` and the hardware calls of the route code, most of them commented out.
- `rt_prefix_type_get`, whose result is used only by commented-out calls.
- `shc_route_lookup` apart from its address list, in particular the decision to touch the hardware table.
- Tunnel maps (`shc_tunnel_map_cleanup`), `ol_neigh_add_static`, MAC and internal-IP settings of a VRF, `shc_vrf_get_by_id`.
- RTE_ASSERT checks, which are compiled out by default, so that `nhop_obj_delete` goes on when the neighbour it releases is missing; `rt_prefix_obj_delete` returns a hash position, so its caller's check for 0 is ignored.
- Requests.Run: ends at an insert that repeats a next hop unrecognised; the reference counts are wrong from there on, as `RouteNhopInsert` states.
- Vrfs.VrfTable.Add: names are below 64 characters, as `VRF_NAME_VALID` (`agent/shc_dp.h:25-29`) asks; `strncpy` stores a longer one without a terminator.
- Memory addresses: pointers to next hops are handles into a map; the VRF whose neighbour a next hop holds is ghost bookkeeping (`owner`).
- The order of the hash iterator in `shc_route_cleanup`: it is a sequence of keys covering the table at the start.
- Byte order: IPv4 words are taken in host order. The bitwise operations commute with the byte swap of `htonl`, which operator< applies before comparing. Text forms (`inet_ntop`, `inet_pton`) are the identity, and an unknown address family does not occur.
- Allocation in the address list: `malloc` does not fail there and `free` is the removal from the list.
- `bak/`, `platform/p4src_dev/`, `test_for_learn/`, `test_hal/` and packet I/O: older copies, experiments and drivers.
