# Verified models of the SONiC configuration managers

`cfgmgr` holds daemons that turn table events from CONFIG_DB and STATE_DB into in-memory caches and into rows of
APPL_DB, which orchagent programs into the switch.  Each daemon maintains its state incrementally: one event changes a
few fields and a few rows.  This project models the hard parts of four of them in Dafny and proves that the state they
maintain step by step always agrees with something simple:

- the dynamic buffer manager (`cfgmgr/buffermgrdyn.cpp`): zero profiles on ports that are down, the reference-counted
  profile allocator, shutdown and startup, deferred publication, the shared headroom pool, effective speeds;
- the NAT manager (`cfgmgr/natmgr.cpp`): the reference-counted DNAT pool, twice-NAT pairing, the published rows, the
  separation of address spaces;
- the MACsec manager (`cfgmgr/macsecmgr.cpp`) with the consuming side of orchagent: the clearing of stale state, and
  the Type 7 key;
- the CoPP manager (`cfgmgr/coppmgr.cpp`): incremental trap-group rows.

A table is a `map`, and an event is a method of a class whose fields are the caches and the rows. An invariant that
the constructor establishes and that every event needs and re-establishes holds in every reachable state. This is how
the classes are built, with two exceptions: the invariant of one port that is down (`AdminDownPort.Port`) is
established by `Reclaim` and kept by `Set` and `Del` from then on, and `PortCycle.PortManager` starts without a row
and adds to the book of `ProfileAllocator`, which has the invariant. What fails in reachable states is not part of an
invariant: it is stated event by event, for the states in which it held before. The headroom, pool and check plugins
are functions given to the constructor or choices of the environment; what a kernel call or another daemon answers is
a parameter.

| file | what it models |
|---|---|
| `Words.dfy`, `Texts.dfy`, `Wrappers.dfy` | bits of machine words; joined and split texts; optional values, results, the row of a key |
| `BufferTypes.dfy` | what the models of the buffer manager share: states of a port, outcomes of an event |
| `IdBitmap.dfy`, `Slices.dfy` | id strings and bitmaps; maximal runs of ids, and how they split and merge |
| `AdminDownPort.dfy` | the rows of one port that is administratively down |
| `ProfileNames.dfy` | the names of dynamic profiles, and when they tell profiles apart |
| `ProfileAllocator.dfy`, `PortCycle.dfy` | profiles and their references; a port shut down and started again |
| `PendingPublication.dfy` | publication before the pools are ready, and the timer that completes it |
| `SharedHeadroom.dfy` | enabling and disabling the shared headroom pool |
| `PortSpeed.dfy` | effective speed and the port state machine |
| `NatInterfaces.dfy`, `DnatPool.dfy` | addresses of interfaces; reference counts of the DNAT pool |
| `NatPairs.dfy`, `NatUses.dfy`, `NatRules.dfy` | twice-NAT pairs; what the counts must be; what must be applied |
| `NatManager.dfy` | the NAT manager over all its events |
| `NatRows.dfy`, `NatSeparation.dfy` | what the rows do to packets; validation of addresses |
| `MacsecHandshake.dfy`, `Type7Key.dfy` | the stale-state handshake; encoded keys |
| `Copp.dfy` | trap-group rows |

## What turned out false of the code

The code's behaviour is kept. For each of these the contract named first says exactly when the property holds, in
terms of what is known before the event, and the one named last is an input or a run that breaks it.

- On a port that is down the slices are always the maximal runs of the free ids, and every row names the right zero
  profile. But ids can end up without a row: a removal leaves the item's ids unpublished exactly when its pool has no
  zero profile and it touches no free slice, and they stay so until a later event cuts or merges that slice
  (`AdminDownPort.Port.Del`, `Set`; `AdminDownPort.UnpublishedIds`).
- A dynamic profile is found again by its name, and different parameters can give one name: when a text holds an
  underscore, or a gearbox model reads like another part of a name. Without underscores and with readable gearbox
  models, names are equal exactly when everything in them is (`ProfileNames.ReadableNames`), and a gearbox model is
  readable exactly when no port with it shares a name with one without (`ProfileNames.ReadableIffNoCollision`;
  `ProfileNames.Collision`, `NotPlain`).
- The default threshold is left out of a name. After it changes, a refresh can find a profile with the old threshold
  and report success: the cached profiles still lie under right names exactly when the threshold did not change or no
  dynamic profile has the old or the new one (`ProfileAllocator.BufferManager.SetDefaultThreshold`;
  `ProfileAllocator.OldThresholdStays`).
- A static profile can be deleted while the only port that uses it is down, since reclaiming drops the reference. The
  start-up refresh then leaves an empty profile of that name behind, which the refresh does not publish. When names do
  not clash, a refresh leaves nothing behind exactly when every configured profile it looks up is cached
  (`ProfileAllocator.BufferManager.RefreshPgsForPort`; `ProfileAllocator.BufferManager.DeleteWhileDown`,
  `EmptyProfileLeft`).
- A profile allocated before the lossless pool has a mode stays behind empty: the retry reports success, and neither
  allocation publishes it (`ProfileAllocator.BufferManager.AllocateTooEarly`). Its headroom is right exactly when it
  was cached, the mode is set, or the plugin has no values for empty parameters
  (`SharedHeadroom.BufferManager.AllocateProfile`; `SharedHeadroom.StaleAllocation`).
- Once the default threshold of a completely initialized system is emptied, a refresh marks work as pending that no
  timer looks at: pending work keeps its retry exactly unless the threshold is empty, initialization is complete, and
  the event refreshes a port that is up (`PendingPublication.BufferManager.RefreshPgs`, `HandleRefresh`,
  `HandleAdminUp`, `SetPort`; `PendingPublication.LostRefresh`). That such work is marked as pending holds always.
- Removing the ingress lossless pool forgets its headroom size without recalculating profiles; they stay right exactly
  when a ratio is set, no size was, or the plugin gives them the same values with and without a shared pool
  (`SharedHeadroom.BufferManager.RemoveLosslessPool`; `SharedHeadroom.StaleAfterRemoval`).
- A port can be READY without a speed or without a cable: a PORT event leaves a ready port that stays up without
  negotiation and speed, a port that negotiates loses its supported speeds, or the cable length becomes empty
  (`PortSpeed.PortTable.SetPort`, `SetSupportedSpeeds`, `SetCable`; `PortSpeed.ReadyWithoutSpeed`,
  `ReadyWithoutSupportedSpeeds`, `ReadyWithoutCable`).
- A FEATURE SET with state "enabled" or "always_enabled" switches the feature on, and any other state off, with two
  exceptions: a feature whose start-up row has no state field stays off, and one that is off while its trap is always
  enabled is not switched on (`Copp.CoppMgr.SetFeature`, `SetFeatureTrapIdsStatus`; `Copp.StaysOff`).
- A group SET that carries its own `trap_ids` field leaves a wrong row exactly when no enabled id overrides it
  (`Copp.CoppMgr.SetGroup`; `Copp.ForeignTrapIds`). Rows of other groups stay right.
- A zone change on one port, and likewise removing an address, withdraws every binding that waits for its twice-NAT
  partner, whatever its port, and the zone change applies only those of its own port again. Bindings without an id
  keep their rules exactly where they are due (`NatManager.NatMgr.ChangeZone`, `RemoveDynamicNatRules`;
  `NatManager.RulesLost`).
- A NAPT entry may lie inside a pool. NAPT entries stay outside all pools exactly when a NAPT SET that is cached
  exposes an address of no pool, and a pool SET that is cached holds no exposed NAPT address
  (`NatSeparation.NatTables.SetStaticNapt`, `SetNatPool`; `NatSeparation.NaptInsidePool`).
- After a successful clearing, a SET of the dead session that orchagent popped but kept for retry can be applied under
  the next session's port, because only the DEL of the port is waited for. For a known port, such a run exists exactly
  when orchagent keeps a SET of the port (`MacsecHandshake.StaleIffKept`; `MacsecHandshake.ClearedButKept`). Once
  every DEL is popped, it keeps none (`MacsecHandshake.NothingKeptOncePopped`).
- Single NAT translates a reply back exactly when the packet is neither sent from an exposed address nor sent to an
  inside one (`NatRows.ReplyReturns`; `NatRows.LostReplies`).
- Decoding a Type 7 key and encoding it again gives the same string exactly for strings with two decimal digits and
  upper-case hexadecimal digits; other strings are accepted too (`Type7Key.EncodeInvertsDecode`;
  `Type7Key.LowerCaseIsRead`).

The comment above `decodeKey` (`cfgmgr/macsecmgr.cpp:112-117`) takes the salt after the index; the code takes the salt
at the index and then increments it, and the model follows the code.

## Model

| member | source | states |
|---|---|---|
| IdBitmap.GenerateBitMapFromIds | orchagent/orch.cpp:1092-1106 | the word has a one bit for exactly the ids an id string stands for; a malformed string stands for none |
| IdBitmap.GenerateIdListFromMap | orchagent/orch.cpp:1123-1167 | the id strings are exactly the maximal runs of one bits below the bound |
| IdBitmap.IsItemIdsMapContinuous | orchagent/orch.cpp:1185-1209 | true if and only if no gap lies between two one bits below the bound |
| IdBitmap.RepresentsDifference | cfgmgr/buffermgrdyn.cpp:3039 | exclusive-or with the bitmap of a subset is set difference |
| IdBitmap.RepresentsIntersection | cfgmgr/buffermgrdyn.cpp:3026 | the two bitmap tests of the source are subset and disjointness of the id sets |
| Slices.RunsPartition | cfgmgr/buffermgrdyn.cpp:1394 | the maximal runs of a set of ids are readable, pairwise disjoint, never adjacent, and cover exactly that set |
| Slices.SlicesAfterSet | cfgmgr/buffermgrdyn.cpp:3008-3058 | replacing the slice that holds a new item by the runs of what is left of it gives the maximal runs of the ids still free; with no such slice nothing changes |
| Slices.OnlyTheKeyMatters | cfgmgr/buffermgrdyn.cpp:3136-3149 | during the scan, in whatever order slices come and whatever was absorbed, a slice continues the accumulated range if and only if it is adjacent to the deleted item itself |
| Slices.ScanTest | cfgmgr/buffermgrdyn.cpp:3138-3140 | for a slice not seen yet the disjointness test never rejects, and the contiguity test accepts exactly the slices adjacent to the deleted item |
| Slices.ScanStep | cfgmgr/buffermgrdyn.cpp:3134-3149 | one scan step keeps the accumulated ids one contiguous range made of the item and the adjacent slices seen so far |
| Slices.SlicesAfterDel | cfgmgr/buffermgrdyn.cpp:3151-3173 | after one scan the regenerated list is a single id string, and with it the slices are exactly the maximal runs of the ids free without the item, so no two of them touch |
| Slices.CutByKey | cfgmgr/buffermgrdyn.cpp:3008-3045 | the slice found is the only one that shares an id with the item |
| AdminDownPort.Port.Reclaim | cfgmgr/buffermgrdyn.cpp:1341-1405 | a port going down reaches the reclaimed state: slices are exactly the maximal runs of the unconfigured ids, and APPL_DB has exactly one zero-profile row per slice and per configured item whose pool has a zero profile |
| AdminDownPort.Port.EveryIdIsZeroed | cfgmgr/buffermgrdyn.cpp:1302-1312 | in the reclaimed state, when every pool in use has a zero profile, the row keys split 0..max-1 into disjoint ranges covering every id, each naming a zero profile |
| AdminDownPort.Port.FindSlice | cfgmgr/buffermgrdyn.cpp:3004-3045 | finds the one slice that contains a new item, with the ids left of it, or tells that none does |
| AdminDownPort.Port.SplitSlices | cfgmgr/buffermgrdyn.cpp:3003-3058 | configuring an item leaves the slices exactly the maximal runs of the ids still free; what is left of the slice it cuts is published, and no row of a configured item is touched |
| AdminDownPort.Port.Set | cfgmgr/buffermgrdyn.cpp:2990-3073 | configuring or reconfiguring an item, in every state a port that is down can reach, leaves the slices the maximal runs of the free ids and every row right; a slice is without a row only if it was before and the item does not cut it |
| AdminDownPort.Port.Absorb | cfgmgr/buffermgrdyn.cpp:3127-3149 | one pass over the slices in any order removes the rows of exactly the slices adjacent to the item, and its bitmap is the contiguous range grown from the item |
| AdminDownPort.Port.MergeSlices | cfgmgr/buffermgrdyn.cpp:3127-3179 | the slices become the maximal runs including the freed ids; adjacent slices and the item give way to one merged row, otherwise no row changes |
| AdminDownPort.Port.Del | cfgmgr/buffermgrdyn.cpp:3107-3180 | removing an item, in every such state, leaves the slices the maximal runs of the free ids and every row right; exactly the slices that had no row and are not merged have none, and the item itself when its pool has no zero profile and it touches no slice |
| AdminDownPort.UnpublishedIds | cfgmgr/buffermgrdyn.cpp:3107-3180 | a run from the constructor that ends with freed ids no row covers |
| Texts.SplitJoin | cfgmgr/coppmgr.cpp:478-499 | splitting a joined text at the separator gives the parts back, when none holds it |
| ProfileNames.NameIsJoined | cfgmgr/buffermgrdyn.cpp:486-532 | the name is its parts joined with underscores, those that are the default left out |
| ProfileNames.NameDetermines | cfgmgr/buffermgrdyn.cpp:486-532 | for texts without an underscore, two names are equal and the gearbox models the same if and only if speed, cable, MTU, gearbox model and lane class are the same and the thresholds leave the same trace |
| ProfileNames.ReadableNames | cfgmgr/buffermgrdyn.cpp:486-532 | for texts without an underscore and readable gearbox models, two names are equal if and only if all of that is the same |
| ProfileNames.ReadableIffNoCollision | cfgmgr/buffermgrdyn.cpp:486-532 | a gearbox model is readable, which means that it cannot be taken for an MTU, a threshold or a lane class, if and only if no port with it shares a name with a port without one |
| ProfileNames.Collision | cfgmgr/buffermgrdyn.cpp:486-532 | for every unreadable gearbox model, two ports with and without it, and thresholds, that share a name |
| ProfileNames.NotPlain | cfgmgr/buffermgrdyn.cpp:486-532 | two ports of different speed and cable that share a name because a text holds an underscore |
| ProfileAllocator.AssignKeepsSound | cfgmgr/buffermgrdyn.cpp:1552-1569 | moving a reference keeps every running profile cached and listing its group; that profiles list no other groups is kept where it holds |
| ProfileAllocator.UnassignKeepsSound | cfgmgr/buffermgrdyn.cpp:1498-1515 | taking a profile away from a group keeps the references sound |
| ProfileAllocator.ReleaseKeepsSound | cfgmgr/buffermgrdyn.cpp:1020-1059 | releasing any set of names keeps the references sound: a profile some group runs is never deleted |
| ProfileAllocator.TouchKeepsSound | cfgmgr/buffermgrdyn.cpp:1522 | the empty profile that looking up a missing one creates leaves the references sound |
| ProfileAllocator.RefreshKeepsSound | cfgmgr/buffermgrdyn.cpp:1473-1574 | however the treatment of a group ends, from every sound state, each running profile is still cached and lists its group |
| ProfileAllocator.RefreshOutcome | cfgmgr/buffermgrdyn.cpp:1473-1574 | a retry is asked for only without a pool mode, a failure only when the check rejects some headroom, and no group appears or goes |
| ProfileAllocator.RefreshKeepsNames | cfgmgr/buffermgrdyn.cpp:1473-1574 | a refresh only makes profiles that hold the values of their own parameters and lie under the name of those |
| ProfileAllocator.RefreshServes | cfgmgr/buffermgrdyn.cpp:1473-1574 | a group treated with success runs and publishes its configured profile, or the one named by the parameters of the port and the threshold of the group, or none at 0m |
| ProfileAllocator.RunsItsOwn | cfgmgr/buffermgrdyn.cpp:1473-1574 | a group of a ready port that a refresh has served runs a profile calculated from the speed, cable, MTU, gearbox model and lane class of its port, unless a static or an empty profile has that name |
| ProfileAllocator.RefreshReaches | cfgmgr/buffermgrdyn.cpp:1473-1574 | the treatment of one more group whose configured profile is cached brings it to its goal and accounts for every profile, reference and row |
| ProfileAllocator.RefreshLeavesBehind | cfgmgr/buffermgrdyn.cpp:1518-1574 | a profile looked up that is gone comes back empty, is neither published nor marked for release, and stays so while further groups are treated |
| ProfileAllocator.NoLeftoverAfter | cfgmgr/buffermgrdyn.cpp:1583-1593 | when every dynamic profile was referenced and published before a refresh, the same holds after it |
| ProfileAllocator.TakeAwayKeeps | cfgmgr/buffermgrdyn.cpp:1498-1515 | after the cable is set to 0m for one more group, progress so far still accounts for every profile and every idle one is marked for release |
| ProfileAllocator.MoveKeeps | cfgmgr/buffermgrdyn.cpp:1552-1572 | after one more group has moved, progress so far still accounts for every profile, its content, its references and its row |
| ProfileAllocator.ReclaimKeeps | cfgmgr/buffermgrdyn.cpp:1342-1382 | reclaiming one more group drops its own reference and nothing else, and keeps the references sound |
| ProfileAllocator.BufferManager.AllocateProfile | cfgmgr/buffermgrdyn.cpp:967-1018 | a new dynamic profile holds the plugin's values and is published; an existing one is left alone; without a pool mode an empty profile is left behind and a retry asked for |
| ProfileAllocator.BufferManager.AllocateTooEarly | cfgmgr/buffermgrdyn.cpp:975-985 | after a too early allocation the retry reports success with the profile empty and unpublished |
| ProfileAllocator.BufferManager.ReleaseProfile | cfgmgr/buffermgrdyn.cpp:1020-1059 | a profile goes, with its row, exactly when it is dynamic and no group lists it |
| ProfileAllocator.BufferManager.MoveReference | cfgmgr/buffermgrdyn.cpp:1552-1572 | the new profile gains the group, the old one loses it, the group runs and publishes the new one, and nothing else changes |
| ProfileAllocator.BufferManager.RefreshPg | cfgmgr/buffermgrdyn.cpp:1473-1574 | the treatment of one group keeps the references sound on every exit, also when its configured profile is gone; it is the treatment on values that the lemmas above are about |
| ProfileAllocator.BufferManager.MoveEach | cfgmgr/buffermgrdyn.cpp:1473-1574 | the loop keeps soundness on every exit; on success it has brought every group of the port to its goal if the configured profiles are cached, and otherwise left an empty profile behind |
| ProfileAllocator.BufferManager.RefreshPgsForPort | cfgmgr/buffermgrdyn.cpp:1450-1596 | from every sound state, on success, retry and failure alike each running profile exists and lists its group; on success every group of the port runs and publishes its configured profile or the one of the port's speed, cable and MTU; with every configured profile cached, idle dynamic profiles are gone as well; a refresh that finds nothing left over leaves nothing over if and only if every configured profile it looks up is cached |
| ProfileAllocator.BufferManager.ReclaimPgs | cfgmgr/buffermgrdyn.cpp:1324-1418 | shutting a port down takes the profile of every group of it, and of no other, gives each the zero profile of its pool or no row, and releases the dynamic profiles nothing else references |
| ProfileAllocator.BufferManager.SetDefaultThreshold | cfgmgr/buffermgrdyn.cpp:2019-2038 | the cached profiles still lie under the names of their parameters if and only if the threshold did not change or no dynamic profile has the old or the new one |
| ProfileAllocator.OldThresholdStays | cfgmgr/buffermgrdyn.cpp:2019-2038 | a run in which a group keeps a profile with the old default threshold after a refresh that succeeds |
| ProfileAllocator.BufferManager.DeleteProfile | cfgmgr/buffermgrdyn.cpp:2940-2970 | a profile is deleted exactly when no group is listed in it, and the references stay sound |
| ProfileAllocator.BufferManager.DeleteWhileDown | cfgmgr/buffermgrdyn.cpp:1378-1382 | a run: the port goes down, its static profile is deleted, and the start-up refresh, which succeeds when the pool has a mode and the profiles fit, ends with an empty profile in its place |
| ProfileAllocator.EmptyProfileLeft | cfgmgr/buffermgrdyn.cpp:1378-1382 | such a run on one port with one group |
| PortCycle.SameGoal | cfgmgr/buffermgrdyn.cpp:1476-1538 | after the shutdown, the refresh at startup aims every group of the port at the profile it ran before |
| PortCycle.StillKnown | cfgmgr/buffermgrdyn.cpp:1324-1418 | the shutdown removes no configured profile that the start-up refresh looks up |
| PortCycle.GroupsComeBack | cfgmgr/buffermgrdyn.cpp:1552-1573 | a completed startup refresh restores every group and every group row, of the port and of all others |
| PortCycle.ProfilesComeBack | cfgmgr/buffermgrdyn.cpp:967-1059 | it also restores every profile with its references and every profile row, whether the profile outlived the shutdown or was released and made again |
| PortCycle.BookComesBack | cfgmgr/buffermgrdyn.cpp:1324-1428 | shut down and started again, groups, profiles and rows are exactly as they were |
| PortCycle.RowsComeBack | cfgmgr/buffermgrdyn.cpp:1214-1428 | queue rows, profile-list rows and slices that matched the configuration before the shutdown are the same after the startup |
| PortCycle.PortManager.PortDown | cfgmgr/buffermgrdyn.cpp:2535-2574 | shutting down changes rows of the port only, and keeps the references sound; every group, queue, profile list and free id of the port gets the zero row of its pool, or none when the pool has none |
| PortCycle.PortManager.ApplyNormal | cfgmgr/buffermgrdyn.cpp:1242-1263 | exactly the configured queues and profile lists of the port get their normal rows |
| PortCycle.PortManager.PortUp | cfgmgr/buffermgrdyn.cpp:2521-2586 | starting up removes the zero rows first, then restores queues and lists, then refreshes the groups |
| PortCycle.PortManager.SettledDown | cfgmgr/buffermgrdyn.cpp:2535-2574 | the state after shutting down a settled port differs from before only in that port's references, rows and released profiles |
| PortCycle.PortManager.DownThenUp | cfgmgr/buffermgrdyn.cpp:2514-2588 | for a READY, settled port with a cable, down then up restores the port, all groups, profiles, queue rows and profile lists, given an accepting check |
| PendingPublication.OnlyDownPortChanged | cfgmgr/buffermgrdyn.cpp:3757-3766 | whatever happens to the rows and queues of one port that is down, every queue that was published still is |
| PendingPublication.OneMorePublished | cfgmgr/buffermgrdyn.cpp:3757-3784 | publishing the queues of one more port that is up adds that port to the published ones and spoils none |
| PendingPublication.BufferManager.constructor | cfgmgr/buffermgrdyn.cpp:34-177 | the manager starts with empty tables, work pending and not initialized, which satisfies the invariant and has its retry |
| PendingPublication.BufferManager.RefreshPgs | cfgmgr/buffermgrdyn.cpp:1459-1470 | a refresh keeps the retry of pending work if and only if initialization is not complete, the threshold is set, or the port is down |
| PendingPublication.BufferManager.SetOnDownPort | cfgmgr/buffermgrdyn.cpp:2983-3105 | on a port that is down only rows of that port change; once ports are initialized the slices are the cut ones, and what is left of a cut slice and the queue get their zero profiles, or the queue no row when its pool has none |
| PendingPublication.BufferManager.DelOnDownPort | cfgmgr/buffermgrdyn.cpp:3107-3186 | removal on a port that is down changes rows of that port only; before the pools are ready just the row goes, later the queue joins the slices it touches, or becomes one |
| PendingPublication.BufferManager.SetQueue | cfgmgr/buffermgrdyn.cpp:3397-3447 | every outcome keeps what is not published marked as pending, with its retry; an accepted queue of a port that is up is published under its profile, one of a port that is down under the zero profile of its pool or not at all, with the slices of the port cut around it; it is pending exactly if the pools are not ready |
| PendingPublication.BufferManager.DelQueue | cfgmgr/buffermgrdyn.cpp:3448-3468 | removal keeps the invariant and the retry, deletes exactly that row of a port that is up, and merges the queue into the slices of a port that is down, unless removing is not supported |
| PendingPublication.BufferManager.HandleAdminDown | cfgmgr/buffermgrdyn.cpp:2547-2574 | a port going down either has its queues and free ids zeroed or waits for it untouched, exactly by the pools being ready and its sizes known, and no other queue becomes unpublished |
| PendingPublication.BufferManager.HandleAdminUp | cfgmgr/buffermgrdyn.cpp:2514-2586 | a port brought up loses exactly the rows of its slices and then has every configured queue published, or pending; pending work loses its retry exactly when initialization is complete and the threshold empty |
| PendingPublication.BufferManager.HandleRefresh | cfgmgr/buffermgrdyn.cpp:2521-2586 | refreshing a port that is up keeps the invariant, and the retry under the same exact condition |
| PendingPublication.BufferManager.SetPort | cfgmgr/buffermgrdyn.cpp:2373-2588 | every PORT event keeps the invariant, and does what its case says: coming up restores the queues, going down or being created zeroes or waits, a refresh only may mark work as pending; the retry is lost exactly when the event refreshes a port after the threshold of an initialized system was emptied |
| PendingPublication.BufferManager.DelPort | cfgmgr/buffermgrdyn.cpp:2590-2611 | a port goes, with what is known of its sizes, only when no queue, group or list is left on it; its slices and their rows always go; the invariant holds |
| PendingPublication.BufferManager.SetMaximum | cfgmgr/buffermgrdyn.cpp:1930-2017 | learning the number of queues of a port that is down zeroes its queues once initialization is complete, and keeps the invariant |
| PendingPublication.BufferManager.DelPool | cfgmgr/buffermgrdyn.cpp:2727-2757 | removing the last pool forgets the slices of all ports that are down, lets them all wait again, and restarts initialization, so the timer runs again |
| PendingPublication.BufferManager.RefreshWithoutThreshold | cfgmgr/buffermgrdyn.cpp:1465-1470 | from every completely initialized state, emptying the threshold and refreshing a port leaves work pending that a tick does not publish |
| PendingPublication.LostRefresh | cfgmgr/buffermgrdyn.cpp:1465-1470 | a run from the constructor that ends with work pending and the retries stopped |
| PendingPublication.BufferManager.CheckSharedBufferPoolSize | cfgmgr/buffermgrdyn.cpp:827-874 | pools never stop being ready here, and become ready exactly when the pool plugin is asked (after port initialization with a known MMU size, before it by the timer) and answers for some pool or every pool has a size |
| PendingPublication.BufferManager.RecalculateSharedBufferPool | cfgmgr/buffermgrdyn.cpp:665-825 | the pools become ready exactly when there are pools and the plugin answers or every pool has a configured size |
| PendingPublication.BufferManager.PublishPorts | cfgmgr/buffermgrdyn.cpp:3757-3784 | afterwards every queue of every port that is up has a row naming its profile, whatever was published before |
| PendingPublication.BufferManager.ReclaimPending | cfgmgr/buffermgrdyn.cpp:3789-3809 | exactly the waiting ports whose sizes are unknown keep waiting; the queues of the others are zeroed, and the invariant holds |
| PendingPublication.BufferManager.ApplyPendingSlices | cfgmgr/buffermgrdyn.cpp:3847-3860 | every deferred slice of the waiting ports gets the common zero profile and no published queue is lost |
| PendingPublication.BufferManager.HandlePendingBufferObjects | cfgmgr/buffermgrdyn.cpp:3738-3870 | with pools and threshold at hand nothing is pending afterwards and everything is published; the countdown moves exactly when all is done and ports are initialized, at its end the deferred slices are zeroed, and completion is declared exactly when no port waits then |
| PendingPublication.BufferManager.Tick | cfgmgr/buffermgrdyn.cpp:3886-3893 | no tick forgets pending work or its retry, and a tick before completion with pools and threshold at hand publishes all of it |
| PendingPublication.BufferManager.Settle | cfgmgr/buffermgrdyn.cpp:3738-3893 | once pools, threshold and sizes are there, at most four undisturbed ticks complete the initialization with every queue published and no slice deferred |
| SharedHeadroom.BufferManager.RecalculateAll | cfgmgr/buffermgrdyn.cpp:1625-1690 | every dynamic profile holds the plugin's value under the current flag, or its old value exactly when the new one is rejected, and every accepted one is written |
| SharedHeadroom.BufferManager.IsSynced | cfgmgr/buffermgrdyn.cpp:2152-2201 | true only after xoff, xon and size were each observed equal to the cached profile, false only after one was observed to differ |
| SharedHeadroom.BufferManager.CheckPendingProfiles | cfgmgr/buffermgrdyn.cpp:2203-2221 | success only after every profile to check was observed as it is; without success some profile on the list was last observed differently, and the whole list is kept |
| SharedHeadroom.BufferManager.SettleProfiles | cfgmgr/buffermgrdyn.cpp:1598-1722 | a change of the combined flag recalculates every profile, any other change none; turning off by ratio succeeds only with all rewritten profiles observed, and makes no pool write |
| SharedHeadroom.BufferManager.RefreshSharedHeadroomPool | cfgmgr/buffermgrdyn.cpp:1598-1751 | turning the pool off by ratio writes the pool only after every profile rewritten was observed; on success the pool gets the configured size, or none after turning it off by ratio, and is recalculated once ports are initialized; without success it is not written |
| SharedHeadroom.BufferManager.HandleDefaultParam | cfgmgr/buffermgrdyn.cpp:2019-2095 | the ratio of the event is stored unless orchagent would not enable the pool, and a refresh that has to wait leaves turning off pending; profiles are recalculated exactly when the ratio turns the pool on or off; a fresh cache stays fresh but for rejected profiles; turning off orders profile checks before the pool write, makes no pool write on retry or failure, and a retry repeats the whole check |
| SharedHeadroom.BufferManager.ChangeRatio | cfgmgr/buffermgrdyn.cpp:2056-2092 | the new ratio is stored, after a failed or deferred refresh too; what is not is a ratio that turns the pool on without orchagent having it enabled; then profiles are recalculated exactly when the ratio turns the pool on or off, and the pool is written as it must be |
| SharedHeadroom.BufferManager.WaitPoolEnabled | cfgmgr/buffermgrdyn.cpp:2096-2150 | success if and only if orchagent was seen with the pool enabled, or the pool was found to need no shared headroom; failure only after all polls |
| SharedHeadroom.BufferManager.ChangeSize | cfgmgr/buffermgrdyn.cpp:2673-2706 | the size is stored once the pool is seen enabled where needed, the pool row follows, and success waits for every profile to check |
| SharedHeadroom.BufferManager.HandleLosslessPool | cfgmgr/buffermgrdyn.cpp:2664-2725 | a change of the configured size is stored unless orchagent would not enable the pool, recalculates the profiles exactly when it turns the pool on or off without a ratio, and keeps every profile fresh but for rejected ones |
| SharedHeadroom.BufferManager.RemoveLosslessPool | cfgmgr/buffermgrdyn.cpp:2727-2738 | freshness survives the removal if and only if a ratio is set, no size was, or the plugin gives the dynamic profiles the same values with and without a shared pool |
| SharedHeadroom.BufferManager.AllocateProfile | cfgmgr/buffermgrdyn.cpp:967-1018 | freshness survives the allocation if and only if the name was cached, the pool has a mode, or the plugin has no values for empty parameters |
| SharedHeadroom.BufferManager.Perform | cfgmgr/buffermgrdyn.cpp:1598-1751 | when no headroom is rejected, an event keeps a fresh cache fresh if and only if it is neither a removal nor an allocation of the two harmful kinds |
| SharedHeadroom.BufferManager.Run | cfgmgr/buffermgrdyn.cpp:1598-1751 | over every run, start-up included, in which the pool stays and has a mode when profiles are allocated, every dynamic profile holds the plugin's value, although profiles are recalculated only when the flag flips |
| SharedHeadroom.StaleAllocation | cfgmgr/buffermgrdyn.cpp:975-985 | a run in which a profile allocated too early reports success without the plugin's values |
| SharedHeadroom.StaleAfterRemoval | cfgmgr/buffermgrdyn.cpp:2727-2738 | a run in which a profile outlives the size it was calculated for |
| SharedHeadroom.BufferManager.FreshAfter | cfgmgr/buffermgrdyn.cpp:1598-1707 | after a recalculation the cache is fresh if and only if the rejected profiles happen to hold the plugin's values |
| SharedHeadroom.ProfilesSettled | cfgmgr/buffermgrdyn.cpp:1716-1735 | profiles written and then all observed are settled |
| SharedHeadroom.PoolAfterSettled | cfgmgr/buffermgrdyn.cpp:1736-1748 | a pool write after a settled part of the log comes after every observation it must follow |
| PortSpeed.GetMaxSpeedFromList | cfgmgr/buffermgrdyn.cpp:533-547 | the text of the maximum of the numbers in the list |
| PortSpeed.MaximumIsUnique | cfgmgr/buffermgrdyn.cpp:533-547 | a list has one maximum |
| PortSpeed.EffectiveIsUnique | cfgmgr/buffermgrdyn.cpp:554-605 | the effective speed is a function of negotiation, speed, advertised and supported speeds |
| PortSpeed.TokensAreSplit | cfgmgr/buffermgrdyn.cpp:533-547 | the numbers of a list are the pieces between its commas, without an empty one at the end |
| PortSpeed.NumberOfDecimal | cfgmgr/buffermgrdyn.cpp:533-547 | the text of the maximum reads as that number, up to the largest signed 64-bit one |
| PortSpeed.LastLength | cfgmgr/buffermgrdyn.cpp:2231-2254 | after some fields of a CABLE_LENGTH event a port has the last length given for it, and otherwise the one it had |
| PortSpeed.KnownAfter | cfgmgr/buffermgrdyn.cpp:2373-2533 | a port that keeps its cable stays known through a PORT event exactly as SetPort says, from its state and speed alone |
| PortSpeed.NeedRefreshPort | cfgmgr/buffermgrdyn.cpp:568-605 | the new effective speed is the one that follows from the port's settings, and a change is reported exactly when it changed |
| PortSpeed.PortTable.SetPort | cfgmgr/buffermgrdyn.cpp:2384-2533 | the effective speed is derived after every PORT event, in every reachable table; the port has the settings, the MTU and the state its fields lead to, and is taken down, started or refreshed exactly when they ask for it; a known port stays known if and only if it is not ready, goes down, negotiates, or keeps a speed |
| PortSpeed.PortTable.DelPort | cfgmgr/buffermgrdyn.cpp:2590-2611 | removal keeps every effective speed derived, and every ready port known where all were; a port with items left stays and asks for a retry |
| PortSpeed.PortTable.SetSupportedSpeeds | cfgmgr/buffermgrdyn.cpp:2331-2361 | the effective speed stays derived in every reachable table, and a known port stays known unless it negotiates, had a speed, has a cable, is up, advertises nothing in particular and loses its supported speeds |
| PortSpeed.PortTable.SetCable | cfgmgr/buffermgrdyn.cpp:2256-2303 | the port takes the length, is ready for it when its speed is known, and its groups are refreshed exactly then; the effective speed stays derived, and a known port stays known unless it is up, has a speed and its length becomes empty |
| PortSpeed.PortTable.SetCables | cfgmgr/buffermgrdyn.cpp:2231-2329 | a CABLE_LENGTH event gives every port it reaches the length of its field and the state that follows, up to the first retry; it asks for a retry exactly if a refresh does, and otherwise fails exactly if one fails; every effective speed stays derived, and with non-empty lengths every ready port known where all were |
| PortSpeed.PortTable.AfterRemovingPg | cfgmgr/buffermgrdyn.cpp:1821-1827 | the state set after removing a group implies that speed and cable are known |
| PortSpeed.ReadyWithoutSpeed | cfgmgr/buffermgrdyn.cpp:2384-2533 | a run that leaves a port READY without a speed |
| PortSpeed.ReadyWithoutSupportedSpeeds | cfgmgr/buffermgrdyn.cpp:2331-2361 | a run that leaves a negotiating port READY without a speed |
| PortSpeed.ReadyWithoutCable | cfgmgr/buffermgrdyn.cpp:2256-2303 | a run that leaves a port READY without a cable |
| NatInterfaces.HomeIsUnique | cfgmgr/natmgr.cpp:236-255 | with disjoint prefixes an address belongs to at most one interface |
| NatInterfaces.SameUnderMask | cfgmgr/natmgr.cpp:161-179 | an address is in the subnet of a prefix if and only if the two agree under the netmask |
| NatInterfaces.MoreHomes | cfgmgr/natmgr.cpp:7601-7643 | a further disjoint prefix changes the interface of the addresses in it and of no others |
| NatInterfaces.GetIpEnabledIntf | cfgmgr/natmgr.cpp:236-255 | finds the interface whose subnet holds the address, and none only when no subnet does |
| NatInterfaces.BindingOfPool | cfgmgr/natmgr.cpp:182-197 | finds a binding of the pool whenever there is one |
| NatInterfaces.PortForRules | cfgmgr/natmgr.cpp:5218-5250 | the port on which a sweep applies rules is the interface of the pool, and there is one exactly when the scope holds it |
| DnatPool.DnatCounts.AddEntry | cfgmgr/natmgr.cpp:1502-1522 | exactly one count grows by one, and the rows stay the addresses with a count |
| DnatPool.DnatCounts.RemoveEntry | cfgmgr/natmgr.cpp:1525-1545 | a positive count shrinks by one and an absent one stays absent, and the rows stay the addresses with a count |
| DnatPool.DnatCounts.AddRange | cfgmgr/natmgr.cpp:1462-1499 | the 32-bit loop ends, visits every address of an accepted range exactly once and no other |
| DnatPool.DnatCounts.RemoveRange | cfgmgr/natmgr.cpp:1462-1499 | the same loop takes one count off every address of the range that has one |
| DnatPool.DnatCounts.AddThenRemove | cfgmgr/natmgr.cpp:1462-1545 | adding and then deleting a range restores the counts and the rows exactly |
| NatUses.UsesOfStatic | cfgmgr/natmgr.cpp:1992-2069 | a translation that becomes active adds one use to the address it exposes and to no other |
| NatUses.UsesOfBinding | cfgmgr/natmgr.cpp:4621-4680 | a binding that becomes active adds one use to each address its pool covers and to no other |
| NatUses.UsesOfPair | cfgmgr/natmgr.cpp:2143-2148 | a pair of static entries adds one use of the destination and one of the translated source, and nothing else |
| NatUses.UsesOfBoundPair | cfgmgr/natmgr.cpp:2271-2277 | a pair of an entry and a binding adds one use of the local address and one of each address of the pool |
| NatPairs.FlaggedIffPartnered | cfgmgr/natmgr.cpp:2072-2287 | an entry is flagged if and only if it has a partner, which is one and of one kind |
| NatPairs.PartnerIsUnique | cfgmgr/natmgr.cpp:2097-2135 | the partner of a static entry is unique and has it for its own partner |
| NatPairs.BindingPartnerIsUnique | cfgmgr/natmgr.cpp:2190-2287 | the entry and the binding of a pair point at each other and at nothing else |
| NatPairs.NoThirdUser | cfgmgr/natmgr.cpp:2097-2122 | with at most two users of an id, two users leave no third candidate |
| NatPairs.FlaggedTogether | cfgmgr/natmgr.cpp:2760-2784 | two flagged entries with one id are each other's partners, so a removal finds the right one |
| NatPairs.FlaggedIffEligible | cfgmgr/natmgr.cpp:2072-2287 | between events an entry is flagged if and only if it and an eligible static entry or binding are applied, whatever happened before: the flags kept event by event are those a recomputation gives |
| NatPairs.BindingFlaggedIffEligible | cfgmgr/natmgr.cpp:5399-5531 | the same for bindings |
| NatPairs.NoneLeftAfterSplit | cfgmgr/natmgr.cpp:2736-2870 | the partner that a dissolved pair leaves applied finds no other |
| NatPairs.NoneLeftAfterUnbind | cfgmgr/natmgr.cpp:2872-2945 | the two sides of a dissolved binding pair find no partners but each other |
| NatRules.AppliedWithout | cfgmgr/natmgr.cpp:1861-1923 | after the sweep over a prefix every entry is applied exactly when an interface other than that prefix holds it |
| NatRules.RulesWithout | cfgmgr/natmgr.cpp:5285-5396 | after the sweep over a prefix the rules of each binding without an id are applied exactly when an interface other than that prefix holds its pool |
| NatRules.RulesWithMore | cfgmgr/natmgr.cpp:5166-5282 | after the sweep over a new prefix they are applied exactly when one of the interfaces, the new one included, holds the pool |
| NatRules.RulesAfterZone | cfgmgr/natmgr.cpp:7519-7572 | a zone change leaves the rules of bindings without an id applied exactly where they are due |
| NatManager.NatMgr.constructor | cfgmgr/natmgr.cpp:35-73 | the empty tables are settled |
| NatManager.NatMgr.AddStaticTwiceNatEntry | cfgmgr/natmgr.cpp:2072-2287 | matching and counts hold, the entry ends up flagged if and only if it was, or an unpaired applied partner exists, and nothing pairable is left |
| NatManager.NatMgr.RemoveStaticTwiceNatEntry | cfgmgr/natmgr.cpp:2736-2945 | matching and counts hold, the partner is always found, both flags go, and only the entry itself could be paired again |
| NatManager.NatMgr.AddDynamicTwiceNatRule | cfgmgr/natmgr.cpp:5399-5531 | matching and counts hold, the binding ends up flagged if and only if it was, or an unpaired applied static partner exists, and nothing pairable is left |
| NatManager.NatMgr.DeleteDynamicTwiceNatRule | cfgmgr/natmgr.cpp:5534-5676 | matching and counts hold and the binding has no partner any more |
| NatManager.NatMgr.AddStaticNatEntry | cfgmgr/natmgr.cpp:1548-1591 | the entry is applied exactly when an interface holds its address, and nothing pairable is left |
| NatManager.NatMgr.RemoveStaticNatEntry | cfgmgr/natmgr.cpp:1641-1671 | the entry loses its partner and translates nothing any more, or is dropped, exactly when it has no id and is idle although it could be applied |
| NatManager.NatMgr.SetStaticNat | cfgmgr/natmgr.cpp:6059-6105 | every STATIC_NAT SET keeps the tables settled: pairs right and as many as can be, each count the number of translations using the address, and what is due applied; the same local address changes nothing |
| NatManager.NatMgr.DelStaticNat | cfgmgr/natmgr.cpp:6107-6128 | every STATIC_NAT DEL keeps the tables settled |
| NatManager.NatMgr.SetNatBinding | cfgmgr/natmgr.cpp:7030-7072 | every NAT_BINDINGS SET keeps the tables settled, and a new binding is applied where its pool has an interface |
| NatManager.NatMgr.DelNatBinding | cfgmgr/natmgr.cpp:7073-7094 | every NAT_BINDINGS DEL keeps the tables settled |
| NatManager.NatMgr.SetNatPool | cfgmgr/natmgr.cpp:6778-6829 | every NAT_POOL SET keeps the tables settled, also under the binding that uses the pool |
| NatManager.NatMgr.DelNatPool | cfgmgr/natmgr.cpp:6831-6858 | every NAT_POOL DEL keeps the tables settled |
| NatManager.NatMgr.AddStaticNatEntries | cfgmgr/natmgr.cpp:1707-1780 | the sweep applies every entry that is due, for all prefixes or a new one |
| NatManager.NatMgr.RemoveStaticNatEntries | cfgmgr/natmgr.cpp:1861-1923 | the sweep over a prefix takes the interface of exactly the destination entries in it, and over everything leaves no entry paired or translating |
| NatManager.NatMgr.AddDynamicNatRules | cfgmgr/natmgr.cpp:5166-5282 | the sweep applies exactly the idle bindings whose pool has an interface in the scope |
| NatManager.NatMgr.RemoveDynamicNatRules | cfgmgr/natmgr.cpp:5285-5396 | the sweep withdraws exactly the bindings in the scope and, whatever the scope, those that wait for a partner, and adds no pool but empty ones |
| NatManager.NatMgr.EnableNat | cfgmgr/natmgr.cpp:5679-5733 | enabling NAT leaves everything due applied and the tables settled |
| NatManager.NatMgr.DisableNat | cfgmgr/natmgr.cpp:5736-5767 | disabling NAT leaves no flag, no count and no row |
| NatManager.NatMgr.AddInterface | cfgmgr/natmgr.cpp:7595-7650 | a new interface address keeps the tables settled |
| NatManager.NatMgr.DelInterface | cfgmgr/natmgr.cpp:7676-7725 | a removed interface address keeps the tables settled |
| NatManager.NatMgr.ChangeZone | cfgmgr/natmgr.cpp:7519-7572 | after a zone change the bindings whose pool the port holds are applied on it, those waiting for a partner on other ports are withdrawn, and no other moves |
| NatManager.RulesLost | cfgmgr/natmgr.cpp:5314-5319 | a run in which a zone change on one port leaves the binding of another without its rules |
| NatRows.KindOfAddress | cfgmgr/natmgr.cpp:2009-2053 | a row is snat exactly for inside addresses and dnat exactly for exposed ones, and its translation has the row that leads back |
| NatRows.ReplyReturns | cfgmgr/natmgr.cpp:2009-2053 | translating a packet, answering, and translating the answer yields the answer to the packet, if and only if the packet is neither sent from an exposed address nor sent to an inside one |
| NatRows.LostReplies | cfgmgr/natmgr.cpp:2009-2053 | a table with one entry and two packets, one from an exposed address and one to an inside one, whose replies do not return |
| NatRows.TwiceReplyReturns | cfgmgr/natmgr.cpp:2150-2172 | the same for every packet a twice row matches |
| NatRows.RowsAdded | cfgmgr/natmgr.cpp:2009-2053 | adding the two rows of an entry whose endpoints are new leaves the table publishing exactly the active entries |
| NatRows.RowsRemoved | cfgmgr/natmgr.cpp:2650-2733 | removing them leaves the table publishing exactly the others |
| NatRows.NatRowTables.AddStaticSingleNatEntry | cfgmgr/natmgr.cpp:1992-2053 | the table publishes exactly the active entries |
| NatRows.NatRowTables.RemoveStaticSingleNatEntry | cfgmgr/natmgr.cpp:2650-2733 | exactly the two rows of the entry go |
| NatRows.NatRowTables.AddStaticTwiceNatEntry | cfgmgr/natmgr.cpp:2124-2172 | the rows are those of the pair, the same whichever entry was added last |
| NatRows.NatRowTables.RemoveStaticTwiceNatEntry | cfgmgr/natmgr.cpp:2786-2830 | removal through either entry deletes exactly the two rows of the pair |
| NatRows.NatRowTables.AddThenRemove | cfgmgr/natmgr.cpp:1992-2069 | adding and removing an entry restores the table |
| NatSeparation.NatTables.SetStaticNat | cfgmgr/natmgr.cpp:5984-6105 | a well-formed entry is cached exactly when its addresses are usable and its global address is exposed by no NAPT entry and lies in no pool; separation holds also when it replaces an entry |
| NatSeparation.NatTables.SetStaticNapt | cfgmgr/natmgr.cpp:6372-6425 | a well-formed entry is cached exactly when its addresses and ports are usable and no NAT entry exposes its global address; separation holds; NAPT entries stay outside the pools if and only if it is not cached or exposes an address of no pool |
| NatSeparation.NatTables.SetNatPool | cfgmgr/natmgr.cpp:6562-6829 | a well-formed pool is cached exactly when its range is valid and holds no exposed NAT address; separation holds, and every cached range can be walked in 32 bits; NAPT entries stay outside the pools if and only if it is not cached or holds no exposed NAPT address |
| NatSeparation.NatTables.DelStaticNat | cfgmgr/natmgr.cpp:6107-6128 | removal keeps separation, and NAPT entries outside the pools |
| NatSeparation.NatTables.DelStaticNapt | cfgmgr/natmgr.cpp:6446-6467 | removal keeps separation, and NAPT entries outside the pools |
| NatSeparation.NatTables.DelNatPool | cfgmgr/natmgr.cpp:6831-6858 | removal keeps separation, and NAPT entries outside the pools |
| NatSeparation.NaptInsidePool | cfgmgr/natmgr.cpp:6372-6399 | a run of accepted events that puts a NAPT entry inside a pool |
| NatSeparation.UsableAddresses | cfgmgr/natmgr.h:120-124 | the tests on addresses leave those from 0.0.0.1 below the multicast ones, without the loopback block |
| MacsecHandshake.BelongsIffOfPort | cfgmgr/macsecmgr.cpp:662-669 | the prefix test selects exactly the keys of the port: Ethernet1 does not match Ethernet10 |
| MacsecHandshake.PopKeeps | orchagent/orch.cpp:344-407 | a pop keeps the invariant and what is doomed or cleared so; it queues a SET only of a staged row, and a DEL already queued stays first |
| MacsecHandshake.DrainKeeps | orchagent/macsecorch.cpp:863-944 | a task keeps the invariant and what is cleared so, and brings no SET into the queue |
| MacsecHandshake.DrainTouches | orchagent/macsecorch.cpp:863-944 | a task creates at most its own object and only where that can live, deletes nothing but the object and what lives under it, and ends the doom of a port only by creating it |
| MacsecHandshake.Macsec.Orchagent | orchagent/macsecorch.cpp:863-944 | the state after any number of orchagent steps in any order is the one the consumer's rules give; they keep the invariant, only shrink what is staged, and pop a DEL together with its row |
| MacsecHandshake.Macsec.DeleteRows | cfgmgr/macsecmgr.cpp:671-704 | after one table, with orchagent running in between, no SET of the port is left staged in it and its rows are about to go; a row is reported exactly if one of the port was there when the table was read; every key deleted, popped or not, is of the port |
| MacsecHandshake.Macsec.ClearStaleMacsecState | cfgmgr/macsecmgr.cpp:658-726 | nothing the dead session staged survives and every key deleted, popped or not, is of the port; the answer is true if and only if there was no row of the port to delete or a poll within the timeout finds it gone, for every interleaving of pops; true implies that every object of the port is gone or deleted before anything else happens to the port |
| MacsecHandshake.Macsec.AwaitRow | cfgmgr/macsecmgr.cpp:706-722 | true if and only if the row is gone at the start of one of the polls that fit into the timeout |
| MacsecHandshake.Macsec.Settle | orchagent/macsecorch.cpp:1700-1795 | carrying out the popped port DEL leaves no port, SC or SA of the port in orchagent |
| MacsecHandshake.EveryRun | cfgmgr/macsecmgr.cpp:560-569 | over every run after a successful clearing the next session's port is created on fresh objects; if no popped SET was kept, orchagent never holds an object that session did not write |
| MacsecHandshake.StaysOnCourse | cfgmgr/macsecmgr.cpp:560-569 | each step of such a run, of the session, of other ports or of orchagent, keeps this |
| MacsecHandshake.KeptSetResurfaces | cfgmgr/macsecmgr.cpp:706-722 | from every kept SET of a known port some run ends with its object held under the next session's port, not written by it |
| MacsecHandshake.StaleIffKept | cfgmgr/macsecmgr.cpp:706-722 | after a successful clearing of a known port, some run leaves the next session with an object it did not write if and only if orchagent keeps a SET of the port |
| MacsecHandshake.NothingKeptOncePopped | cfgmgr/macsecmgr.cpp:706-722 | a cleared port whose DELs are all popped has no kept SET and no row |
| MacsecHandshake.ClearedButKept | cfgmgr/macsecmgr.cpp:706-722 | a run from the constructor through a successful clearing that leaves a kept SET, and so a stale object to come |
| Type7Key.DecodeKey | cfgmgr/macsecmgr.cpp:119-153 | the loop computes the pure decoding, and a decoded key has half the length of the cipher less one |
| Type7Key.DecodeBytes | cfgmgr/macsecmgr.cpp:143-150 | each byte is the exclusive or of its pair of digits with the salt at an index that counts up modulo 53 |
| Type7Key.DecodeInvertsEncode | cfgmgr/macsecmgr.cpp:103-118 | for every salt below 100 and every key of the required length, decoding the encoded key gives the key back |
| Type7Key.EncodeInvertsDecode | cfgmgr/macsecmgr.cpp:43-53 | decoding and encoding again reproduces a string of the required length if and only if it has a two-digit salt and upper-case hexadecimal digits |
| Type7Key.LowerCaseIsRead | cfgmgr/macsecmgr.cpp:43-53 | a string with lower-case digits decodes and is not reproduced |
| Copp.CoppMgr.constructor | cfgmgr/coppmgr.cpp:296-422 | from an empty table the rows after start-up agree with the configuration, and the groups of CONFIG_DB whose first SET repeats it are exactly those that are not pending |
| Copp.CoppMgr.IsTrapIdDisabled | cfgmgr/coppmgr.cpp:173-194 | true if and only if no trap that lists the id is enabled |
| Copp.CoppMgr.CheckTrapGroupPending | cfgmgr/coppmgr.cpp:62-79 | true if and only if the group has traps and none of them is enabled |
| Copp.CoppMgr.GetTrapGroupTrapIds | cfgmgr/coppmgr.cpp:478-499 | the joined list of the enabled trap ids of the group |
| Copp.CoppMgr.ExactlyTheEnabledIds | cfgmgr/coppmgr.cpp:478-499 | that list holds exactly the enabled ids of the group |
| Copp.CoppMgr.PublishedIds | cfgmgr/coppmgr.cpp:478-499 | splitting the published list at its commas gives the enabled ids of the group back |
| Copp.CoppMgr.PendingIffNoneEnabled | cfgmgr/coppmgr.cpp:62-79 | a group with traps is pending if and only if it would publish no ids |
| Copp.CoppMgr.OtherGroupsStay | cfgmgr/coppmgr.cpp:82-155 | toggling a feature changes neither the pending state nor the ids of any group but that of its trap |
| Copp.CoppMgr.SetFeatureTrapIdsStatus | cfgmgr/coppmgr.cpp:82-155 | the feature is on afterwards if and only if it was to be switched on, has a state field and was on before or is not always enabled; no other feature changes; every row that equalled what recomputing it from scratch gives still does |
| Copp.CoppMgr.Republish | cfgmgr/coppmgr.cpp:113-153 | the partial update sent for the toggled group is enough to make its row right; it is deleted when the group becomes pending, and gets the whole configuration when it stops being so |
| Copp.CoppMgr.SetFeature | cfgmgr/coppmgr.cpp:939-959 | after a FEATURE SET the feature is on if and only if its state says so, with the two exceptions above, and no other feature changes, none at all without a state; every row that is right stays equal to recomputation, whatever became of other rows |
| Copp.CoppMgr.DelFeature | cfgmgr/coppmgr.cpp:960-963 | after a FEATURE DEL the feature is off and no other has changed; each row that is right stays equal to recomputation |
| Copp.CoppMgr.SetGroup | cfgmgr/coppmgr.cpp:853-885 | sending only modified fields keeps the row equal to recomputation if and only if the SET brings no trap_ids of its own that stays; a SET that repeats the start-up changes nothing; the rows of other groups stay right |
| Copp.StaysOff | cfgmgr/coppmgr.cpp:939-959 | two features that a FEATURE SET to enabled leaves off: one whose start-up row has no state, and one whose trap is always enabled |
| Copp.ForeignTrapIds | cfgmgr/coppmgr.cpp:853-885 | a run that leaves trap ids of a SET in the row of a group without traps |
| Copp.CoppMgr.CoppGroupGetModifiedFvs | cfgmgr/coppmgr.cpp:813-837 | the fields that differ from the accumulated configuration, and all of them for a new group |
| Copp.Republished | cfgmgr/coppmgr.cpp:113-153 | merging the ids, and the whole configuration on leaving the pending state, into an agreeing row gives an agreeing row |
| Copp.GroupSent | cfgmgr/coppmgr.cpp:853-885 | merging the modified fields into an agreeing row gives an agreeing row if and only if the SET is clean |

## Left out

- Redis, select loops, daemon mains, logging, warm restart and STATE_DB copies of rows: plumbing; tables are maps and
  time is a step.
- The headroom, pool and check plugins: arbitrary functions. The headroom plugin is deterministic and always answers;
  ignoring its answer when it is empty or throws is not part of the models.
- iptables, conntrack, wpa_cli and kernel calls: foreign effects; where an outcome matters it is a parameter.
- NAT ACL tables and rules (`cfgmgr/natmgr.cpp:4746-5163`): their increments of the DNAT pool are not balanced by the
  removal of bindings, so there is no conservation to state.
- Pairing of NAPT entries and of bindings whose pool has ports: the same shape again with ports.
- The empty static NAT entry a NAPT update creates (`cfgmgr/natmgr.cpp:6418`).
- NatSeparation.NatTables.SetStaticNat: whether the text of an event is well-formed (field names and counts,
  `nat_type`, limits of `twice_nat_id`) is a parameter.
- NatSeparation.NatTables.SetStaticNapt: the same.
- NatSeparation.NatTables.SetNatPool: the same, and whether a port range is valid.
- Hypotheses the NAT code relies on and does not check are explicit: disjoint interface prefixes, one binding per
  pool, at most two users of a twice-NAT id.
- NatManager.NatMgr.SetNatPool: stated for ranges that pass validation, which `NatSeparation.NatTables.SetNatPool` shows
  of every cached one.
- NatRows.NatRowTables.AddStaticTwiceNatEntry: pairs of two static entries only; a pair with a binding has no rows.
- CoPP trap-table events and group DEL: stale fields or rows remain, so no agreement holds to be stated. Traps are
  fixed for a run, and no trap id is part of another trap's list.
- Vendor-specified zero ids, gearbox parsing, and checking profile lists against directions.
- AdminDownPort.Port.Reclaim: the number of ids is unbounded; the source shifts an `int`, so numbers above 30 are not
  modelled.
- AdminDownPort.Port.Del: removing an item that was not configured is not modelled.
- ProfileAllocator.BufferManager.RefreshPgsForPort: stated for sound references, which the modelled events keep; the
  re-SET of a static group drops its old reference first (`cfgmgr/buffermgrdyn.cpp:3209-3246`), and when it fails
  leaves them.
- ProfileAllocator.BufferManager.DeleteProfile: the deletion of a profile, not its SET.
- Sizes of buffer pools (`cfgmgr/buffermgrdyn.cpp:700-800`): only whether the pools are ready, and that the pool is
  written, is modelled.
- PendingPublication.BufferManager.DelOnDownPort: how ids merge is proved in `AdminDownPort`; here the merge is given
  by the caller.
- PendingPublication.BufferManager.SetOnDownPort: how ids split is proved in `AdminDownPort`; here the split is given
  by the caller. Zero profiles do not change during a run, and looking up the pool of an unknown profile, which
  creates an empty pool in the source, does not.
- PendingPublication.BufferManager.HandlePendingBufferObjects: profiles, priority groups and profile lists are only
  followed as far as they mark work as pending.
- SharedHeadroom.BufferManager.RecalculateAll: an empty profile left by an allocation that came too early is written
  under its own name.
- SharedHeadroom.BufferManager.Perform: stated for a check plugin that accepts; with rejections, freshness is what
  `HandleDefaultParam` and `HandleLosslessPool` say of the rejected profiles.
- SharedHeadroom.BufferManager.RefreshPool: what recalculating the pool makes of its sizes is arbitrary.
- SharedHeadroom.BufferManager.HandleLosslessPool: the order of writes is proved for disabling by ratio only; the
  bounded waits of the size path are polls whose outcome the environment chooses.
- PortSpeed.PortTable.SetCables: lengths are compared as text, and the refresh of groups is an outcome.
- MacsecHandshake.Macsec.ClearStaleMacsecState: the visible and staged keys of one table are read in one step, and the
  ports known to orchagent do not change during a run.
- `sflowmgr`, `intfmgr`, `portmgr`, `nbrmgr`, `fabricmgr` and the static `buffermgr`: relays and kernel commands.
