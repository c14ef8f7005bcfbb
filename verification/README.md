# The IPAM of rancher-flat-network, modelled and proved

The operator hands out addresses of flat-network subnets to pods. This project models
that part of it in Dafny 4.11 and proves what it promises and exactly when: the interval
lists of used addresses are exact, the search for an address is complete, no two IP
objects hold the same address or listed MAC at any point of an interleaving of the
handlers' single writes in which each of these writes meets its condition, none is lost if
each meets another, and subnets and workloads that were admitted do not get into each
other's way.
`dafny verify dfyconfig.toml` checks everything.

| module | what it models |
|---|---|
| `Addresses`, `Masks`, `Networks` | addresses as bytes: carry, masks, the tests of `net.IP` and `net.IPNet`, and the numbers and intervals behind them |
| `Options` | values that may be missing |
| `Blocks` | CIDR blocks as aligned intervals |
| `Ranges` | lists of closed intervals: add, remove, uniqueness, round trips, whole collections |
| `Allocator` | `GetAvailableIP`, and allocating until nothing is left |
| `Macs` | the sorted list of MACs and its binary search |
| `Objects`, `SelfCheck`, `Controller` | IP objects, the subnet, and the writes and choices that change them |
| `OrderlyRuns`, `Leaks`, `ListedMacs` | runs without surprises, runs that lose no address, runs that give no MAC twice |
| `Incidents` | runs in which an event that is not safe does harm |
| `Handlers` | the handlers as they overwrite the stored objects |
| `Locks`, `Interleavings` | the per-subnet lock, and handlers of many threads running under it |
| `Conflicts` | admission of subnets |
| `Workloads` | admission of workloads, reservations |
| `SixToFour` | the 6to4 address |

Loops and in-place updates of the source are methods (arrays of bytes in `Addresses`,
`Masks` and `Networks`; classes in `Handlers` and `Workloads`), each proved equal to a
function or against a property stated outright. The theorems are about those functions.

## How to read the results

**Addresses.** `Addresses.SixteenBytesAreNumbers` shows that sixteen bytes with the
code's comparison, increment and decrement are the numbers 0 to 2^128 - 1 with wrapping
successor and predecessor, so the other modules use numbers. An IPv4 prefix is the
block of its IPv4-mapped addresses (section 2.5.5.2 of RFC 4291).

**Events.** An event of `Controller` is one write to one object, or one choice. The IP
handler chooses an address and a MAC once, writes the subnet as it then is with that
choice, and writes the IP object as it then is or rolls back; the self check lists and
counts, and writes later. What it has chosen or counted is part of the state. Users, the
CNI plugin, the activation of subnets and the error handlers write at any point in
between. What a handler reads before it decides (the IP object or subnet it was called with,
the cached subnet, the listing) may be of any age. `Interleavings` has many threads take these
steps and proves that the lock makes them a run of events of each subnet.

**Safe events.** `Controller.Safe` says, before an event happens, whether it keeps the
invariant, and `Controller.StepKeepsIff` proves that it does so if and only if the event is
safe. For the choice of a new address the condition is on the cached subnet that the handler
looks at: `Controller.FreshChoicesKeepIff` proves that the choices from it are all right, for
whatever object, if and only if it covers what is held and the gateway.
`OrderlyRuns.OrderlyRunIsSafe` shows that all is safe as long as the handlers see what is
stored and nothing out of the ordinary happens. The rest is behaviour of the code, each with
a run from the start:

- An IP object that already has its address is handled again and the second write fails.
  The roll-back then takes the address out of the used list although the object still
  holds it (`Incidents.RolledBackReuseGivesTwice`).
- A removal writes the subnet status but its finalizer stays. The removal runs again
  later and frees an address that may meanwhile belong to another object
  (`Incidents.RepeatedRemovalGivesTwice`).
- The subnet in the cache is older than the last allocation. The choice is an address that
  is used by now, the retry of the subnet write finds it used and goes on
  (`Incidents.StaleSubnetGivesTwice`).
- The gateway is changed. The self check that follows leaves out objects that are being
  deleted and still hold an address (`Incidents.SelfCheckGivesTwice`), does not see that
  the new gateway is held (`Incidents.NewGatewayIsHeld`), and does not count a gateway
  that changes while it runs (`Incidents.GatewayEditedDuringCheck`).
- Specific mode asks for the first or last address of the whole address space while the
  other one is used, and `AddIPToRange` wraps (`Ranges.AddExact`, `Ranges.AddWrapExample`).

**Other places where the code does less than it seems to.** Each has its exact condition.

- A configured range that ends at the last address has a loop guard that never fails:
  the scan wraps, can return an address outside the range, and never returns when the
  block is exhausted (`Allocator.AvailableExact`, `Allocator.ScanLeavesRange`,
  `Allocator.ScanNeverReturns`; `Loops` is that outcome, which the model reports after
  looking at every address once, since the loop then repeats itself). The wrapped scan
  needs at least 2^127 steps to come back to the block (`Allocator.WrapIsLong`), so in
  practice it is a hang under the subnet lock. Two accepted subnets can collide because of
  it and for no other reason (`Conflicts.AcceptedSubnetsAreDisjointIff`,
  `Conflicts.WrappedSubnetsCollide`).
- `CheckSubnetConflict` stops at the first subnet with an overlapping block
  (`Conflicts.AcceptanceSufficesIff`, `Conflicts.LaterConflictIsMissed`).
- In a prefix written as `::ffff:a.b.c.d/n` the broadcast test compares with the first
  address instead of the last (`Networks.AvailableExactIff`).
- `network.Contains` leaves IPv4-mapped addresses out of IPv6 blocks while `IPInNetwork`
  does not (`Networks.NetContainsExact`, `Networks.InNetworkExact`).
- `isLocked` can be false while the lock is held (`Locks.HeldButNotFlagged`,
  `Locks.FlagStaysExactIff`).
- A self check that writes counts the gateway, activation does not
  (`Controller.CountInRun`). While the gateway in the specification equals the one in the
  status, which holds for an active subnet until someone edits it, the self check writes
  nothing at all (`Controller.UneditedGatewayIsReserved`).
- A subnet that fails and an object that is deleted do not stop an allocation that has made
  its choice (`Incidents.ChoiceOutlivesFailure`).
- Addresses stay used that no one holds. `Leaks.StepTightIff` has the condition of each
  event: an object that gets an address must not have had another
  (`Incidents.RespecifiedMovesAndLeaks`), one that goes must have been released, a handler must
  not stop between its writes, a gateway in the status must not be replaced by activation.
  `Leaks.RebuiltIsUsedIff` shows that the self check finds another list than the stored one if
  and only if an address was lost.
- The roll-back and the removal take out all occurrences of a MAC, and the CNI plugin and
  users can give an object a listed MAC that is not in UsedMAC; `ListedMacs.MACStepKeepsIff`
  has the condition of each event under which no two objects hold the same listed MAC
  (`ListedMacs.RolledBackMACGivesTwice`).
- Auto mode does not look at reservations (`Workloads.AutoSparesReservedIff`).
- Jobs created by CronJobs pass the check of reservations unseen
  (`Workloads.SyncKeepsIff`, `Workloads.OwnedJobOverlaps`).

**Assumptions.** Stored addresses are valid and have sixteen bytes. A network is an IPv4
prefix or an IPv6 prefix whose block contains no IPv4-mapped address (`Blocks.Valid`,
reached by `Networks.ParsedIsValid`), also after an edit of the subnet. The API server
rejects a write to an object that was changed since it was read, object by object, and a
write that is tried again reads that object again; so each write meets the object as it
is. A roll-back is not tried again and needs the subnet as the handler left it. CIDR, IP
and MAC texts come parsed. The length of a listing fits a signed 64-bit integer. Library
sorting is an insertion sort; on canonical lists the keys are distinct, and
`Ranges.SortingIsUnique` and `Macs.SortedUnique` show that no other sorting gives another
result there.

## Model

| member | source | states |
|---|---|---|
| Addresses.IPIncrease | pkg/ipcalc/ipcalc.go:22-29 | the bytes changed in place are the carry of one into the old bytes; with IncBytesExact this is the next number |
| Addresses.IncBytesExact | pkg/ipcalc/ipcalc.go:22-29 | the carry adds one to the number the bytes spell and wraps exactly at the largest number of that length |
| Addresses.IPDecrease | pkg/ipcalc/ipcalc.go:32-39 | the bytes changed in place are the borrow of one from the old bytes |
| Addresses.DecBytesExact | pkg/ipcalc/ipcalc.go:32-39 | the borrow takes one off the number and wraps exactly at zero |
| Addresses.CompareIsNumeric | pkg/ipcalc/ipcalc.go:73 | comparing bytes of equal length is comparing the numbers they spell |
| Addresses.SixteenBytesAreNumbers | pkg/ipcalc/ipcalc.go:57-78 | on sixteen bytes equality, order, increment and decrement are those of the numbers up to 2^128 - 1 |
| Masks.MaskXOR | pkg/ipcalc/ipcalc.go:262-271 | flipping every bit of every byte is 255 minus that byte |
| Masks.MaskRoundsDown | pkg/ipcalc/ipcalc.go:307-313 | for every length and prefix, masking gives the multiple of the block size just below the address |
| Masks.BroadcastIsLast | pkg/ipcalc/ipcalc.go:278-293 | adding the inverted mask byte by byte never carries and gives the last address of the block |
| Networks.IsBroadCast | pkg/ipcalc/ipcalc.go:274-296 | the loop over the bytes decides equality with network address plus inverted mask |
| Networks.BroadCastExact | pkg/ipcalc/ipcalc.go:274-296 | the test holds exactly for the last address of the block, IPv4 and IPv6 |
| Networks.BroadCastOfMapped | pkg/ipcalc/ipcalc.go:279-285 | in the mapped form it holds exactly for the first address |
| Networks.InNetworkExact | pkg/ipcalc/ipcalc.go:307-313 | IPInNetwork holds exactly between the first and last address, for every family and prefix |
| Networks.NetContainsExact | pkg/ipcalc/ipcalc.go:132 | for every family and prefix, the mapped form included, network.Contains holds exactly on the block, without IPv4-mapped addresses unless the block consists of them |
| Networks.AvailableExactIff | pkg/ipcalc/ipcalc.go:317-327 | IsAvailableIP is strictly-between for every address if and only if the prefix is not a shorter one in mapped form |
| Networks.TestsAreNumeric | pkg/ipcalc/ipcalc.go:307-327 | for every IPv4 prefix and every IPv6 prefix clear of mapped addresses, IPInNetwork, network.Contains and IsAvailableIP on bytes are the tests on numbers that the other modules use |
| Networks.ParsedIsValid | pkg/ipcalc/ipcalc.go:85 | every IPv4 prefix and every IPv6 prefix clear of mapped addresses is an aligned block that fits the address space |
| Ranges.IPInRanges | pkg/ipcalc/ipcalc.go:58-78 | true exactly when there is an address and some interval contains it |
| Ranges.AddIPToRange | pkg/ipcalc/ipcalc.go:147-197 | the loop with its early returns, merge and append-and-sort computes Add, which AddExact characterises; on lists whose intervals start at different addresses this is what the source's sort gives too |
| Ranges.SortingIsUnique | pkg/ipcalc/ipcalc.go:189-196 | where no two intervals start at the same address, every sorting algorithm gives the same list |
| Ranges.AddExact | pkg/ipcalc/ipcalc.go:147-197 | on canonical lists the result is canonical and covers exactly one more address, if and only if no wrapped neighbour is met; otherwise it is not canonical |
| Ranges.AddWrapExample | pkg/ipcalc/ipcalc.go:161-168 | adding the last address to a list that starts at zero loses addresses |
| Ranges.RemoveIPFromRange | pkg/ipcalc/ipcalc.go:200-255 | the loop with its split and shrink cases computes Remove, which RemoveExact characterises; on lists whose intervals start at different addresses this is what the source's sort gives too |
| Ranges.RemoveExact | pkg/ipcalc/ipcalc.go:200-255 | on canonical lists the result is canonical and covers exactly the others |
| Ranges.CanonicalUnique | pkg/ipcalc/ipcalc.go:189-196 | two canonical lists that cover the same addresses are the same list |
| Ranges.RemoveUndoesAdd | pkg/ipcalc/ipcalc.go:147-255 | removing what was just added gives back the very list, if and only if the addition was safe |
| Ranges.AddUndoesRemove | pkg/ipcalc/ipcalc.go:147-255 | adding what was just removed gives back the very list, if and only if the addition is safe |
| Ranges.AddAllExact | pkg/controller/flatnetworksubnet/flatnetworksubnet.go:331-342 | if every single addition is safe, adding a collection one by one gives a canonical list of exactly the old addresses and the collection |
| Ranges.AddAllExactIff | pkg/controller/flatnetworksubnet/flatnetworksubnet.go:331-342 | for a collection of any addresses, fewer than there are in all, the result is exact if and only if every single addition was safe, and so is it free of inverted intervals: a wrap never heals |
| Ranges.EndsApartAreSafe | pkg/controller/flatnetworksubnet/flatnetworksubnet.go:331-342 | every addition is safe unless both ends of the address space come together |
| Ranges.AddAllOrderIrrelevant | pkg/controller/flatnetworksubnet/flatnetworksubnet.go:329-342 | where every addition is safe, order and repeats do not matter: the lists are identical |
| Ranges.OrderMattersAtTheEnds | pkg/controller/flatnetworksubnet/flatnetworksubnet.go:329-342 | three addresses that can be added safely in one order and not in another |
| Ranges.AddCounts | pkg/controller/flatnetworkip/flatnetworkip.go:208-211 | a safe addition raises the number of covered addresses by one exactly if the address was not covered |
| Ranges.RemoveCounts | pkg/controller/flatnetworkip/remove.go:65-68 | a removal lowers that number by one exactly if the address was covered |
| Allocator.SkipUsed | pkg/ipcalc/ipcalc.go:95-102 | every address skipped is used |
| Allocator.ScanRange | pkg/ipcalc/ipcalc.go:92-117 | the scan with the skip equals the naive scan of the range, wrap-around included |
| Allocator.GetAvailableIP | pkg/ipcalc/ipcalc.go:82-144 | terminates, and equals the naive scan of ranges or block |
| Allocator.AvailableExact | pkg/ipcalc/ipcalc.go:82-144 | an address is found exactly when a candidate is unused, and it is one; otherwise the search fails, or loops exactly if a range ends at the last address |
| Allocator.ScanLeavesRange | pkg/ipcalc/ipcalc.go:92-117 | a block, a range that ends at the last address and a used list for which the scan returns an address outside the range |
| Allocator.ScanNeverReturns | pkg/ipcalc/ipcalc.go:92-117 | the same block, exhausted, for which the scan never ends |
| Allocator.WrapIsLong | pkg/ipcalc/ipcalc.go:92-117 | a scan that wraps needs at least 2^127 steps to come back to its block |
| Allocator.AvailableIsFirst | pkg/ipcalc/ipcalc.go:82-144 | the address found comes before every other unused candidate: earlier range first, then what the scan of that range meets first, around the end of the address space if it wraps |
| Allocator.DrainGivesEachOnce | pkg/controller/flatnetworkip/ipcalc.go:52-58 | repeated allocation gives out each unused candidate exactly once, as many times as there are candidates |
| Allocator.DrainExhausts | pkg/controller/flatnetworkip/ipcalc.go:52-58 | after that no further try finds an address |
| Allocator.DrainAscends | pkg/ipcalc/ipcalc.go:82-144 | the addresses come range by range and within a range in the order of its scan |
| Allocator.DrainAscendsInRange | pkg/ipcalc/ipcalc.go:92-117 | if no range ends at the last address, the addresses of one range come in ascending order |
| Macs.BinarySearch | pkg/controller/flatnetworkip/mac.go:44 | on a sorted list it finds the insertion point, and says found exactly for members |
| Macs.SortSorts | pkg/controller/flatnetworkip/flatnetworkip.go:213-214 | sorting gives a sorted list of the same MACs, repeats included |
| Macs.SortedUnique | pkg/controller/flatnetworkip/flatnetworkip.go:213-214 | a sorted list is determined by its elements |
| Macs.DeleteExact | pkg/controller/flatnetworkip/remove.go:69-74 | deleting a MAC removes all its occurrences and nothing else, and keeps the order |
| SelfCheck.FilterDuplicatedIP | pkg/controller/flatnetworksubnet/flatnetworksubnet.go:382-405 | the loop over the map of seen addresses reports exactly the live objects whose address an earlier live object with a name holds |
| SelfCheck.DuplicatedExact | pkg/controller/flatnetworksubnet/flatnetworksubnet.go:382-405 | reported are exactly the objects with an address, not being deleted, whose address an earlier one of that kind, with a name, has |
| SelfCheck.NoDuplicatesExact | pkg/controller/flatnetworksubnet/flatnetworksubnet.go:382-405 | nothing is reported if and only if live addresses are pairwise distinct |
| SelfCheck.RebuildUsage | pkg/controller/flatnetworksubnet/flatnetworksubnet.go:329-342 | the loop computes the list and the count of the live addresses and the gateway |
| SelfCheck.RebuiltExact | pkg/controller/flatnetworksubnet/flatnetworksubnet.go:329-342 | if every addition was safe the rebuilt list is canonical and covers exactly these; the count equals the number covered if and only if they are pairwise distinct |
| SelfCheck.RebuiltIsIncremental | pkg/controller/flatnetworksubnet/flatnetworksubnet.go:329-342 | incremental safe additions of the same addresses, in any order, give the identical list |
| Controller.FirstListedExact | pkg/controller/flatnetworkip/ipcalc.go:59-75 | specific mode returns the first listed address that is in the ranges and unused, unless an invalid entry stands before it |
| Controller.FirstUnusedMACExact | pkg/controller/flatnetworkip/mac.go:43-52 | the first listed MAC that is unused is returned; failure exactly when all are used |
| Controller.AllocatedIsOwnOrUnused | pkg/controller/flatnetworkip/ipcalc.go:44-76 | an allocated address is the one already held or an unused one |
| Controller.AllocateIPExact | pkg/controller/flatnetworkip/ipcalc.go:13-76 | on the fields of the object: an address that it has and that is listed, or in the block if none are listed, is returned; else in auto mode the unused candidate before all others, and failure or a hang exactly if there is none; else the first eligible entry with only addresses before it, and failure exactly if there is none |
| Controller.AllocationIsDetermined | pkg/controller/flatnetworkip/ipcalc.go:13-76 | these properties admit no second outcome |
| Controller.AllocateMACExact | pkg/controller/flatnetworkip/mac.go:11-52 | on the fields of the object: no MAC if none is listed, the one it has if that is listed, else the first listed one that is unused, and failure exactly if all are used |
| Controller.AllocationSettles | pkg/controller/flatnetworkip/ipcalc.go:13-49 | whatever is used later, an object is given again what it was given, and is not reset once it is active, as long as the specification stays |
| Controller.StepKeepsIff | pkg/controller/flatnetworkip/flatnetworkip.go:132-362 | from a state that satisfies the invariant every safe write or choice, of handlers that may have seen old objects, of users and of the CNI plugin, keeps it; all but the choice of a new address keep it only if they are safe |
| Controller.FreshChoicesKeepIff | pkg/controller/flatnetworkip/flatnetworkip.go:163-197 | from a cached subnet of any age all choices of a new address, for whatever object, keep the invariant if and only if that subnet covers every held address and the gateway, as far as an object can ask for them; where a range ends at the last address, the wrapped scan must also meet none of them |
| Controller.ReuseKeepsIff | pkg/controller/flatnetworkip/ipcalc.go:14-42 | choosing the address the object is seen to have keeps the invariant if and only if no other object holds it and it is not the gateway |
| Controller.CommitKeepsIff | pkg/controller/flatnetworkip/flatnetworkip.go:199-222 | the subnet write, with the old choice on the subnet as it is now: the addition must not wrap |
| Controller.FallBackKeepsIff | pkg/controller/flatnetworkip/flatnetworkip.go:252-264 | the roll-back: no object may hold the address, so a reused one must not be rolled back |
| Controller.WriteCheckKeepsIff | pkg/controller/flatnetworksubnet/flatnetworksubnet.go:343-370 | the write of a self check: every held address and the gateway must have been counted, the gateway must not be held, and no addition may have wrapped |
| Controller.ActivateKeepsIff | pkg/controller/flatnetworksubnet/flatnetworksubnet.go:213-219 | the activation, also of a subnet that is active by now: the gateway must be unclaimed and its addition must not wrap |
| Controller.ReleaseKeepsIff | pkg/controller/flatnetworkip/remove.go:51-79 | the removal, called with an object of any age, gone or not: the address it has seen must not be the gateway or be held by another object, nor by this one if it is not being deleted |
| Controller.WriteKeeps | pkg/controller/flatnetworkip/flatnetworkip.go:231-251 | the IP write, on the object as it is now, deleted, released, created anew or not, always keeps the invariant; the address counts as held from then on |
| Controller.CurrentChoiceIsSafe | pkg/controller/flatnetworkip/flatnetworkip.go:184-197 | a choice from a used list that covers the current one, and from the current address or none, is safe |
| Controller.CurrentListingCountsIff | pkg/controller/flatnetworksubnet/flatnetworksubnet.go:312-342 | a listing of what is stored counts every held address if and only if no object that is being deleted holds any but the gateway |
| Controller.SafeRunKeeps | pkg/controller/flatnetworkip/flatnetworkip.go:132-362 | every run of safe events from the empty status, with new addresses chosen from subnets that cover what is held and the gateway, ends in a state that satisfies the invariant |
| Controller.NoAddressTwice | pkg/controller/flatnetworkip/flatnetworkip.go:132-362 | in every state of every such run, also between the writes of a handler: used list canonical, held addresses used and pairwise distinct, gateway of the status used and never held, a pending choice held by no other object and, once committed, used |
| OrderlyRuns.OrderlyRunIsSafe | pkg/controller/flatnetworkip/flatnetworkip.go:132-362 | every run in which handlers see what is stored, nothing is rolled back or removed twice, and a self check for a new gateway lists what is stored while no holder is being deleted and the new gateway is unheld and stays, is safe, and each address is held once |
| OrderlyRuns.ListedSinceIsGood | pkg/controller/flatnetworksubnet/flatnetworksubnet.go:312-370 | what such a listing counted is still all that is held when the check writes, whoever writes without the lock in between |
| Leaks.StepTightIff | pkg/controller/flatnetworkip/flatnetworkip.go:199-355 | from a state in which every used address is held, the gateway or committed, a safe event leads to such a state if and only if it is tight, which is decided before it: no second address for an object, no stop between the writes, no unreleased holder that goes, no replaced gateway, nothing counted that is gone |
| Leaks.UsedIsExactlyAccounted | pkg/controller/flatnetworkip/flatnetworkip.go:132-362 | in every state of every run of safe and tight events the used list covers exactly what is held, the gateway, and the committed choice |
| Leaks.RebuiltIsUsedIff | pkg/controller/flatnetworksubnet/flatnetworksubnet.go:329-348 | with no choice committed and no holder being deleted, the list the self check builds from what is stored is the stored one if and only if no address was lost |
| Controller.UneditedGatewayIsReserved | pkg/controller/flatnetworksubnet/flatnetworksubnet.go:349-360 | as long as no one edits the gateway, the status of an active subnet has it, and no self check writes anything, in every run, safe or not |
| Controller.MACsAreSorted | pkg/controller/flatnetworkip/flatnetworkip.go:212-215 | UsedMAC is sorted in every reachable state, safe or not |
| ListedMacs.MACStepKeepsIff | pkg/controller/flatnetworkip/flatnetworkip.go:191-264 | every safe event keeps held listed MACs used and held once; all but the choice of a new MAC keep that only if they are safe |
| ListedMacs.FreshMACsKeepIff | pkg/controller/flatnetworkip/mac.go:31-52 | from a cached subnet of any age all choices of a new MAC, for whatever object, keep it if and only if that subnet has every MAC that is held |
| ListedMacs.NoMACTwice | pkg/controller/flatnetworkip/mac.go:31-52 | in every state of every run of such events no two objects hold the same listed MAC, and each held one is in UsedMAC |
| ListedMacs.RolledBackMACGivesTwice | pkg/controller/flatnetworkip/flatnetworkip.go:258-262 | rolling back a MAC that the object already held frees it, and the next object that asks for it gets it too |
| Controller.DriftConserved | pkg/controller/flatnetworkip/flatnetworkip.go:208-211 | from any canonical list, every event but the subnet handler's writes, and additions that wrap, changes the count by the change in covered addresses |
| Controller.DriftConservedInRun | pkg/controller/flatnetworkip/flatnetworkip.go:208-211 | over any stretch of any run without these, the difference between count and covered addresses stays the same |
| Controller.CountInRun | pkg/controller/flatnetworksubnet/flatnetworksubnet.go:216-219 | in every state of a safe run the count misses the number of covered addresses by exactly the gateways that activation added uncounted, less what the last self check that wrote counted twice |
| Controller.UndisturbedCheckExact | pkg/controller/flatnetworksubnet/flatnetworksubnet.go:312-370 | from any status, a self check with nothing between its listing and its write changes nothing, or covers exactly the addresses of objects that are not being deleted and the gateway; what an object that is being deleted holds becomes free |
| Controller.FallbackRestores | pkg/controller/flatnetworkip/flatnetworkip.go:253-263 | rolling back a fresh allocation restores list and count, and the whole status if and only if the MAC was fresh too |
| Incidents.RolledBackReuseGivesTwice | pkg/controller/flatnetworkip/flatnetworkip.go:252-264 | a run from the start in which rolling back a reused address ends with two objects holding it |
| Incidents.RepeatedRemovalGivesTwice | pkg/controller/flatnetworkip/remove.go:64-77 | a run in which a removal that runs twice ends with two objects holding an address |
| Incidents.StaleSubnetGivesTwice | pkg/controller/flatnetworkip/flatnetworkip.go:163-222 | a run in which a choice from a cached subnet, older than the last write, ends with two objects holding an address: the retry commits what is used already |
| Incidents.SelfCheckGivesTwice | pkg/controller/flatnetworksubnet/flatnetworksubnet.go:331-365 | a run in which the self check after a new gateway lists what is stored and frees the address of an object that is being deleted, and another object gets it |
| Incidents.NewGatewayIsHeld | pkg/controller/flatnetworksubnet/flatnetworksubnet.go:339-365 | a run in which a new gateway is the address of an object: the self check lists what is stored, writes the gateway and counts it twice |
| Incidents.GatewayEditedDuringCheck | pkg/controller/flatnetworksubnet/flatnetworksubnet.go:339-365 | a run in which the gateway is changed between the listing of what is stored and the write: it is in the status and not reserved, and an object gets it |
| Incidents.ChoiceOutlivesFailure | pkg/controller/flatnetworkip/flatnetworkip.go:199-251 | a choice is committed although the subnet has failed since, and written although the object is being deleted; no address is held twice for all that |
| Incidents.RespecifiedMovesAndLeaks | pkg/controller/flatnetworkip/flatnetworkip.go:333-355 | an active object with a new address list is reset and gets a listed address; the old one is held by no one and stays used and counted (Leaks.StepTightIff has the exact condition) |
| Handlers.AllocateIP | pkg/controller/flatnetworkip/ipcalc.go:44-76 | the loop over the listed addresses, or the search, gives the outcome that the fields of the object determine, stated as in AllocateIPExact |
| Handlers.AllocateMAC | pkg/controller/flatnetworkip/mac.go:31-52 | with UsedMAC sorted, the binary searches give the outcome that the fields of the object determine, stated as in AllocateMACExact |
| Handlers.ChooseFor | pkg/controller/flatnetworkip/flatnetworkip.go:184-197 | the address and MAC that the fields of object and subnet determine, and nothing exactly if one of the two allocations fails |
| Handlers.RolledBack | pkg/controller/flatnetworkip/flatnetworkip.go:199-264 | a choice that is committed and rolled back at once restores list and count if it was unused, and keeps the invariant if and only if the object did not hold it |
| Handlers.Store.ActivateSubnet | pkg/controller/flatnetworksubnet/flatnetworksubnet.go:213-219 | the gateway is added exactly if that does not wrap; all is well afterwards if and only if the event was safe, as after every method of the store |
| Handlers.Store.ListIPs | pkg/controller/flatnetworksubnet/flatnetworksubnet.go:312-342 | goes on exactly if live addresses are distinct; the new list is free of inverted intervals only if it covers exactly live addresses and gateway |
| Handlers.Store.WriteCheck | pkg/controller/flatnetworksubnet/flatnetworksubnet.go:343-370 | writes exactly if both the gateway and the usage differ, and then the whole new usage |
| Handlers.Store.Choose | pkg/controller/flatnetworkip/flatnetworkip.go:132-197 | from the subnet as it was after any number of events: if that is active, and the object seen is not being deleted, pending or active, the choice that the fields determine, otherwise none; safe if that was the current subnet, with UsedMAC sorted by MACsAreSorted |
| Handlers.Store.ResetIP | pkg/controller/flatnetworkip/flatnetworkip.go:304-362 | the phase of the object goes back to initial, and nothing else changes, exactly if it exists and was seen active with an address that is not listed, or not in the block if none are listed, or with a MAC that is not among those listed |
| Handlers.Store.SubnetError | pkg/controller/flatnetworksubnet/flatnetworksubnet.go:75-119 | the phase of the subnet becomes failed and nothing else changes |
| Handlers.Store.IPError | pkg/controller/flatnetworkip/flatnetworkip.go:87-130 | the phase of the object becomes failed and nothing else changes |
| Handlers.Store.CommitChoice | pkg/controller/flatnetworkip/flatnetworkip.go:199-222 | one address more, counted if new, exactly if the addition does not wrap; UsedMAC sorted with the MAC once more; the rest of the subnet and all objects as before |
| Handlers.Store.WriteChoice | pkg/controller/flatnetworkip/flatnetworkip.go:231-251 | address, MAC and phase of the one object change and nothing else, and it holds the address; if all was well, each address is held once |
| Handlers.Store.FallBack | pkg/controller/flatnetworkip/flatnetworkip.go:252-264 | if no one has written the subnet since: exactly that address and all occurrences of that MAC go, the count follows; otherwise nothing changes |
| Handlers.Store.Release | pkg/controller/flatnetworkip/remove.go:54-79 | whatever became of the object, exactly the address and MAC that were seen go, the count follows; a first removal that saw the current address keeps all well |
| Handlers.Store.CommitAndWrite | pkg/controller/flatnetworkip/flatnetworkip.go:199-275 | undisturbed: the object holds the address and each address is held once; or, if the IP write fails, an unused address leaves no trace, and all stays well if and only if the object did not hold it |
| Locks.LockIsExclusive | pkg/controller/wrangler/utils.go:42-72 | in every interleaving of any number of threads one holder per subnet, one waiter overall, and isLocked only while a thread is between setting and clearing it |
| Locks.NoDeadlock | pkg/controller/wrangler/utils.go:64-72 | in every interleaving some thread that is not idle can step, although the global mutex is held while waiting |
| Locks.FlagStaysExactIff | pkg/controller/wrangler/utils.go:47-55 | isLocked stays exact with a step if and only if the step does not clear it under another thread |
| Locks.HeldButNotFlagged | pkg/controller/wrangler/utils.go:47-55 | an interleaving in which the lock is held and isLocked is false |
| Interleavings.InterleavingIsSerial | pkg/controller/flatnetworkip/flatnetworkip.go:163-264 | at every point of every interleaving of threads that choose, write the subnet, write the IP or roll back under the lock, with writes from outside between any two steps and restarts at any time: only the lock holder has a choice pending, and the objects with that choice are the result of the events one at a time |
| Interleavings.NoAddressTwiceInterleaved | pkg/controller/flatnetworkip/flatnetworkip.go:163-264 | so at every point of an interleaving of safe events, with new addresses chosen from cached subnets that cover what is held and the gateway, no address is held twice, and a pending choice is held by no other object |
| Interleavings.OrderlyInterleaved | pkg/controller/flatnetworkip/flatnetworkip.go:163-264 | in particular in every interleaving in which the handlers see what is stored and all goes in order |
| Interleavings.NoLeakInterleaved | pkg/controller/flatnetworkip/flatnetworkip.go:163-264 | at every point of an interleaving of safe and tight events the stored used list covers exactly what is held, the gateway, and what the lock holder has committed |
| Conflicts.ValidateSubnet | pkg/common/common.go:29-91 | accepts exactly a known mode, a gateway in the block if there is one, and ranges in the block that do not end before they begin |
| Conflicts.NetworkConflictExact | pkg/ipcalc/ipcalc.go:329-354 | a conflict is reported exactly when the blocks share an address, because blocks nest or are disjoint |
| Conflicts.CheckIPRangesConflict | pkg/ipcalc/ipcalc.go:356-406 | the nested loops find a pair of ranges of which one has an end in the other |
| Conflicts.RangesConflictExact | pkg/ipcalc/ipcalc.go:356-406 | for well-formed ranges that is the case exactly when the lists share an address |
| Conflicts.FirstOverlap | pkg/common/common.go:123-136 | the first listed subnet of another name, same mode and VLAN, with an overlapping block; OverlapsExact says on the fields which these are |
| Conflicts.OverlapsExact | pkg/common/common.go:123-136 | a listed subnet is compared and found to overlap exactly if it has another name, the same mode and VLAN, and its block neither ends before the new one begins nor begins after it ends |
| Conflicts.CheckSubnetConflict | pkg/common/common.go:117-156 | accepts exactly when no such subnet exists or the first one and the new one have ranges that are apart |
| Conflicts.AcceptsIff | pkg/common/common.go:117-156 | a valid subnet is accepted if and only if the first such subnet of the list, if there is one, and itself have ranges, and no address is in ranges of both |
| Conflicts.IrrelevantAreSkipped | pkg/common/common.go:127-135 | dropping every subnet of the same name, of another mode or of another VLAN from the list leaves the answer unchanged |
| Conflicts.NoneMetIsAccepted | pkg/common/common.go:117-156 | against a list of itself, of other modes and VLANs and of blocks that share no address with its own a subnet is accepted |
| Conflicts.AcceptanceSufficesIff | pkg/common/common.go:117-156 | for given blocks, modes and VLANs: acceptance means freedom from conflict with the whole list for every choice of ranges, if and only if at most one listed block overlaps, or the first that does is the same single address |
| Conflicts.LaterConflictIsMissed | pkg/common/common.go:145-146 | a list in which a later subnet has the very ranges of the accepted one |
| Conflicts.CanReturnExact | pkg/ipcalc/ipcalc.go:82-144 | some used list makes auto mode return an address exactly when it is usable and in the scope of the ranges |
| Conflicts.AcceptedSubnetsAreDisjointIff | pkg/common/common.go:60-156 | two validated subnets of one mode and VLAN, one accepted against the other, share no auto-mode address, if and only if no range ends at the last address and wraps into the other |
| Conflicts.WrappedSubnetsCollide | pkg/common/common.go:117-156 | two valid subnets, each accepted against the other, that hand out the same address because a range wraps |
| Conflicts.AcceptedAgainstListIsDisjoint | pkg/common/common.go:117-156 | accepted against a list in which at most one block overlaps, and without a range that ends at the last address, a subnet shares no auto-mode address with any listed subnet of its mode and VLAN |
| Workloads.CheckIPDuplicate | pkg/admission/webhook/workload.go:161-174 | accepts exactly lists without repeats |
| Workloads.CheckIPsInSubnet | pkg/admission/webhook/workload.go:176-201 | accepts exactly when every address is usable and not the gateway |
| Workloads.ValidateIPsInUsed | pkg/admission/webhook/workload.go:334-363 | rejects exactly when a requested address is used and not one of the workload's own |
| Workloads.ValidateMACsInUsed | pkg/admission/webhook/workload.go:365-398 | rejects exactly when a requested MAC occurs in the used list more often than among the workload's own pods |
| Workloads.RemoveOwnMACs | pkg/admission/webhook/workload.go:377-391 | what is left is sorted and is the multiset difference |
| Workloads.ValidateIPsInReserved | pkg/admission/webhook/workload.go:241-288 | accepts exactly owned Jobs and workloads none of whose addresses another workload reserved |
| Workloads.ReservedIP.SyncWorkloadReservedIP | pkg/controller/workload/workload.go:256-302 | without addresses nothing changes; otherwise the entry of the workload covers exactly its addresses, and every other entry stays as it was |
| Workloads.ReservedIP.RemoveWorkloadReservedIP | pkg/controller/workload/workload.go:205-254 | without addresses nothing changes; otherwise the entry of the workload is gone, and every other entry stays as it was |
| Workloads.SyncKeepsIff | pkg/controller/workload/workload.go:270-295 | reservations stay disjoint if and only if no other workload reserved one of the addresses |
| Workloads.OwnedJobOverlaps | pkg/admission/webhook/workload.go:251-256 | the reservation of an owned Job can overlap |
| Workloads.SyncIsIdempotent | pkg/controller/workload/workload.go:284-292 | a repeated synchronisation changes nothing whatever the order of the addresses |
| Workloads.ReservedIsLastListed | pkg/controller/workload/workload.go:76-112 | in every run a workload has a reservation if and only if its last change that lists addresses is an update, and it is of exactly these addresses |
| Workloads.ReservationsStayDisjoint | pkg/admission/webhook/workload.go:241-288 | in every run of passed checks each followed by its synchronisation, and of deletions, reservations of different workloads share no address |
| Workloads.AutoSparesReservedIff | pkg/controller/flatnetworkip/ipcalc.go:52-58 | repeated auto-mode allocation gives out no reserved address if and only if every reserved address is used already or no candidate |
| SixToFour.Get6to4CIDR | pkg/cni/commands/common.go:84-101 | the text for an IPv4 address and a size from 1 to 32, and no text otherwise |
| SixToFour.TextDetermines | pkg/cni/commands/common.go:91-100 | address and size can be read back from the text, and the size lies in 17 to 48 |
| SixToFour.TextIsInjective | pkg/cni/commands/common.go:84-101 | equal texts come from equal addresses and sizes |
| SixToFour.TextNamesEmbedding | pkg/cni/commands/common.go:91-100 | the sixteen bytes that the groups of the text spell are 2002, the IPv4 address, and zeros |
| SixToFour.EmbeddingKeepsPrefixes | pkg/cni/commands/common.go:91-100 | two addresses share a prefix exactly when their embeddings share one that is 16 bits longer |

## Left out

- Ranges.AddIPToRange: on a list with two intervals that start at the same address the source's sort, which is not stable, may leave them in another order than the model's; canonical lists have no such intervals.
- Ranges.RemoveIPFromRange: the same.
- Ranges.AddAllExactIff: says nothing of collections as long as the address space itself, where additions enough to turn an inverted interval back could follow.
- Kubernetes clients, informers, leader election and generated code; the stored objects are records, and what a handler sees in a cache is any record.
- ListedMacs.NoMACTwice: says nothing of MACs that the CNI plugin reports for objects that ask for none; they are not in UsedMAC, and nothing in the operator keeps them from being listed by another object.
- Texts of CIDRs, IPs and MACs and their parse errors; MACs are numbers, since only equality and order matter.
- Addresses that are nil or four bytes long inside interval lists, which the operator never stores.
- Aliasing of a slice given to AddIPToRange: its callers work on deep copies, so the model returns a new list.
- IPv6 networks that contain the IPv4-mapped addresses, where the scan of a block without ranges stops at the first of them; Networks.NetContainsExact shows why.
- Resource versions: a roll-back succeeds in the model also if the subnet was changed and changed back in between, where the API server rejects it; the model then has more runs than the code.
- Validation inside the subnet handler: the event that activates a subnet stands for a handler run whose checks passed, and module Conflicts is about those checks.
- Pods: whether they exist or are deleted, the wait of the removal, the time limit of the pending phase, and the deletion of pods with duplicated addresses appear only as events that may happen at any time.
- The self check's early exit when isLocked is set: it only leaves the events out.
- ip2UsedRanges has no caller; Ranges.AddAllOrderIrrelevant covers its sort.
- Validation of routes, GetDefaultGateway and CheckSubnetFlatMode: one condition each.
- CronJob reservations, whose check and synchronisation read annotations of different objects.
- CNI commands apart from the 6to4 address, routes, services, endpoints, ingresses, the migrator and the webhook server.
