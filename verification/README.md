# Verified models of the container networking cores

This project models, in Dafny, the state-keeping cores of the Azure container networking repository and proves
what they keep over whole runs.

| files | models |
|---|---|
| `AddressModel.dfy`, `AddressRuns.dfy`, `AddressAnswers.dfy`, `AddressObjects.dfy` | the IP address allocator: pools, records, the index by owner, the epoch-based merge of a refresh, pool requests, restore |
| `NamedLocks.dfy` | the reference-counted named lock, as all interleavings of any number of goroutines over any names |
| `NetlinkCodec.dfy`, `NetlinkMessages.dfy`, `NetlinkRoutes.dfy` | netlink attributes, messages and routes, encoded and decoded |
| `VlanNamespace.dfy`, `VlanRules.dfy` | the set-up of the vlan namespace and of the mangle rules, with a failure allowed at every system call |
| `SubnetAddresses.dfy`, `PodListing.dfy` | enumeration of a subnet, the generated gateway, and the address space that the IPv6 source builds from them |
| `LogRotation.dfy`, `BackoffFetcher.dfy`, `RouteUpdate.dfy` | log rotation, the polling fetcher, route reconciliation |
| `Basics.dfy` | options, bytes, powers of two |

How the allocator is built. `AddressModel` gives the value of a pool and of an address space and what each operation
makes of it; the iteration order of Go's maps, where it can matter, is a parameter or a free choice. `AddressRuns` makes
these operations the steps of runs that start from a first listing of the source, and keeps beside each run a ledger of
who holds what, computed from calls and replies alone (`HeldAt`). `AddressAnswers` says in terms of that ledger what every
call is answered and what it changes. `AddressObjects` has the classes of the repository,
with loops over maps and pointers shared between the address map and the index; each method is proved to make the step
that `AddressRuns.Next` allows. Addresses and owner IDs are members of an unspecified type with one distinguished value
for the empty string, so the results hold for every text form of them. A refresh and the operation that follows it are
two consecutive steps.

Steps of a run are `Legal`: a request by an owner that already holds an address does not name a different free one, and
a release that gives no owner ID does not hit a labelled record. The CNI plugin always gives an ID
(cni/ipam/ipam.go:168 and cni/ipam/ipam.go:307), so its releases are all legal. An illegal step costs a pool its coherence,
and `GrantKeepsCoherent` and `ReleaseKeepsCoherent` show that no other request or release does.

Where a promised property turned out not to hold in general, there is a lemma with the failing family and an exact condition:

- the pool picked for a request is not the best one when priority and size pull in different directions: it depends on
  the map order (`MixedPreferenceDependsOnOrder`); within one priority, or one size, it is the best (`ScanTies`);
- a record listed by a refresh is treated as stale at its release exactly if its pool is new to the refresh
  (`ListedRecordStaleness`), because the records of such a pool keep the epoch with which the listing was built;
- a restart forgets that an address was withdrawn: given back before the next refresh it can be issued again
  (`RestartForgetsWithdrawal`, `UnmarkedGiveBackFrees`), and otherwise not (`WithdrawnNotReissued`);
- the poll interval is the capped exponential back-off exactly if the upper bound is below 2^62 ns
  (`BackoffIffNoOverflow`);
- a route comes back from its encoding unchanged exactly if it is canonical (`LosslessIffCanonical`);
- the accept rule ends above the mark rule exactly under the condition of `ShieldedIff`;
- a route update leaves all of its target in the table exactly if the routes shared with the record were still there
  (`TargetReachedIff`);
- an attempt to populate the VM ends with the link in the namespace unless it found a leftover that looks like a finished
  set-up, a name that stands for the VM namespace itself with the link in the VM (`Attempt`); attempts produce such a
  leftover only if a lookup overlooks the link, which `cleanupInterfaceIfExists` takes for its absence (`Attempts`,
  `OverlookedLink`);
- enumeration of a subnet is complete exactly if the subnet is not an IPv6 block of more than 32 host bits around
  ::ffff:0:0, where Go's library takes the addresses for IPv4 (`EnumerationCompleteIff`, `CutShortExample`); for IPv4
  without prefix bits it never ends (`NoPrefixNeverEnds`).

The netlink message header is that of section 2.3.2 of RFC 3549 and the route service that of section 3.1.1 of RFC 3549.

## Model

| member | source | states |
|---|---|---|
| `AddressModel.GrantKeepsCoherent` | ipam/pool.go:457-509 | After a request the index is still the inverse of the owner fields and every labelled record is in use, if and only if the request did not grant a named address to an owner bound to another one |
| `AddressModel.SameOwnerSameAddress` | ipam/pool.go:484-488 | An owner that asks twice gets the same address, and the second request changes nothing |
| `AddressModel.ReleaseKeepsCoherent` | ipam/pool.go:523-576 | A release keeps the pool coherent if and only if it does not free a labelled record without giving its label |
| `AddressModel.ReleaseTarget` | ipam/pool.go:535-560 | The record a release acts on is the one and only one that satisfies the conditions for being released, and none if there is none |
| `AddressModel.NewAllocationCounts` | ipam/pool.go:489-509 | For an unbound owner, failure means that no record is both unused and unlabelled and nothing else; success lowers the reported available count by one and keeps the capacity |
| `AddressModel.ReleaseCounts` | ipam/pool.go:562-573 | An effective release raises the available count by one, or for a stale record removes it and lowers the capacity by one |
| `AddressModel.RebuiltIsKept` | ipam/manager.go:118-130 | The index rebuilt from saved records, in any order, is the one that was kept step by step |
| `AddressModel.ScanPicksCandidate` | ipam/pool.go:305-359 | The scan picks a candidate if it met one, whatever the order |
| `AddressModel.ScanTies` | ipam/pool.go:343-353 | Among candidates of one priority the pick has the most addresses, among candidates of one size the highest priority, in every order |
| `AddressModel.MixedPreferenceDependsOnOrder` | ipam/pool.go:343-353 | A pool with higher priority and one with more addresses: whichever is visited last wins |
| `AddressModel.AnyPoolRequest` | ipam/pool.go:292-368 | A request for any pool succeeds if and only if some pool of the right kind is unreferenced or without live allocations, and hands out one without an address in use if addresses are in use only in referenced pools, which it preserves |
| `AddressModel.SweepMerges` | ipam/pool.go:200-241 | Folding a listing into a known pool and sweeping leaves the listed records plus the ones in use, and the test for removal means that nothing keeps the pool alive |
| `AddressModel.LoopsMerge` | ipam/pool.go:181-250 | The two loops of a merge, in any order, have the effect of the order-free definition of a merged space |
| `AddressModel.MergeOfKnownPool` | ipam/pool.go:181-250 | A known pool survives if and only if it has a listed address, a record in use or a positive count; its records are the listed ones plus the ones in use, owners and uses unchanged, and every one of them is unhealthy if and only if the listing of the source lacks it |
| `AddressModel.MergeKeepsInv` | ipam/pool.go:181-250 | A merge keeps every pool coherent and no epoch ahead of the space's |
| `AddressModel.ListedRecordStaleness` | ipam/pool.go:192-216 | A listed record has an old epoch after the refresh if and only if its pool is new to the refresh |
| `AddressRuns.RestoredIsRestart` | ipam/manager.go:118-130 | What restore rebuilds from the stored fields is a restart of the space: same owners and uses, epochs and health forgotten |
| `AddressRuns.RefreshKeeps` | ipam/pool.go:181-250 | A refresh changes nobody's holdings and drops no pool that has an owner in it |
| `AddressRuns.RestartKeeps` | ipam/pool.go:83-84 | A restart changes nobody's holdings |
| `AddressRuns.StepKeeps` | ipam/manager.go:278-404 | Every step keeps the invariant, and the index stays equal to the ledger computed from calls and replies |
| `AddressRuns.LegalIffKept` | ipam/pool.go:457-576 | Of the steps the manager can take from a space in the invariant, the legal ones are exactly those that keep it |
| `AddressRuns.RunInvariant` | ipam/pool.go:457-576 | After every step of every run the index is the inverse of the owner fields and says who holds what as callers saw it |
| `AddressRuns.NoTwoOwners` | ipam/pool.go:457-576 | At no point of any run do two owners hold one address of a pool |
| `AddressRuns.NoTwoHolders` | ipam/pool.go:457-576 | If no address was ever listed for two pools, no address is ever held twice, in whatever pools |
| `AddressRuns.AddressStaysPut` | ipam/pool.go:457-576 | A held address stays with its owner, in use, until given back, across refreshes that withdraw it and across restarts, and asking again is answered with it |
| `AddressRuns.RefreshWithdraws` | ipam/pool.go:226-241 | A refresh that no longer lists an address in use keeps its record but marks it withdrawn |
| `AddressRuns.WithdrawnNotReissued` | ipam/pool.go:562-573 | A withdrawn address goes to no other owner, and to nobody once released, until a refresh lists it again; also across restarts, if it is not given back between a restart and the next refresh |
| `AddressRuns.UnmarkedGiveBackFrees` | ipam/pool.go:562-573 | That condition is exact: in every run, giving the address back between a restart and the next refresh puts it on offer for any other owner |
| `AddressRuns.RestartForgetsWithdrawal` | ipam/pool.go:83-84 | After a restart a release before the next refresh puts any withdrawn address back on offer, and another owner can get it |
| `AddressRuns.GrantedWasListed` | ipam/pool.go:457-520 | No run ever grants an address that neither the first listing nor an earlier refresh had for that pool |
| `AddressRuns.ReferencedOverRuns` | ipam/pool.go:292-387 | If addresses are requested only from referenced pools, addresses are in use only in referenced pools, throughout every run |
| `AddressRuns.PoolHandedOutIsUnused` | ipam/pool.go:305-359 | In such a run a request for any pool never hands out one with an address in use |
| `AddressAnswers.RequestAnswers` | ipam/pool.go:457-520 | The reply to every request of every run, from the ledger: a named address is granted if and only if the pool has it and it is unused or held by the one who asks, not found if and only if it is absent, and in use otherwise; without a name the gateway flag gets the gateway, a holder gets what it holds, anybody else an unused address, or learns that all are used |
| `AddressAnswers.RequestTouches` | ipam/pool.go:504-509 | A granted record becomes used and labelled, and nothing else in the space changes; a refused request changes nothing |
| `AddressAnswers.ReleaseEffect` | ipam/pool.go:523-576 | What every release of every run does, from the ledger: the address its owner holds, or an unlabelled one that is named, is dropped if stale and else unused and unlabelled; every other record and pool stays |
| `AddressAnswers.CountsOverRuns` | ipam/pool.go:361-383 | The reference count of a pool is zero or one throughout every run |
| `AddressAnswers.PickedIsReferenced` | ipam/pool.go:361-363 | A pool that is handed out, by name or at large, has one reference afterwards |
| `AddressAnswers.NamedPoolAnswers` | ipam/pool.go:298-304 | A pool asked for by name is answered with if it is there; only its count changes, to one |
| `AddressAnswers.ReleasedPool` | ipam/pool.go:371-387 | A release takes the reference of a pool if nobody holds an address of it, and leaves it if somebody does |
| `AddressAnswers.AnyPoolAnswers` | ipam/pool.go:305-359 | From calls and replies alone: if addresses are requested only from pools handed out before, the pool handed out is of the right kind and nobody holds an address of it; with owners named, the request fails if and only if every pool of that kind has a holder |
| `AddressAnswers.AnyPoolTouches` | ipam/pool.go:309-363 | It changes counts only: one for the pool handed out, none for another pool without a holder, and as before for one with a holder |
| `AddressAnswers.HoldersCounted` | ipam/pool.go:392-416 | With owners named, capacity is what is available plus the number of holders in the ledger |
| `AddressAnswers.RefreshedAddresses` | ipam/pool.go:181-250 | After a refresh a pool has exactly the addresses that are listed and those in use |
| `AddressAnswers.RefreshTouches` | ipam/pool.go:181-250 | A refresh raises the epoch by one, takes new pools over as listed, and changes of a known pool only its records and epoch |
| `AddressAnswers.RestartTouches` | ipam/manager.go:118-130 | A restart keeps pools, counts, records, owners, uses and the index, and forgets epochs and health |
| `AddressObjects.AddressPool.IsAnyRecordInUse` | ipam/pool.go:424-431 | The loop finds a used or labelled record exactly when there is one |
| `AddressObjects.AddressPool.GetInfo` | ipam/pool.go:392-416 | The loop counts the records and the unused ones, and collects exactly the unhealthy ones |
| `AddressObjects.AddressPool.NewAddressRecord` | ipam/pool.go:434-454 | Adds a fresh unlabelled record and returns it; outside the subnet it returns none, and for a known address the existing record, each with its own error and without a change |
| `AddressObjects.AddressPool.FindFree` | ipam/pool.go:490-502 | Finds an unused and unlabelled record exactly when there is one |
| `AddressObjects.AddressPool.Choose` | ipam/pool.go:464-502 | The record chosen, or the error, is one that the order-free specification allows |
| `AddressObjects.AddressPool.RequestAddress` | ipam/pool.go:457-520 | Refines a request step; the index keeps pointing at the records of the address map |
| `AddressObjects.AddressPool.FindReleased` | ipam/pool.go:535-560 | Finds the specified release target by pointer or by address |
| `AddressObjects.AddressPool.ReleaseAddress` | ipam/pool.go:523-576 | Refines a release; no index pointer is left to a dropped record as long as the result is coherent |
| `AddressObjects.AddressPool.Absorb` | ipam/pool.go:200-222 | Moves the records of a listing into the pool, refreshing the ones it has, and empties the listing |
| `AddressObjects.AddressPool.Sweep` | ipam/pool.go:226-241 | Deleting from the map while looping over it leaves exactly the swept pool |
| `AddressObjects.AddressPool.Rebuild` | ipam/manager.go:118-130 | Sets the back pointer and rebuilds an index of pointers to the pool's own records |
| `AddressObjects.AddressSpace.NewAddressPool` | ipam/pool.go:253-279 | Creates a pool under its ID exactly if there is none, otherwise returns the existing one and changes nothing |
| `AddressObjects.AddressSpace.NewAddressRecord` | ipam/pool.go:434-454 | The same on a pool of a space: only that pool gains the record, and all pointers stay good |
| `AddressObjects.AddressSpace.Merge` | ipam/pool.go:181-250 | Refines a refresh step, keeps the invariant and empties the listing |
| `AddressObjects.AddressSpace.ReleasePool` | ipam/pool.go:371-387 | Refines a pool release: the count is cleared unless a record is in use |
| `AddressObjects.AddressSpace.RequestNamedPool` | ipam/pool.go:292-368 | Refines a request for a pool by its ID |
| `AddressObjects.AddressSpace.Compare` | ipam/pool.go:312-353 | Keeps the best pool so far unless the visited one is a candidate and preferred to it |
| `AddressObjects.AddressSpace.ScanPools` | ipam/pool.go:309-354 | The loop, which releases pools while it looks, picks what the scan of the original pools in that order picks |
| `AddressObjects.AddressSpace.RequestAnyPool` | ipam/pool.go:292-368 | Refines a request for any pool, for the order the map gave |
| `AddressObjects.AddressSpace.RequestAddress` | ipam/manager.go:346-374 | Refines the request step on the whole space and touches no other pool |
| `AddressObjects.AddressSpace.ReleaseAddress` | ipam/manager.go:377-404 | Refines the release step; on a space in the invariant a legal release keeps all pointers good |
| `AddressObjects.AddressSpace.Restore` | ipam/manager.go:118-130 | The nested loops turn the stored space into a valid one that is a restart of the saved one |
| `NamedLocks.StepKeeps` | common/namedlock.go:32-59 | Every step of every goroutine keeps the invariant and crashes on nothing |
| `NamedLocks.CallKeeps` | common/namedlock.go:32-59 | So does every new call |
| `NamedLocks.DeleteKeeps` | common/namedlock.go:53-55 | Forgetting a name at count zero leaves nobody counting on it |
| `NamedLocks.Reachable` | common/namedlock.go:32-59 | The invariant holds in every state of every interleaving |
| `NamedLocks.CallStep` | common/namedlock.go:32-59 | In one step of anybody a goroutine stays, begins a call, or gets nearer to the end of its call; within an acquire it keeps what it holds until it returns with the name, and a release takes the name and nothing else |
| `NamedLocks.AcquireDelivers` | common/namedlock.go:32-42 | When an acquire returns, the goroutine holds the name besides what it held before |
| `NamedLocks.ReleaseDelivers` | common/namedlock.go:45-59 | When a release returns, the goroutine holds what it held before but the name |
| `NamedLocks.CallsCanBegin` | common/namedlock.go:32-59 | In every state a goroutine outside may ask for any name and release any name it holds |
| `NamedLocks.UnblockedCanStep` | common/namedlock.go:32-59 | A goroutine that is not blocked can step, towards the end of its call, which takes at most six steps of its own |
| `NamedLocks.MutualExclusion` | common/namedlock.go:32-59 | At most one goroutine is between acquire and release of a name |
| `NamedLocks.OuterHolderNeverBlocks` | common/namedlock.go:33-41 | The holder of the outer mutex can always step, so none waits for a named lock while holding it |
| `NamedLocks.NeverCrashes` | common/namedlock.go:32-59 | No lookup misses its name and no unlocked mutex is unlocked |
| `NamedLocks.CountsAreExact` | common/namedlock.go:34-55 | In every state each count is the number of holders and waiters, and the map holds exactly the names that have some, besides one that the holder of the outer mutex is just adding or removing |
| `NamedLocks.SecondLookupFindsSame` | common/namedlock.go:41-41 | The unguarded lookup returns the lock whose count this goroutine raised |
| `NamedLocks.EmptyWhenDone` | common/namedlock.go:51-55 | When all goroutines are outside and hold nothing the map is empty |
| `NamedLocks.StuckOnlyOnHeldNames` | common/namedlock.go:32-59 | If no goroutine inside a call can step, each waits for a name that someone holds: the lock adds no deadlock of its own |
| `NetlinkCodec.SerializedLength` | netlink/protocol.go:239-276 | Serializing yields exactly length() bytes, the aligned size of header, value and children; a value comes whole and then zeros, and children lie end to end behind the header uncut |
| `NetlinkCodec.Digits` | netlink/protocol.go:244-249 | Numbers are written as their digits to base 256, in the byte order of the host |
| `NetlinkCodec.SerializeRta` | netlink/protocol.go:419-441 | The buffer holds the encoding: unpadded length, type, data, zero padding |
| `NetlinkCodec.SerializeAttribute` | netlink/protocol.go:239-265 | The buffer filled at moving offsets holds the encoding |
| `NetlinkCodec.SerializeChildren` | netlink/protocol.go:255-261 | The loop writes the concatenated encodings of the children and leaves the header alone |
| `NetlinkMessages.WalkRecovers` | netlink/socket.go:185-199 | A walk over encoded attributes recovers every type and value, in order |
| `NetlinkMessages.WalkWithTail` | netlink/socket.go:185-199 | A tail too short for a header is ignored; one with a bad length field makes the whole list malformed |
| `NetlinkMessages.TreeRoundTrip` | netlink/protocol.go:239-276 | Decoding an encoded tree recovers every type and zero-padded value at every depth |
| `NetlinkMessages.MessageRoundTrip` | netlink/protocol.go:141-166 | The length field is the size of the message, and header and payload come back |
| `NetlinkMessages.SerializeMessage` | netlink/protocol.go:141-166 | The buffer holds header and payloads as specified |
| `NetlinkRoutes.SetIpRoute` | netlink/ip_linux.go:215-280 | What is sent is the specified message, and by its bytes: 24 with flags 0x605 to add and 25 with flags 0x5 to delete, sequence number, process, the fixed part with the prefix length that is set after it was queued, and the attributes |
| `NetlinkRoutes.SentOnTheWire` | netlink/ip_linux.go:215-280 | The bytes of the message in numbers: lengths, offsets, types 1, 7, 5, 6, 4 and 3 of the attributes in that order, IPv4 addresses in four bytes, zero numbers left out |
| `NetlinkRoutes.DeserializeRoute` | netlink/ip_linux.go:100-140 | The loop over attributes computes the decoding: without any attribute if their list is malformed, and with an explicit result where the program would index past a value |
| `NetlinkRoutes.DecodedByLast` | netlink/ip_linux.go:100-140 | For every received message: each field comes from the last attribute of its type or else from the fixed part, and there is no result if and only if a number attribute has less than four bytes |
| `NetlinkRoutes.MalformedListIsDropped` | netlink/socket.go:185-199 | A malformed attribute drops the whole list, also the good ones before it |
| `NetlinkRoutes.RouteRoundTrip` | netlink/ip_linux.go:100-140 | Decoding an encoded route gives the route up to its normal form, for every route |
| `NetlinkRoutes.SentRouteComesBack` | netlink/ip_linux.go:215-280 | So does the whole message: it carries its own length and the asked type, and its data decode to the normal form |
| `NetlinkRoutes.LosslessIffCanonical` | netlink/ip_linux.go:215-280 | The normal form is the route itself if and only if the route is canonical |
| `VlanNamespace.Host.EnsureClean` | network/transparent_vlan_endpointclient_linux.go:174-201 | On success the namespace has the link inside or is gone, and no link is left in the VM if its lookup sees it; an intact set-up that is seen is left alone, and no leftover becomes the confusing one |
| `VlanNamespace.Host.CreateNetworkNamespace` | network/transparent_vlan_endpointclient_linux.go:204-222 | It succeeds if and only if the creation works and gives a namespace of its own; a failure leaves none if a failed creation leaves no name and the deletion works |
| `VlanNamespace.Host.CreateWithRetries` | network/transparent_vlan_endpointclient_linux.go:818-829 | If failures leave nothing behind, it succeeds if and only if one of five creations does; a failure then leaves no name |
| `VlanNamespace.Host.WaitForLink` | network/transparent_vlan_endpointclient_linux.go:319-327 | The wait succeeds if and only if the link is in the VM and one of five looks sees it |
| `VlanNamespace.Host.MoveAndConfirm` | network/transparent_vlan_endpointclient_linux.go:225-244 | It succeeds if and only if the move works and one of five looks sees the link in the namespace; the link moves if and only if the move works |
| `VlanNamespace.Host.AddAndMoveLink` | network/transparent_vlan_endpointclient_linux.go:300-338 | Success puts the link in the namespace; a failure anywhere leaves none in the VM if the deletion works |
| `VlanNamespace.Host.PopulateNamespace` | network/transparent_vlan_endpointclient_linux.go:247-342 | Success of the creating branch leaves namespace and link in place; failure at any point leaves neither a namespace nor a new link, for all clean-up calls that work |
| `VlanNamespace.Host.Attempt` | network/transparent_vlan_endpointclient_linux.go:156-171 | From every leftover but the confusing one, success of both steps means that the link is in the namespace; without faults this holds if and only if the leftover was not that one, for every leftover but a name without a namespace |
| `VlanNamespace.Host.Attempts` | network/transparent_vlan_endpointclient_linux.go:156-171 | Any number of attempts that may fail anywhere: a success ends with namespace and link in place, unless the host was confusing at the start or a lookup in the VM before the last attempt overlooked the link |
| `VlanNamespace.OverlookedLink` | network/transparent_vlan_endpointclient_linux.go:144-153 | A sequence of calls in which a link is overlooked and the next attempt, without a fault, reports success without a link |
| `VlanRules.Prerouting.InsertIptableRule` | iptables/iptables.go:174-189 | It succeeds if and only if the rule is there or the insertion takes effect and is reported; a rule that is there stays where it is, a missing one goes on top |
| `VlanRules.Prerouting.AddVnetRules` | network/transparent_vlan_endpointclient_linux.go:492-523 | If no call fails it succeeds; success installs both rules and the policy rule for mark 333 once; failure stops at one of the points in between |
| `VlanRules.RunsStayInThree` | network/transparent_vlan_endpointclient_linux.go:492-501 | Interrupted and repeated runs pass through three chains only |
| `VlanRules.RunsEndInstalled` | network/transparent_vlan_endpointclient_linux.go:492-501 | After success each rule occurs once with accept on top: packets from the vlan are never marked, all others are |
| `VlanRules.ShieldedIff` | iptables/iptables.go:174-189 | From an arbitrary chain, accept ends above mark if and only if it was missing before or already stood above a present mark rule |
| `SubnetAddresses.IncrementAddsOne` | ipam/ipv6Ipam.go:283-290 | Byte-wise increment is addition of one modulo the size of the address space |
| `SubnetAddresses.IncrementIP` | ipam/ipv6Ipam.go:283-290 | The loop over the bytes, which stops at the first byte that does not wrap, does that in place |
| `SubnetAddresses.MaskedValue` | ipam/ipv6Ipam.go:275-275 | Masking rounds an address down to a multiple of the block size |
| `SubnetAddresses.MemberByValue` | ipam/ipv6Ipam.go:275-275 | The addresses that agree with a network under its mask are those from its value up to the size of the block |
| `SubnetAddresses.ContainsIff` | ipam/ipv6Ipam.go:275-275 | The library's test is membership in the block, except for IPv4-mapped addresses in a block of more than 32 host bits around ::ffff:0:0 |
| `SubnetAddresses.BlockEnds` | ipam/ipv6Ipam.go:275-275 | The block of a network ends within the address space |
| `SubnetAddresses.LoopTest` | ipam/ipv6Ipam.go:275-277 | The loop test holds for every address to be listed and fails for the next one, also when that one has wrapped around |
| `SubnetAddresses.GetIPsFromAddresses` | ipam/ipv6Ipam.go:273-280 | The loop ends, for IPv4 with at least one prefix bit and for every IPv6 prefix, with consecutive addresses from the network address on: the whole block, or in a block around ::ffff:0:0 those before it |
| `SubnetAddresses.EnumerationIsExact` | ipam/ipv6Ipam.go:273-280 | The list contains exactly the members of the subnet, in a large block around ::ffff:0:0 only those before it, each once |
| `SubnetAddresses.EnumerationCompleteIff` | ipam/ipv6Ipam.go:273-280 | The list is the whole subnet if and only if the subnet is not an IPv6 block of more than 32 host bits that contains ::ffff:0:0 |
| `SubnetAddresses.CutShortExample` | ipam/ipv6Ipam.go:273-280 | Of ::fffe:0:0/95 half of the addresses are listed |
| `SubnetAddresses.NoPrefixNeverEnds` | ipam/ipv6Ipam.go:275-277 | For IPv4 without prefix bits every address is a member, so the loop test never fails |
| `SubnetAddresses.RetrieveKubernetesPodIPs` | ipam/ipv6Ipam.go:223-270 | There is an offer exactly if the first CIDR whose leading twelve bytes are not those of an IPv4-mapped address parses; it is the /120 of that address, 254 addresses from the third on |
| `SubnetAddresses.OfferedAddresses` | ipam/ipv6Ipam.go:246-270 | Offered are exactly the members with a host part other than 0 and 1; the generated gateway is a member and never offered |
| `SubnetAddresses.GenerateAddress` | platform/ip.go:33-43 | The address is the bitwise or of network and host ID |
| `SubnetAddresses.BitByBit` | platform/ip.go:38-40 | The bitwise operations are so for every bit |
| `SubnetAddresses.GatewayIsSecond` | platform/ip.go:33-43 | With at least one host bit the generated gateway is the network address plus one |
| `PodListing.Refresh` | ipam/ipv6Ipam.go:179-210 | The space the source builds is valid and a listing: one new IPv6 pool without interface and priority, with the generated gateway and the texts of all offered addresses and nothing else |
| `PodListing.FillPool` | ipam/ipv6Ipam.go:200-207 | The loop turns every offered address into a record |
| `PodListing.GatewayNeverGranted` | ipam/ipv6Ipam.go:246-270 | In a run whose listings of a pool are the offer for its subnet no request is ever granted the gateway |
| `LogRotation.ShiftedMovesUp` | log/logger.go:174-192 | Every backup moves up by one, the oldest is overwritten, and nothing beyond the limit moves |
| `LogRotation.Logger.ShiftFiles` | log/logger.go:174-192 | The loop with its carried file name does that |
| `LogRotation.RotationStartsSegment` | log/logger.go:154-200 | If the files show the last segments of a history, after a rotation they show those of the history with a new segment |
| `LogRotation.Logger.Rotate` | log/logger.go:154-200 | Starts a segment exactly when the active file is full and more than one file is allowed |
| `LogRotation.Logger.Logf` | log/logger.go:234-243 | One call keeps the backups gap-free and appends its line to the last segment, after a rotation when one is due |
| `LogRotation.Logger.LogAll` | log/logger.go:234-243 | So does every run of calls |
| `LogRotation.BatchOfEight` | log/logger.go:234-243 | From a call that is a multiple of eight on, up to eight lines go to one segment: a new one if and only if the open one has reached the limit and more than one file is allowed |
| `LogRotation.RunOfBatches` | log/logger.go:234-243 | A run from the start is a run of such batches |
| `LogRotation.ReadBackIsLastSegments` | log/logger.go:154-200 | Reading the backups from the oldest to the newest and then the active file gives exactly the last segments, at most as many as files allowed |
| `LogRotation.EverythingIsInSomeSegment` | log/logger.go:234-243 | The segments of a run, joined, are everything ever written, in order |
| `BackoffFetcher.IntervalIsBackoff` | refresh/fetcher.go:108-110 | The interval after k unchanged fetches is min(max, min * 2^k) |
| `BackoffFetcher.BackoffIffNoOverflow` | refresh/fetcher.go:108-110 | It is so for every k if and only if the upper bound is below 2^62 |
| `BackoffFetcher.ConsumerSeesNoRepeats` | refresh/fetcher.go:84-100 | No two neighbours among the values consumed are equal, and the last one is the cached value |
| `BackoffFetcher.CacheIsCurrent` | refresh/fetcher.go:88-93 | The cache is the latest value or one the latest is equal to, and comes from the values fetched |
| `BackoffFetcher.UnchangedIsTrailing` | refresh/fetcher.go:88-93 | The count behind the interval is that of the values that repeat the kept one, which differed from the one before it |
| `BackoffFetcher.SuccessesAreValues` | refresh/fetcher.go:84-100 | Fetches that succeed count with their values, in order |
| `BackoffFetcher.ErrorsAreIgnored` | refresh/fetcher.go:84-87 | A fetch that fails, wherever it is in the history, counts for nothing |
| `BackoffFetcher.ResetAfterEveryFetch` | refresh/fetcher.go:102-102 | The ticker is reset after every fetch, failed ones too, to the interval of that moment |
| `BackoffFetcher.DoubledWraps` | refresh/fetcher.go:109-109 | Doubling is that of signed 64-bit integers |
| `BackoffFetcher.Fetcher.constructor` | refresh/fetcher.go:30-55 | Zero bounds become 4 s and 1024 s, an upper bound below the lower is raised to it, and the consumer gets the initial result |
| `BackoffFetcher.Fetcher.Tick` | refresh/fetcher.go:83-102 | One tick keeps cache, interval, resets and consumed values equal to those defined by the history of fetches |
| `BackoffFetcher.Fetcher.Run` | refresh/fetcher.go:57-106 | So does every history, errors among them: the consumer sees the initial result and the changes |
| `RouteUpdate.RemovableKeys` | network/endpoint_linux.go:472-496 | The recorded routes collected for removal are exactly the unprotected ones, by destination |
| `RouteUpdate.Kernel.DeleteRoutes` | network/endpoint_linux.go:362-404 | On success the routes acted on are gone; in any case nothing else changed; without faults it succeeds if and only if they were all there |
| `RouteUpdate.Kernel.AddRoutes` | network/endpoint_linux.go:317-360 | On success all destinations are in the table, and what was there before is as it was; without faults it succeeds if and only if every route has its interface, and it crashes only for want of a device |
| `RouteUpdate.UpdateRoutes` | network/endpoint_linux.go:463-532 | On success the table is the specified one; on failure only doomed routes are gone and only wanted ones are new; without faults it succeeds if and only if the doomed routes are there and the wanted ones have their interfaces |
| `RouteUpdate.UpdatedDestinations` | network/endpoint_linux.go:463-532 | The destinations are the old ones minus the doomed plus the wanted, and every other route is as it was |
| `RouteUpdate.UpdateInWords` | network/endpoint_linux.go:463-532 | The update destination by destination, from the two lists: gone is what the record has, the target lacks, is neither the default nor the infra-vnet route, and whose interface is there; new is what the target has and the record has not; of several routes to one destination the last counts |
| `RouteUpdate.FullUpdate` | network/endpoint_linux.go:463-532 | With the record in the table and the interfaces present these are the old ones minus the removable ones that the target lacks, plus all of the target |
| `RouteUpdate.TargetReachedIff` | network/endpoint_linux.go:463-532 | All of the target is in the table afterwards if and only if the recorded routes it shares were there before |
| `RouteUpdate.ProtectedAndSharedSurvive` | network/endpoint_linux.go:472-517 | Default and infra-vnet routes and shared destinations survive as they were |
| `RouteUpdate.RepeatChangesNothing` | network/endpoint_linux.go:463-532 | Repeating a successful update changes nothing however the repetition ends, with the old record or with the target as the new one |

## Left out

- AddressObjects.AddressSpace.Merge: requires the invariant and a listing as the sources build it, without owners or uses; other listings are not folded in by the program.
- AddressObjects.AddressSpace.ReleaseAddress: the state after a release that frees a labelled record without its label is described by value only, since the index may then point at a dropped record.
- SubnetAddresses.GetIPsFromAddresses: for IPv4 requires a prefix of at least one bit, because with none the loop does not end.
- LogRotation.Logger.Rotate: opening the new active file and renaming existing files succeed; dates and log levels are not modelled.
- BackoffFetcher.Fetcher.Tick: timers and cancellation are not modelled, a fetch result is an input.
- NamedLocks.Reachable: each map lookup is one atomic step, so Go's memory model for the unguarded read is not covered.
- RouteUpdate.UpdateRoutes: the kernel keeps one route for each destination; gateway, priority and table of a route are carried along and not matched.
- The reboot branch of restore in ipam/manager.go, which clears uses but keeps owners, and the rollback after a failed save.
- The manager's loop over several address spaces and its JSON store; the text form of addresses, subnets and pool IDs.
- Children of an `rtAttr`, for which the repository has no caller, and an `rtAttr` inside a plain attribute; the other fixed-size netlink bodies appear as their bytes; messages of 2^32 bytes or more.
- The part of PopulateVM after the namespace (veth pairs, ARP, routes in the container); a namespace lookup is taken to fail only for an absent name, as the source takes it, and leaving a namespace to succeed.
- The iptables check with -C is taken to answer truthfully; the command lines of iptables, ebtables and ovsctl are not modelled.
- PodListing.Refresh: the query of the Kubernetes node and the flag that a source is loaded once are not modelled; the CIDRs are an input.
- NetlinkRoutes.DeserializeRoute: a last attribute without its padding is accepted; what the library does with one is not part of this model.
- HTTP, gRPC, wireserver and Kubernetes clients, telemetry, Windows networking, TLS and key vault, command lines: input and output over libraries.
