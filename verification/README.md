# AdGuard Home: client storage, DHCP, sessions and codecs

A Dafny model of the parts of AdGuard Home in which several pieces of state
have to agree, or in which bytes have to come back as what they were written
from, with proofs that they do, and exact conditions where they do not.

* **Persistent clients.** `SortedMap.dfy` is the ordered map behind the subnet
  index, `ClientIndex.dfy` the index with one map per kind of identifier,
  `UpstreamManager.dfy` the cache of closable upstream configurations and
  `ClientStorage.dfy` the storage that keeps the two in step. `Clients.dfy` and
  `NetIp.dfy` hold the values.
* **Runtime clients.** `RuntimeIndex.dfy`: information from five sources, one of
  which is reloaded at a time.
* **DHCPv4.** `IpRange.dfy`, `BitSet.dfy`, `DhcpInterface.dfy` (leases, the lease
  index and the allocator) and `DhcpHandlers.dfy` (DHCPDISCOVER, DHCPREQUEST in
  its client states, DHCPRELEASE and DHCPDECLINE). `DhcpConsequences.dfy` shows
  where the allocator falls short, and `DhcpScenarios.dfy` holds runs from an
  empty interface that lead there, for every pool.
* **Sessions.** `SessionStorage.dfy`: the map in memory, the bucket on disk, the
  codec between them and restarts.
* **Worklist, mailbox, merging.** `FileWalker.dfy`, `HostsContainer.dfy`,
  `Options4.dfy`.
* **Codecs.** `Options6.dfy` (IA_NA of DHCPv6), `RouterAdv.dfy` (ICMPv6 Router
  Advertisement), `RuleText.dfy` (the dashboard's textarea of rules).

`Slices.dfy`, `Bytes.dfy` and `Wrappers.dfy` are shared helpers.

State that the program changes in place is a class with the same fields and
methods; each method is proved against a function of the old state, and the
lemmas are about that function; what the small functions in between compute is
stated in plain fields, characters and bytes. Leases are heap objects because the faults
described below come from two map entries that hold the same lease. `Run`,
`Lifetime` and `Walk` are whole executions on those objects.

Clocks, random tokens, the answer of the address checker, the outcome of a
database or bucket write, the verdict of the upstream parser, the file system,
and what the ARP table, the DHCP server and the hosts files list are parameters.
Times are integers; addresses are a family with a number and, for IPv6, a zone.

## Where the code and its documentation differ

The model follows the code. Each point is a proved member, named in brackets.

1. An offered lease enters the index only with a DHCPREQUEST. When such a lease
   expires and the pool is full, the allocator hands it over without being able
   to remove it, so one lease sits under two hardware addresses. The comment at
   internal/dhcpsvc/interface.go:253-255 calls this impossible. A pool's worth of
   clients that ask and never request is enough (`UnrequestedOfferIsShared`,
   `OffersRunOut`).
2. If the address checker fails on a recycled lease, the lease stays on record
   for the new client while its offset is clear, and the next client gets the
   same address (`FailedCheckIsShared`, `CheckFailsOnce`).
3. With any checker and any clock, these two are the only ways in which a client
   message breaks the invariant, and each of them does: it breaks exactly if a
   new client's DHCPDISCOVER in a full pool recycles an expired lease that the
   index does not know or that the checker fails on (`Handle`, `Run`,
   `RecycleKeepsSound`). It never happens while the clients fit the pool or no
   lease runs out (`Run`).
4. An unavailable new address cannot be blocked, because it is not stored yet:
   the DHCPDISCOVER goes unanswered, and the allocation loop never makes more
   than two passes (`FinishFresh`, `AllocateLoop`).
5. Blocking a lease clears its offset but leaves it in the index. A declined
   address is free again at once, and in an otherwise full pool it is what the
   next client is offered; if its lease had been acknowledged, that client's
   every DHCPREQUEST is refused or ignored (`DeclinedIsOfferedNext`,
   `DeclinedIsNeverGiven`).
6. A DHCPACK never prolongs the lease; the host name is written before the index
   is asked, so it stays after a DHCPNAK; and a second client with the same host
   name, the empty one included, is refused (`Commit`, `HandleRequest`).
7. `find` panics if every offset is taken and the range ends at its family's
   last address (`IpRanges.Find`). Addresses that differ only in their zone have
   the same offset (`ZonesShareOffsets`).
8. If the clock gives the same time for two changes of the common upstream
   configuration, a configuration built in between stays in use
   (`UpdateCommon`, with the exact condition, and `StaleConfiguration`).
9. A session does not survive a restart as it was if its login has 65536 bytes
   or more or its expiry does not fit 32 bits of seconds (`DecodeAfterEncode`,
   `LongLoginIsLost`).
10. Printing the parsed rules is idempotent exactly for texts in which no rule
    has a lone carriage return, U+2028 or U+2029 inside; such a rule grows by a
    word each time it is saved (`NormalizedTwice`, `TerminatorGrows`).
11. After one failed refresh the ARP table is never asked again, so the ARP
    source stays as it was for good (`FailureIsFinal`, `PollARP`).

## Model

| member | source | states |
|---|---|---|
| SortedMaps.SortedMap.Set | internal/aghalg/sortedmap.go:31-40 | the key slice stays strictly ascending and stays exactly the domain of the map, which gains the one entry |
| SortedMaps.SortedMap.Del | internal/aghalg/sortedmap.go:56-68 | as for Set, with the one key gone; the ignored search result is a hit |
| SortedMaps.SearchHits | internal/aghalg/sortedmap.go:65-67 | where a binary search for a stored key stops, that key stands |
| SortedMaps.InsertAscending | internal/aghalg/sortedmap.go:34-39 | inserting at the searched place keeps the order and adds that key only |
| SortedMaps.DeleteAscending | internal/aghalg/sortedmap.go:66-67 | deleting at the searched place keeps the order and loses that key only |
| SortedMaps.SortedMap.Clear | internal/aghalg/sortedmap.go:71-78 | an empty map with an empty key slice |
| SortedMaps.SortedMap.Range | internal/aghalg/sortedmap.go:82-92 | visits a prefix of the entries in key order, each once, and stops early only after a callback that returned false |
| SortedMaps.SortedMap.First | internal/client/index.go:259-276 | a walk that a callback stops finds the first key it is looking for, and finds none only if there is none |
| SortedMaps.Run | internal/aghalg/sortedmap.go:31-78 | any sequence of operations refines a plain map, and the keys end up as the one ascending listing of its domain |
| Slices.AscendingUnique | internal/aghalg/sortedmap.go:80-92 | the iteration order is determined by the contents: two ascending listings of the same keys are equal |
| Slices.BinarySearch | internal/aghalg/sortedmap.go:34-34 | splits the slice into smaller and not smaller elements, and reports a hit exactly if the element there compares as equal |
| NetIp.SubnetOrder | internal/client/persistent.go:191-212 | the subnet comparison is a strict total order that is 0 on equal prefixes only |
| NetIp.AddrOrder | internal/client/persistent.go:203-205 | addresses are strictly ordered by family, number and zone |
| NetIp.AddrLess | internal/client/persistent.go:203-205 | IPv4 comes before IPv6; within a family the number decides, then the zone, in dictionary order |
| NetIp.StringLess | internal/client/persistent.go:203-205 | the comparison of zones is dictionary order: negative exactly if at some place the first ends or has the smaller character, and the two agree before it |
| NetIp.ContainsBlock | internal/client/index.go:262-262 | a prefix holds exactly the addresses of its family, without a zone, that lie in one aligned block of 2^(length - bits) addresses with its own |
| NetIp.FullPrefix | internal/client/index.go:262-262 | a prefix of full length holds its own address only |
| NetIp.EmptyPrefix | internal/client/index.go:262-262 | a prefix of no bits holds every address of its family that has no zone |
| NetIp.NestedPrefixes | internal/client/index.go:259-269 | of two prefixes that share an address the longer lies within the shorter, so the longest match is the most specific one |
| NetIp.ContainsExamples | internal/client/index.go:262-262 | 10.1.2.3 is in 10.0.0.0/8, and 192.5.5.5 is not in 192.168.1.0/24 |
| Clients.Validate | internal/client/persistent.go:136-167 | accepts exactly a client with a name, an identifier of some kind, a UID, upstreams that parse and allowed tags only; the error names a check that fails |
| Clients.SharesMeans | internal/client/index.go:107-137 | two clients share something exactly if they have the same name or both list a ClientID, address, subnet or hardware address |
| ClientIndex.ExactAdd | internal/client/index.go:67-92 | one identifier map stays the exact inverse of the stored clients' lists when a client without a clash is added |
| ClientIndex.ExactRemove | internal/client/index.go:331-352 | the same when a stored client is removed, which needs that no other client lists its keys |
| ClientIndex.ConflictKinds | internal/client/index.go:107-137 | two clients share something exactly if some one kind of identifier clashes |
| ClientIndex.Index.Put | internal/client/index.go:67-92 | exactly the keys that the client lists are written in each of the five maps, whatever they held |
| ClientIndex.Index.Drop | internal/client/index.go:331-352 | exactly the keys that the client lists are deleted from each of the five maps |
| ClientIndex.Index.Add | internal/client/index.go:67-92 | all five maps stay exact and no two stored clients share an identifier |
| ClientIndex.Index.Remove | internal/client/index.go:331-352 | all five maps stay exact after the removal of a stored client |
| ClientIndex.Index.Clashes | internal/client/index.go:107-205 | reports an error exactly if some other stored client shares an identifier; the client named does share it, and no kind that is looked at earlier clashes |
| ClientIndex.ClashIn | internal/client/index.go:112-119 | a loop over one list of identifiers finds another owner exactly if there is one |
| ClientIndex.Index.ClashesSubnet | internal/client/index.go:169-191 | the same for subnets, found by walking the sorted map |
| ClientIndex.Index.FindByName | internal/client/index.go:243-250 | returns the stored client with that name, and none only if no client has it |
| ClientIndex.Index.FindByClientID | internal/client/index.go:233-240 | the same for a ClientID |
| ClientIndex.Index.FindByCIDR | internal/client/index.go:281-296 | the same for an exact subnet |
| ClientIndex.Index.FindByMAC | internal/client/index.go:299-307 | the same for a hardware address |
| ClientIndex.Index.FindByIP | internal/client/index.go:253-276 | an owner of the exact address first, then, without the zone, the owner of a containing prefix than which none is longer, ties by the lower address; none only if nothing stored matches |
| ClientIndex.FirstIsLongest | internal/client/index.go:259-269 | in the subnet order the first prefix that contains an address is its longest match |
| ClientIndex.MatchIsLongest | internal/client/index.go:259-273 | the first match in the map is the longest match among all the stored clients' subnets |
| ClientIndex.OwnersListed | internal/client/index.go:253-273 | exact maps answer the ownership questions about the stored clients, both ways |
| ClientStorage.Storage.Add | internal/client/storage.go:410-446 | succeeds exactly if the client is valid, its UID is new and nothing is shared, and then this client is stored under its UID and no other changes; index and manager stay in step; a rejected call changes neither |
| ClientStorage.Storage.Update | internal/client/storage.go:632-666 | succeeds exactly if the client is valid, the name is stored and nobody else shares anything; what is then stored, under the UID that had the name, is the caller's client with that UID; the UID is written into the caller's client even if a clash is found; a rejected call changes nothing stored |
| ClientStorage.Storage.RemoveByName | internal/client/storage.go:611-628 | removes exactly the owner of the name from both stores, or changes nothing |
| ClientStorage.Storage.Find | internal/client/storage.go:529-560 | ClientID, address, subnet and hardware address are tried in this order: a hit exactly if one of them has an owner, and the owner is that of the first that has |
| ClientStorage.Storage.FindByIP | internal/client/storage.go:564-576 | exact address, longest prefix, then the hardware address of the DHCP lease |
| ClientStorage.Storage.CustomUpstreamConfig | internal/client/storage.go:730-747 | from a fresh cache: nothing exactly if all the matched client's upstreams are empty or comments, else an open handle with the client's cache switch and cache size, its other upstreams in order and the latest common configuration; from any cache this exactly if the client's entry is fresh |
| ClientStorage.BuiltForKeeps | internal/client/upstreammanager.go:209-241 | what should be handed out for a client, field by field: its cache settings, its upstreams that are neither empty nor comments, and the common configuration |
| ClientStorage.Storage.UpdateCommonUpstreamConfig | internal/client/storage.go:751-756 | for any clock reading, the cache is fresh afterwards exactly if no handle was built at that very reading for another configuration; so it is when the clock has advanced |
| ClientStorage.Run | internal/client/storage.go:410-446 | over any sequence of calls and any clock the indexes stay exact, the manager's UIDs are the index's, handles are conserved and the clients are those of the specification; if the clock advances, every lookup gives what would be built at that moment for the client that the specification matches |
| ClientStorage.RunOne | internal/client/storage.go:730-756 | each call does to the stored clients what the specification says, and a lookup in a fresh cache is right |
| ClientStorage.RunKeepsWellFormed | internal/client/storage.go:410-446 | in no reachable state do two clients share a name, ClientID, address, subnet or hardware address |
| ClientStorage.StepKeepsWellFormed | internal/client/storage.go:630-666 | each call keeps the clients free of shared identifiers |
| ClientStorage.WellFormedReplace | internal/client/storage.go:654-661 | checking for clashes before the removal is enough for the addition after it |
| ClientStorage.RemoveUndoesAdd | internal/client/storage.go:611-628 | removing an added client by its name gives back the clients there were |
| ClientStorage.UpdateToItself | internal/client/storage.go:632-666 | a stored client is not in its own way: updating it to itself is no clash and changes nothing |
| ClientStorage.Lifetime | internal/client/storage.go:216-220 | from start to shutdown, whatever the calls, every handle ever built has been closed, none of them twice |
| ClientStorage.StaleConfiguration | internal/client/upstreammanager.go:95-98 | two changes of the common configuration at one clock reading: the client goes on getting the handle built with the first |
| UpstreamManagers.Manager.UpdateCommon | internal/client/upstreammanager.go:95-98 | for any clock reading, the cache is fresh afterwards exactly if no handle was built at that very reading for another configuration; with a clock that stands still, exactly if the configuration is the same or no up-to-date entry has a handle |
| UpstreamManagers.Manager.UpdateCustom | internal/client/upstreammanager.go:104-119 | records exactly the client's upstreams, cache size and cache switch and marks the entry as changed; keeps its handle, or starts without one; closes and builds nothing, and leaves no entry that would be returned stale |
| UpstreamManagers.Manager.CustomUpstreamConfig | internal/client/upstreammanager.go:122-156 | never returns a closed handle; the result is what would be built now exactly if the entry was fresh; an entry that is unmarked and built at the latest common configuration is a hit, any other is built anew, and then only the replaced handle is closed |
| UpstreamManagers.Manager.Remove | internal/client/upstreammanager.go:176-190 | forgets the entry and closes its handle and no other |
| UpstreamManagers.Manager.Shutdown | internal/client/upstreammanager.go:193-204 | closes each handle that is still open once |
| UpstreamManagers.Manager.OpenMeansHeld | internal/client/upstreammanager.go:138-153 | the handles built and not closed are exactly those in the entries, and no two entries hold the same one |
| UpstreamManagers.NewProxyConf | internal/client/upstreammanager.go:209-241 | no handle exactly if every upstream is empty or a comment; else a new open handle made from the others in their order, the common configuration and the cache settings |
| UpstreamManagers.BuildKeeps | internal/client/upstreammanager.go:209-241 | the same of the function that specifies it |
| UpstreamManagers.FilterOutPicks | internal/client/upstreammanager.go:214-214 | filtering keeps exactly the upstreams that are neither empty nor comments, in the order they had |
| RuntimeClients.ReloadReplacesSource | internal/client/storage.go:266-273 | a reload writes the one field of each address to its last record, or to none, and leaves the other four as they were |
| RuntimeClients.LastIs | internal/client/client.go:149-163 | the record with the greatest index counts, and gives its host as the one name, or no name if the host is empty |
| RuntimeClients.ReloadRemovesForgotten | internal/client/runtimeindex.go:63-72 | no empty client is left; those removed are the addresses without a record for which no other source, WHOIS included, has anything |
| RuntimeClients.FilledLook | internal/client/storage.go:269-271 | of several records for an address the last one counts, and nothing else changes |
| RuntimeClients.RuntimeIndex.Reload | internal/client/storage.go:266-273 | the reload on the heap is that function, and the returned count is the number of removed clients |
| RuntimeClients.RuntimeIndex.ClearSource | internal/client/runtimeindex.go:55-59 | every client loses that source's information and nothing else |
| RuntimeClients.RuntimeIndex.RemoveEmpty | internal/client/runtimeindex.go:63-72 | exactly the empty clients are deleted, and the count is exact |
| RuntimeClients.RuntimeIndex.SetInfo | internal/client/runtimeindex.go:42-52 | changes the one source of the one address, for which a client is made if need be |
| RuntimeClients.RuntimeIndex.AddFromSystemARP | internal/client/storage.go:248-281 | an empty list changes nothing; a failed refresh changes no client and replaces the ARP table by an empty one; otherwise exactly the ARP source is replaced |
| RuntimeClients.RuntimeIndex.PollARP | internal/client/storage.go:248-281 | over any number of ARP reloads only those before the first failure count, and the table is lost exactly if one failed |
| RuntimeClients.FailureIsFinal | internal/client/storage.go:252-257 | whatever comes after a failed refresh makes no difference |
| RuntimeClients.RuntimeIndex.AddFromHostsFile | internal/client/storage.go:308-334 | exactly the hosts file source is replaced, also by an empty file |
| RuntimeClients.RuntimeIndex.UpdateDHCP | internal/client/storage.go:359-383 | exactly the DHCP source is replaced, unless it is switched off |
| RuntimeClients.RuntimeIndex.UpdateAddress | internal/client/storage.go:340-356 | sets the name and the WHOIS information, the latter only if no persistent client has the address |
| RuntimeClients.RuntimeIndex.SetWHOIS | internal/client/storage.go:398-404 | sets the WHOIS information of one address and nothing else |
| RuntimeClients.RuntimeIndex.ClientRuntime | internal/client/storage.go:687-712 | takes in the DHCP server's name unless the hosts file has the address, and returns the client as it is then |
| RuntimeClients.Runtime.GetInfo | internal/client/client.go:124-146 | the source returned has information and none that has any comes later in the documented order of priority; none is returned exactly for an empty client; the host is the source's first name, if it has one |
| IpRanges.OffsetIsDistance | internal/dhcpsvc/iprange.go:82-93 | the wrapping 64-bit subtraction is the true 128-bit distance for every address of an accepted range, and at most 2^32-1 |
| IpRanges.RangeAccepted | internal/dhcpsvc/iprange.go:30-53 | a range is accepted exactly if its ends are of one family, ascending and at most 2^32 - 1 apart; the zero address counts as an IPv6 address below all others |
| IpRanges.OffsetInjective | internal/dhcpsvc/iprange.go:82-93 | in one family and one zone, addresses with the same offset are the same |
| IpRanges.ZonesShareOffsets | internal/dhcpsvc/iprange.go:82-93 | two addresses that differ in their zone only have the same offset |
| IpRanges.AtOffset | internal/dhcpsvc/iprange.go:82-93 | the address at a distance has that distance as its offset |
| IpRanges.OffsetAt | internal/dhcpsvc/iprange.go:82-93 | the address at the offset of an address is that address |
| IpRanges.Find | internal/dhcpsvc/iprange.go:70-78 | the lowest address that the predicate accepts, with or without zones; panics exactly if the predicate does on the way, or on the zero address after rejecting a range that ends at its family's last address; terminates |
| BitSets.BitSet.Set | internal/dhcpsvc/bitset.go:33-49 | the sparse words are a set of naturals in which exactly the one number changes |
| BitSets.WriteBit | internal/dhcpsvc/bitset.go:41-46 | setting or clearing a bit of a word changes that bit only |
| BitSets.WrittenWord | internal/dhcpsvc/bitset.go:18-49 | a written word changes the membership of one number, also where there was no word |
| DhcpInterface.Lease.UpdateExpiry | internal/dhcpsvc/lease.go:71-82 | prolongs a dynamic lease that has run out and nothing else |
| DhcpInterface.NetInterface.NextIP | internal/dhcpsvc/interface.go:157-169 | the lowest pool address whose offset is clear, none exactly if all are set; the panic is out of reach |
| DhcpInterface.NetInterface.FindExpired | internal/dhcpsvc/interface.go:173-181 | an expired dynamic lease, and none exactly if there is none |
| DhcpInterface.NetInterface.RemoveLease | internal/dhcpsvc/interface.go:114-127 | deletes the entry under the lease's own hardware address and clears exactly its offset |
| DhcpInterface.NetInterface.BlockLease | internal/dhcpsvc/interface.go:132-153 | removes and marks a stored lease, whose offset is clear afterwards; fails exactly if the lease is not stored or cannot be written |
| DhcpInterface.NetInterface.IndexRemove | internal/dhcpsvc/leaseindex.go:113-142 | removes the lease from index and interface exactly if the index has its address and its name and the interface has its key |
| DhcpInterface.NetInterface.IndexUpdate | internal/dhcpsvc/leaseindex.go:147-183 | refused exactly if another hardware address holds the address or the name, the interface has no such lease, or the write fails; the interface's entry is replaced also when the write fails; otherwise both maps point to the lease and the previous address and name are gone |
| DhcpInterface.LowerAgrees | internal/dhcpsvc/leaseindex.go:82-82 | two host names are one name to the index exactly if they agree letter by letter up to the case of a to z |
| DhcpInterface.NetInterface.ReserveLease | internal/dhcpsvc/interface.go:229-267 | a new lease at the lowest free address; in a full pool an expired lease, on record as handed over and not checked yet; an error exactly if there is neither |
| DhcpInterface.NetInterface.RecycleExpired | internal/dhcpsvc/interface.go:246-266 | the expired lease is the new client's, and still under its old key exactly if the index does not know it |
| DhcpInterface.NetInterface.TakeOrBlock | internal/dhcpsvc/interface.go:202-223 | an available address is stored and its offset set; a failed check changes nothing; blocking fails for a lease that is not stored |
| DhcpInterface.NetInterface.Pass | internal/dhcpsvc/interface.go:196-223 | one pass comes to an allocation: the lowest free address is taken if available and else given up, or an expired lease changes hands; nobody else's lease changes |
| DhcpInterface.NetInterface.FinishFresh | internal/dhcpsvc/interface.go:202-223 | a new lease is stored or given up, and never asks for another pass |
| DhcpInterface.NetInterface.FinishRecycled | internal/dhcpsvc/interface.go:202-223 | what each answer of the checker leaves on record for a recycled lease |
| DhcpInterface.NetInterface.AllocateLoop | internal/dhcpsvc/interface.go:188-224 | ends after at most two passes and comes to an allocation, for every state, checker and clock; an unavailable recycled address is given exactly if it is available on the second attempt |
| DhcpInterface.FreshKeepsSound | internal/dhcpsvc/interface.go:208-214 | a new lease at a clear offset keeps the invariant: leases under their own hardware address, in the pool, distinct, and the marked offsets exactly theirs |
| DhcpInterface.RecycleKeepsSound | internal/dhcpsvc/interface.go:246-266 | handing over an expired lease keeps this exactly if the index knew the lease and the checker gave an answer |
| DhcpInterface.RetryKeepsSound | internal/dhcpsvc/interface.go:219-222 | the same when the recycled address was unavailable at first and is then allocated anew |
| DhcpInterface.AllocatedSound | internal/dhcpsvc/interface.go:188-267 | an allocation keeps the invariant exactly if it recycles nothing, or a lease that the index knew and that could be checked |
| DhcpInterface.AllocatedOthers | internal/dhcpsvc/interface.go:188-267 | an allocation changes no record but the client's and the recycled one |
| DhcpInterface.AllocatedFresh | internal/dhcpsvc/interface.go:157-214 | a new client gets the lowest address of the pool that nobody has on record, if the checker finds it available; else nothing changes |
| DhcpInterface.LowestUnrecorded | internal/dhcpsvc/interface.go:157-169 | the address at the lowest clear offset is on record for nobody, and every lower one of the pool is for someone |
| DhcpInterface.AllocatedRecycled | internal/dhcpsvc/interface.go:202-266 | with every address on record the client gets that of the recycled lease or none; the records afterwards, for each answer of the checker and for a lease that the index knew or not |
| DhcpInterface.SecondAttempt | internal/dhcpsvc/interface.go:196-223 | the second pass is for the address that the first one gave up |
| DhcpInterface.Capacity | internal/dhcpsvc/interface.go:157-169 | no offset leaks: there are at most as many leases as addresses, and no free one exactly if there are as many |
| DhcpInterface.FullIsAllOnRecord | internal/dhcpsvc/interface.go:157-169 | no address is free exactly if every address of the pool is on record |
| DhcpInterface.PoolOffsets | internal/dhcpsvc/interface.go:92-93 | pool addresses and their offsets correspond one to one |
| DhcpInterface.ReleaseKeepsSound | internal/dhcpsvc/interface.go:114-127 | clearing the offset of a removed lease frees nobody else's |
| DhcpHandlers.Interface4.HandleDiscover | internal/dhcpsvc/handler4.go:88-125 | a known client gets its own address; a new one what an allocation comes to; the invariant survives exactly unless an unknown or unchecked lease is recycled |
| DhcpHandlers.Interface4.HandleRequest | internal/dhcpsvc/handler4.go:133-320 | from the message's fields alone: to which server it is, whether it contradicts itself or comes from another network, and which of the requested address and ciaddr has to be the lease's; the answer in every case; nothing changes unless the lease has that address, and then the name is written and the lease acknowledged and indexed exactly if the write succeeds and the index has neither the address nor the name for another hardware address |
| DhcpHandlers.SpecifiedMeans | internal/dhcpsvc/handler4.go:143-151 | only 0.0.0.0, :: and no address at all count as unspecified |
| DhcpHandlers.Interface4.Settle | internal/dhcpsvc/handler4.go:201-233 | what the three request handlers share: the wrong address is refused, a client without a lease gets the handler's own answer |
| DhcpHandlers.Interface4.Commit | internal/dhcpsvc/v4.go:355-374 | the name is stored even if the request is refused, and the expiry never changes |
| DhcpHandlers.Interface4.HandleDecline | internal/dhcpsvc/handler4.go:328-370 | only the client's own lease with that very address is given up, together with its offset, and marked as blocked |
| DhcpHandlers.Interface4.HandleRelease | internal/dhcpsvc/handler4.go:376-412 | only a lease with that very address that the index knows is given up, with its offset and both its index entries |
| DhcpHandlers.Interface4.Handle | internal/dhcpsvc/handler4.go:63-84 | for every message, checker and clock: what is given out is on record, nobody else's lease changes, and the invariant survives exactly unless a new client's DHCPDISCOVER in a full pool recycles an expired lease that the index does not know or the checker fails on; if no expired lease is such it survives, if each is it breaks |
| DhcpHandlers.Interface4.Run | internal/dhcpsvc/handler4.go:63-412 | safety over whole runs: every reply gives out the client's recorded address, nobody else's lease changes and no two clients share an address, up to the first message that recycles an unsafe lease, which alone breaks the invariant; there is none if the clients fit the pool or no lease runs out |
| DhcpHandlers.Interface4.RunOne | internal/dhcpsvc/handler4.go:63-84 | a message is safe if it recycles nothing or no lease has run out, and then leaves no two clients with one address |
| DhcpHandlers.Interface4.SoundSnap | internal/dhcpsvc/interface.go:63-64 | under the invariant no two hardware addresses have the same address on record, and the pool is full exactly if there are as many leases as addresses |
| DhcpHandlers.Interface4.Fitting | internal/dhcpsvc/interface.go:229-244 | while the clients fit the pool, no message recycles a lease |
| DhcpHandlers.NoneRecycled | internal/dhcpsvc/interface.go:173-181 | a message that finds room, or no lease run out, breaks nothing |
| DhcpHandlers.Extend | internal/dhcpsvc/handler4.go:63-84 | the history of a run grows by a message and is broken exactly if that message recycles an unsafe lease |
| DhcpConsequences.UnrequestedOfferIsShared | internal/dhcpsvc/interface.go:251-264 | in a full pool of expired offers one DHCPDISCOVER puts one address on record for two clients |
| DhcpConsequences.FailedCheckIsShared | internal/dhcpsvc/interface.go:203-206 | one failed check in a full pool of expired leases does so with the next client |
| DhcpConsequences.FailedCheck | internal/dhcpsvc/interface.go:203-206 | after the failed check the recycled address is on record while its offset is the only clear one |
| DhcpConsequences.DeclinedIsOfferedNext | internal/dhcpsvc/interface.go:132-137 | an address declined as in use is what the next client of a full pool is offered |
| DhcpConsequences.DeclineFrees | internal/dhcpsvc/interface.go:132-150 | declining in a full pool leaves exactly that address free, and the blocked lease with nobody |
| DhcpScenarios.OffersRunOut | internal/dhcpsvc/interface.go:251-264 | for every pool: as many clients as addresses ask and request nothing, time passes, and the next client shares an address |
| DhcpScenarios.CheckFailsOnce | internal/dhcpsvc/interface.go:203-206 | for every pool: all leases acknowledged and run out, one failed check, and the next two clients share an address |
| DhcpScenarios.DeclinedIsNeverGiven | internal/dhcpsvc/leaseindex.go:155-158 | for every pool: the next client is offered the declined address, and none of its requests is ever acknowledged |
| DhcpScenarios.NeverAcknowledged | internal/dhcpsvc/leaseindex.go:155-158 | requests for an address that the index has under another hardware address are never acknowledged, however many there are |
| DhcpScenarios.Fill | internal/dhcpsvc/handler4.go:88-125 | new clients that ask while there is room each get a lease, and as many as there are addresses fill the pool |
| DhcpScenarios.CommitAll | internal/dhcpsvc/handler4.go:186-234 | clients that request what they were offered under different names are all acknowledged, and the index has exactly their leases |
| SessionStorage.DecodeAfterEncode | internal/aghuser/sessionstorage.go:282-319 | decoding gives the session back to the second exactly if login and expiry fit their fields; a longer login is unreadable |
| SessionStorage.EncodeAfterDecode | internal/aghuser/sessionstorage.go:282-319 | whatever decodes encodes to the bytes it came from |
| SessionStorage.BboltEncode | internal/aghuser/sessionstorage.go:306-319 | byte by byte, most significant first: four bytes of expiry in seconds, two of the login's length, then the login, and nothing else |
| SessionStorage.DecodeReads | internal/aghuser/sessionstorage.go:282-303 | a value decodes exactly if its length field, read from its two bytes, tells the length of the rest; expiry and login stand at their places |
| SessionStorage.LoadedReads | internal/aghuser/sessionstorage.go:218-266 | a token is loaded exactly if its value decodes, has not expired and names a known user; the session has the fields that the bytes say, and that user's ID |
| Bytes.BE32Digits | internal/aghuser/sessionstorage.go:314-314 | the four bytes read from the left are the number's digits to the base 256 |
| Bytes.BE32Order | internal/aghuser/sessionstorage.go:314-314 | where the bytes of two numbers first differ, the larger number has the larger byte |
| Bytes.BE16Digits | internal/aghuser/sessionstorage.go:315-315 | the same as the first of these for two bytes |
| SessionStorage.LoadedIsRestarted | internal/aghuser/sessionstorage.go:149-266 | reopening yields exactly the sessions not expired at whole seconds whose user is known |
| SessionStorage.LongLoginIsLost | internal/aghuser/sessionstorage.go:292-295 | a session with a login of 65536 bytes or more is not loaded again |
| SessionStorage.LoadedAgrees | internal/aghuser/sessionstorage.go:194-266 | what is loaded from any bucket agrees with the part of it that is kept |
| SessionStorage.Storage.LoadSessions | internal/aghuser/sessionstorage.go:149-192 | loads the live sessions and erases the rest from disk; fails, with the disk as it was, exactly if something has to be erased and the transaction fails |
| SessionStorage.Storage.ProcessSessions | internal/aghuser/sessionstorage.go:196-266 | in whatever order, exactly the live entries are loaded and exactly the others listed for deletion |
| SessionStorage.Storage.New | internal/aghuser/sessionstorage.go:325-344 | the session is in memory and on disk, or after a failed transaction in neither |
| SessionStorage.Storage.Store | internal/aghuser/sessionstorage.go:347-377 | writes the one entry or nothing |
| SessionStorage.Storage.FindByToken | internal/aghuser/sessionstorage.go:380-400 | an expired session is deleted from both places or, if that fails, from neither and an error is returned |
| SessionStorage.Storage.DeleteByToken | internal/aghuser/sessionstorage.go:404-425 | memory changes only if the disk did |
| SessionStorage.Storage.Remove | internal/aghuser/sessionstorage.go:428-460 | deletes the one entry, or fails without a bucket or on a failed transaction with nothing changed |
| SessionStorage.Run | internal/aghuser/sessionstorage.go:325-460 | memory and disk agree after every sequence of calls, failed transactions and restarts; if everything fits its stored form the sessions are those of a specification without a disk |
| FileWalker.Walk | internal/aghos/filewalker.go:87-125 | terminates; visits each path once, in breadth-first order, only paths reachable from the initial patterns, and all of them if it finishes; goes on after a missing file, a directory and a file that the callback lets it; stops exactly at the callback's signal and fails exactly on a malformed pattern, a file that cannot be opened or read, or the callback's error |
| FileWalker.HandlePatterns | internal/aghos/filewalker.go:57-83 | the first occurrences of the matches not seen before; fails exactly if a pattern is malformed |
| FileWalker.NovelElements | internal/aghos/filewalker.go:72-79 | these are distinct and are exactly the matches not seen before |
| FileWalker.NovelOrder | internal/aghos/filewalker.go:57-83 | they are first occurrences, in the order of the listing |
| FileWalker.ExpandConcat | internal/aghos/filewalker.go:62-79 | the matches are listed pattern by pattern |
| FileWalker.CheckFileTells | internal/aghos/filewalker.go:29-54 | what opening a path leads to tells exactly one of going on, stopping and failing; a directory or a missing file names no patterns |
| FileWalker.BreadthFirst | internal/aghos/filewalker.go:102-122 | files come up in the order of their distance from the initial patterns, whatever has been visited so far |
| FileWalker.TraceStep | internal/aghos/filewalker.go:115-121 | visiting a file adds what only it brings up and forgets nothing |
| FileWalker.CompleteTrace | internal/aghos/filewalker.go:102-124 | when nothing is left to visit, everything reachable has come up |
| FileWalker.TraceReachable | internal/aghos/filewalker.go:102-124 | whatever comes up is reachable |
| HostsContainer.StepKeepsInv | internal/aghnet/hostscontainer.go:213-257 | each atomic step of producer or consumer keeps the mailbox invariant |
| HostsContainer.ConsumedInOrder | internal/aghnet/hostscontainer.go:213-257 | under every interleaving the consumed updates are a subsequence of the published ones |
| HostsContainer.PublishedAreRefreshes | internal/aghnet/hostscontainer.go:233-257 | under every interleaving the current hosts are those of the latest refresh, and what was published are the hosts of the refreshes that changed them, in order |
| HostsContainer.RefreshSends | internal/aghnet/hostscontainer.go:233-257 | a refresh with other hosts becomes current, is published and goes to the select; one with the same hosts changes nothing |
| HostsContainer.LatestWins | internal/aghnet/hostscontainer.go:250-254 | after each refresh the current hosts are in the buffer or were consumed last |
| HostsContainer.ProducerNeverStuck | internal/aghnet/hostscontainer.go:216-227 | exactly one branch of the select is ready, so the default branch is out of reach, and the inner send never blocks |
| HostsContainer.RefreshArrives | internal/aghnet/hostscontainer.go:213-257 | in any reachable state an idle producer can refresh, and the steps that take the update to the consumer are enabled one after another, with an older update in the buffer or without |
| Options4.Options | internal/dhcpsvc/options4.go:238-260 | two strictly ascending lists with disjoint codes: explicit has each configured code with its last value, implicit the defaults without these codes |
| Options4.LastConfigured | internal/dhcpsvc/options4.go:242-255 | of several values configured for a code the one with the greatest index counts |
| Options4.ConfiguredCodes | internal/dhcpsvc/options4.go:242-255 | exactly the codes of the configuration have a value |
| Options4.AppendRequested | internal/dhcpsvc/options4.go:271-311 | the options there were and the requested defaults in the order of the request, without the removed codes, then the configured values |
| Options4.ResponseContents | internal/dhcpsvc/options4.go:271-311 | no removed code survives, every configured value is there, so is every requested default left alone, and nothing else is added |
| Options4.ApplyConfigured | internal/dhcpsvc/options4.go:296-308 | deleting code by code while values are appended is one deletion of all removed codes followed by the values |
| Options4.DeletionStep | internal/dhcpsvc/options4.go:303-307 | a deletion leaves the values appended before it |
| Options4.DefaultsElements | internal/dhcpsvc/options4.go:279-291 | the loop over the request picks exactly the defaults whose codes it lists |
| Options4.DefaultsOrder | internal/dhcpsvc/options4.go:279-291 | they come in the order of the request, as often as it lists them |
| Options4.KeepOrder | internal/dhcpsvc/options4.go:303-307 | what a deletion keeps keeps its order |
| Options4.ValuesOrder | internal/dhcpsvc/options4.go:296-301 | the configured values come in the order of the configuration |
| Options6.Encode | internal/dhcpsvc/options6.go:105-120 | the appended bytes are the header and each address as a nested option |
| Options6.EncodedHeader | internal/dhcpsvc/options6.go:111-113 | IAID, T1 and T2 stand in the first twelve bytes, most significant first, and each address takes 28 bytes more |
| Options6.EncodedAddrAt | internal/dhcpsvc/options6.go:115-117 | the addresses follow in their order, each at its place |
| Options6.EncodedAddrBytes | internal/dhcpsvc/options6.go:188-201 | a nested address is 0 5 0 24, its 16 bytes and the two lifetimes, most significant byte first |
| Options6.UnmarshalBinary | internal/dhcpsvc/options6.go:63-99 | the loop terminates and decodes what its recursive reading says, with the index of the nested option that is cut short |
| Options6.FirstError | internal/dhcpsvc/options6.go:77-96 | the error counts the nested options before the first that runs past the end or is an address of less than 24 bytes |
| Options6.DecodeRest | internal/dhcpsvc/options6.go:76-96 | what follows complete nested options is decoded as if they were not there |
| Options6.DecodedAddrReads | internal/dhcpsvc/options6.go:167-185 | an address decodes exactly from 24 bytes or more, with both lifetimes at their places, most significant byte first |
| Options6.DecodeAfterEncode | internal/dhcpsvc/options6.go:63-120 | decoding undoes encoding for any number of addresses, also with up to three stray bytes at the end |
| Options6.InterleavedOptionsIgnored | internal/dhcpsvc/options6.go:76-96 | unknown options interleaved anywhere change nothing, and the addresses keep their order |
| Options6.DecodeTlvs | internal/dhcpsvc/options6.go:76-96 | decoding succeeds exactly if every nested address is complete, and finds just the addresses |
| Options6.DecodesExactly | internal/dhcpsvc/options6.go:63-99 | arbitrary bytes decode exactly if they are twelve bytes, a sequence of nested options with complete addresses and less than four bytes more; to the addresses of that sequence, and to the three numbers in the first twelve bytes, most significant first |
| Options6.DecodedReadsAs | internal/dhcpsvc/options6.go:76-96 | whatever decodes is such a sequence |
| Options6.DecodeAfterEncodeAddr | internal/dhcpsvc/options6.go:167-201 | a nested address decodes to itself and is written as one nested option |
| RouterAdv.Create | internal/dhcpd/routeradv.go:125-225 | for exactly the hardware addresses of 6, 8 or 20 bytes, every write is in bounds, and the buffer is that packet to its last byte |
| RouterAdv.PacketReads | internal/dhcpd/routeradv.go:125-225 | a reader that steps by the length octets gets back both flags, prefix length, first 64 prefix bits, MTU, link-layer address and DNS server |
| RouterAdv.PacketHead | internal/dhcpd/routeradv.go:149-202 | header, prefix and MTU byte by byte: type, hop limit 64, flags, lifetime 1800, option headers, prefix flags and lifetimes of 3600, and each parameter at its place, the MTU most significant byte first |
| RouterAdv.PacketTail | internal/dhcpd/routeradv.go:205-222 | the two last options byte by byte, behind however many units the hardware address takes: the address padded with zeros, the lifetime of 3600, and the DNS server cut or padded to 16 bytes |
| RouterAdv.PacketOptions | internal/dhcpd/routeradv.go:175-222 | the four options tile the packet after its header to the last byte |
| RouterAdv.WriteLink | internal/dhcpd/routeradv.go:136-139 | the padded link-layer option fills whole units of 8 bytes |
| RouterAdv.WriteDns | internal/dhcpd/routeradv.go:213-222 | a DNS server address of any length fills exactly the 16 bytes left, cut or padded with zeros |
| RuleText.ParseAfterPrint | dashboard/src/api.ts:230-253 | parsing undoes printing for all lists of rules that are trimmed, not empty and free of line terminators |
| RuleText.NormalizedTwice | dashboard/src/api.ts:230-253 | printing after parsing is idempotent on a text exactly if none of its rules has a line terminator inside |
| RuleText.TerminatorGrows | dashboard/src/api.ts:236-248 | a rule with one gains a leading word each time it is parsed and printed |
| RuleText.LoneCarriageReturn | dashboard/src/api.ts:230-236 | such a text: two letters with a carriage return between them |
| RuleText.ParsePrintedRow | dashboard/src/api.ts:235-252 | a printed row parses to itself unless its rule has a line terminator inside |
| RuleText.LinesOfJoin | dashboard/src/api.ts:232-252 | splitting undoes joining |
| RuleText.ParseSplit | dashboard/src/api.ts:230-235 | a text is parsed line by line; a line of spaces only makes no row, and any other the row of what trimming leaves |
| RuleText.LinesSplit | dashboard/src/api.ts:232-232 | lines end at a line feed, or at a carriage return and a line feed |
| RuleText.TrimCuts | dashboard/src/api.ts:233-233 | trimming cuts the spaces off both ends and nothing else |
| RuleText.SpaceCodes | dashboard/src/api.ts:232-236 | the spaces and line terminators by their code points |
| RuleText.ParseLineFallback | dashboard/src/api.ts:244-247 | without a keyword, or with one that no space follows, the whole line is the rule, an allowing one exactly if it starts with two at signs |
| RuleText.ParseLineKeyword | dashboard/src/api.ts:236-242 | after a keyword in any case and any run of spaces the rest is the rule, unless it has a line terminator inside |
| RuleText.KeywordSpelled | dashboard/src/api.ts:236-236 | the keywords are the five letters of allow and block, each in lower or upper case |
| RuleText.ParseLinePlain | dashboard/src/api.ts:233-248 | whatever is parsed is trimmed, not empty and without a line feed |

## Left out

- ClientStorage.Storage.Add: of `validate`, the verdict of the upstream parser is a parameter and the sorting of the tags is not modelled.
- UpstreamManagers.Manager.CustomUpstreamConfig: entries are values in a map instead of objects behind pointers; errors of closing, which are only logged, and the clearing of caches are not modelled.
- DhcpInterface.NetInterface.NextIP: asks for a zoneless pool that does not end at its family's last address; `IpRanges.Find` says what happens if it does.
- IpRanges.Find: asks for a start other than the zero address and, if the range ends at its family's last address, for a predicate that does not reject the zero address; such a predicate would keep the walk going through 2^128 invalid addresses.
- DhcpHandlers.Interface4.Run: ends at the first message that recycles an unsafe lease, and says nothing about messages after it.
- DhcpHandlers.Interface4.Handle: one clock reading and one outcome of the database write per message; one interface, although the index is shared between several.
- SessionStorage.Storage.New: writing the disk and then the map is one step.
- SessionStorage.Run: a restart whose commit fails, which ends the program, is not part of a sequence of calls.
- FileWalker.Walk: the file system does not change during the walk; errors of closing a file are not modelled.
- RouterAdv.Create: asks for a prefix of at least 8 bytes, without which the code panics.
- Options4.Options: takes any strictly ascending list of defaults; the concrete list of Appendix A of RFC 2131 is not written out.
- Options6.Encode: addresses are 16 bytes and lifetimes whole seconds below 2^32; decoding is into a new receiver.
- Persistent clients are immutable values once stored, so shallow clones and aliasing are not modelled; neither are `FindLoose`, `findByIPWithoutZone`, `rangeByName` and `ApplyClientFiltering`.
- Parsing of identifiers from strings (`SetIDs`, `FindParams.Set`), which depends on parsers outside the repository.
- Administrative changes of DHCP leases (`AddLease`, `UpdateStaticLease`, `Reset`), leases outside the pool and loading leases from the database.
- Exactness of the index's map of names after a DHCPREQUEST: the name is overwritten in the lease before the old one is looked up, so old names stay.
- Building and sending response packets beyond address, lease time, host name and option list; the message type, renewal and rebinding times; a nil bit set.
- Lower-casing of host names beyond ASCII.
- DHCPv6 message handlers, which are mostly stubs, and the legacy servers in internal/dhcpd other than the Router Advertisement.
- The watcher's events and the closing of the hosts container's channel.
- Data races and the granularity of locks: each locked section is one step.
- Configuration migrations, DNS forwarding, TLS, the web interface, password hashing: shallow moves of fields, or glue over libraries that are not part of this model.
