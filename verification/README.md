# The stateful core of a Bitcoin ABC node, in Dafny

This project models ten self-contained pieces of the node's C++ core and proves what each of them is for, over every input
and every sequence of calls:

- **Inventory requests** (`InvRequest*.dfy`, `SeqCounting.dfy`): the tracker that decides which peer to ask for an announced
  transaction or proof. The specification in `invrequest.h` becomes a plain map; the index-based implementation, which works
  by looking at neighbours in a sorted index, is a class whose methods refine it.
- **Coin caches** (`Coins.dfy`): stacks of UTXO caches with FRESH and DIRTY flags over a database. A stack behaves like one
  plain map, and a flush moves exactly that map down.
- **Address manager** (`AddrMan*.dfy`): tables of salted buckets with an index, reference counts and a random order.
  `AddrManBook` is the observer's view (who stands where, what is known), `AddrManSteps` what each primitive change does,
  `AddrMan` the class, `AddrManCheck` its own consistency check, `AddrManLaws`, `AddrManEffects`, `AddrManCollisions` and
  `AddrManGroups` the laws of the view, `AddrManFile` and `AddrManRebucket` saving and loading.
- **Check queue** (`CheckQueue.dfy`): the thread pool for script checks as a state machine over all interleavings.
- **Cuckoo cache** (`CuckooCache.dfy`): the signature cache with lazy deletion and epochs.
- **Block tree and chain** (`BlockTree.dfy`, `SkipHeights.dfy`, `SkipWalk.dfy`): skip lists over block indices with the exact
  length of their longest walks, the active chain and locators.
- **256-bit arithmetic** (`ArithUint.dfy`, `CompactBits.dfy`, `WordValue.dfy`, `Radix.dfy`, `Bitwise.dfy`,
  `Arithmetic.dfy`): word arrays as integers modulo a power of two, the compact target format and block work.
- **Rolling Bloom filter** (`RollingBloom.dfy`): two bit planes that stand for a generation number per position.
- **CashAddr** (`CashAddr.dfy`, `CashAddrText.dfy`, `CashAddrWords.dfy`, `CashAddrShort.dfy`, `CashAddrExample.dfy`) and
  **Base58** (`Base58.dfy`): codecs with their round trips, the CashAddr checksum and the Base58 buffer sizes.

Imperative code is imperative here: classes with the source's fields, methods with its loops, arrays where it has fixed
buffers. Each method is proved against a function on values, and the laws are lemmas about those functions. Clocks, random
draws, salted hashes and the iteration order of hash maps are parameters, so every statement holds for all of them.

Where the code and its own comments or callers' expectations part ways, the model follows the code:

- `SpendCoin` reports success for an entry that is already spent but still cached, although its comment says that the call
  then has no effect (src/coins.h:269-274, src/coins.cpp:168-188). `Coins.CoinsViewCache.SpendCoin` states exactly when, and
  `Coins.SpentTwice` spends one coin twice.
- `AddCoin` without permission to overwrite keeps the flags' meaning if and only if no unspent coin is visible; its
  exception covers only coins that are in this very cache, and when it is thrown the usage counter has already been
  reduced. `Coins.OverwrittenUnseen` overwrites a coin of a cache below.
- The header lists five valid combinations of a coin's flags; the fifth, spent and FRESH and not DIRTY, cannot occur
  (`Coins.FlagCombinations`).
- The address manager's consistency check can fail after `Good_` at a time that is not positive and after `Attempt_` at a
  negative time, and after no other call: `AddrManLaws.GoodTimes` and `AddrManLaws.AttemptTimes` give the exact conditions,
  `AddrMan.SuccessAtZero` and `AddrMan.AttemptBeforeZero` calls after which it fails. `ResolveCollisions_` keeps it passing
  at any time, since stored collisions wait for occupied slots (`AddrManCollisions.StoredTimes`).
- Failures of an address between two successes count more than once if their times are before the last success:
  `AddrManLaws.AttemptsCountOnce` says exactly when, `AddrManLaws.CountedTwice` gives two that do.
- The comment in the cuckoo cache says that the first displacement goes to location 0; the code goes to location 1
  (`CuckooCache.FirstDisplacement`).
- The CashAddr decoder, given fewer than eight symbols that verify all the same, cuts the checksum off a shorter range,
  from before its start; the model reports this as an outcome of its own, `TooShort`. `CashAddrShort.TooShortExactly` says
  for which strings, `CashAddrShort.ShortBodies` for which prefixes there are such strings, `CashAddrShort.ShortString`
  shows one, and `CashAddrShort.NodePrefixes` that there is none with the prefixes the node uses.
- A rolling Bloom filter made for 0 or for 2^32 - 1 elements or for a false positive rate of one, or one whose number of
  bits is within 63 of 2^32, has an empty table, and its first insertion writes outside of it.
  `RollingBloom.FirstInsertion` states exactly when, `RollingBloom.NoElements` and `RollingBloom.RateOfOne` show it.
- The step of a block locator is an `int` that overflows for blocks above height 2^30 + 9 and for no others
  (`BlockTree.Chain.GetLocator`); `BlockTree.LocatorOverflows` builds one.
- A comment calls the walk to an ancestor logarithmic (src/chain.cpp:41). Its number of steps is quadratic in the length of
  the height: the longest one from a height of k bits has exactly k^2/4 + 2k - 7 steps, rounded down, for k from 10 on
  (`SkipWalk.StepsBounded`, `SkipWalk.LongestReached`, `SkipWalk.NotLinear`). For 18 bits these are the 110 steps that
  another comment reports from simulations (src/blockindex.cpp:20-22).

## Model

| member | source | states |
|---|---|---|
| `InvRequestSpec.PriorityBits` | src/invrequest.cpp:149-157 | A priority is a 64-bit number whose top bit is the preferred flag and whose other bits are the salted hash. |
| `InvRequestSpec.ReceivedInvDoes` | src/invrequest.cpp:691-715 | A new announcement is a candidate for its time, as preferred as announced, with the next sequence number; a known one changes nothing. |
| `InvRequestSpec.RequestedDataDoes` | src/invrequest.cpp:751-812 | Asking a candidate makes it requested until the expiry and completes every other request for the inventory; nothing else changes. |
| `InvRequestSpec.ReceivedResponseDoes` | src/invrequest.cpp:553-577 | A response completes its announcement; the inventory is dropped exactly if no other announcement of it is open. |
| `InvRequestSpec.DisconnectedPeerDoes` | src/invrequest.cpp:641-681 | The peer's announcements are gone; another one stays, unchanged, exactly if its inventory has an open one of another peer. |
| `InvRequestSpec.GetRequestableDoes` | src/invrequest.cpp:585-604 | Exactly the expired requests are completed, and exactly the inventories without an open announcement left are dropped. |
| `InvRequestSpec.StepWellFormed` | src/invrequest.h:16-118 | Every operation, with any times, keeps at most one request per inventory, drops inventories of which only completed announcements remain, and keeps sequence numbers fresh. |
| `InvRequestSpec.RunWellFormed` | src/invrequest.h:16-118 | The same after every sequence of operations. |
| `InvRequestSpec.StepMonotone` | src/invrequest.cpp:499-577 | No operation moves a tracked announcement back from requested to candidate, or from completed to anything; its sequence number, preference and request time as a candidate never change. |
| `InvRequestSpec.RunMonotone` | src/invrequest.cpp:751-824 | The same between any two points of a run, for as long as the announcement is the same one. |
| `InvRequestSpec.RequestedAtMostOnce` | src/invrequest.h:49-57 | One announcement enters the requested state at most once in any run. |
| `InvRequestSpec.AskedTwiceMeansForgotten` | src/invrequest.h:49-57 | If a peer is asked twice for the same inventory, the announcement was forgotten and made anew in between. |
| `InvRequestSpec.NeverChosenAgain` | src/invrequest.h:49-57 | Once requested, an announcement is never requestable again. |
| `InvRequestSpec.PreferredFirst` | src/invrequest.h:83-84 | A best choice is a preferred peer whenever a preferred peer is requestable. |
| `InvRequestSpec.BestChoiceOutranks` | src/invrequest.h:83-92 | A best choice is a requestable announcement with no requestable rival that is preferred while it is not, or as preferred as it and with a higher hash; both ways. |
| `InvRequestSpec.HighestHashWins` | src/invrequest.h:90-92 | Among equally preferred peers the one with the highest salted hash is chosen, whoever announced or was ready first. |
| `InvRequestIndex.OnlyNonCompleted` | src/invrequest.cpp:522-544 | Looking at the two neighbours in the sorted index decides whether an announcement is the last one of its inventory that is not completed, both ways. |
| `InvRequestIndex.PrevIsBestReady` | src/invrequest.cpp:499-518 | The entry before a selected one is the ready candidate of highest priority, if there is any ready candidate. |
| `InvRequestTracker.InvRequestTracker.constructor` | src/invrequest.cpp:623-632 | A new tracker is the empty model. |
| `InvRequestTracker.InvRequestTracker.Erase` | src/invrequest.cpp:433-441 | Removes one entry and keeps order, uniqueness and the per-peer counts right. |
| `InvRequestTracker.InvRequestTracker.Modify` | src/invrequest.cpp:445-452 | Re-sorts one changed entry and keeps order, uniqueness and the per-peer counts right. |
| `InvRequestTracker.InvRequestTracker.PromoteCandidateReady` | src/invrequest.cpp:458-494 | Keeps all invariants, including that the best candidate beats every ready one, changes nothing in the model, and leaves one entry less waiting. |
| `InvRequestTracker.InvRequestTracker.ChangeAndReselect` | src/invrequest.cpp:499-518 | Keeps all invariants, selects the next best candidate, and changes the model only at the given entry. |
| `InvRequestTracker.InvRequestTracker.IsOnlyNonCompleted` | src/invrequest.cpp:522-544 | Answers exactly whether all other announcements of the inventory are completed. |
| `InvRequestTracker.InvRequestTracker.MakeCompleted` | src/invrequest.cpp:553-577 | Refines the response operation, and answers whether the announcement still exists. |
| `InvRequestTracker.InvRequestTracker.CatchUp` | src/invrequest.cpp:592-604 | Ends, leaves nothing waiting for a time that has passed, completes exactly the expired requests and reports them. |
| `InvRequestTracker.InvRequestTracker.WindBack` | src/invrequest.cpp:606-619 | Ends, and turns back every candidate whose time is still to come without changing the model. |
| `InvRequestTracker.InvRequestTracker.SetTimePoint` | src/invrequest.cpp:585-620 | For any time, forward or backward: the model loses exactly its expired requests, the report lists exactly those, and afterwards candidates are selectable exactly if their time has come. |
| `InvRequestTracker.InvRequestTracker.DisconnectedPeer` | src/invrequest.cpp:641-681 | Refines the model operation although the loop deletes what it iterates over. |
| `InvRequestTracker.InvRequestTracker.DropAnnouncement` | src/invrequest.cpp:674-678 | One pass: the announcement is completed and gone, and only its own inventory is touched. |
| `InvRequestTracker.InvRequestTracker.ForgetInvId` | src/invrequest.cpp:683-689 | Refines the model operation. |
| `InvRequestTracker.InvRequestTracker.ReceivedInv` | src/invrequest.cpp:691-715 | Refines the model operation; an announcement that is tracked already changes nothing. |
| `InvRequestTracker.InvRequestTracker.GetRequestable` | src/invrequest.cpp:718-749 | The result is exactly this peer's best candidates in announcement order, each a best choice of the model, by preference and then by the salted hash; every inventory with a requestable candidate has a best candidate; the expired requests are reported. |
| `InvRequestTracker.InvRequestTracker.CollectBest` | src/invrequest.cpp:725-732 | Finds all of a peer's best candidates, each once. |
| `InvRequestTracker.InvRequestTracker.RequestedData` | src/invrequest.cpp:751-812 | Refines the model operation, whether the announcement is the best candidate, another candidate, or none. |
| `InvRequestTracker.InvRequestTracker.RequestOther` | src/invrequest.cpp:763-811 | A request for a candidate that is not the best one gives up the earlier request of the inventory. |
| `InvRequestTracker.InvRequestTracker.ReceivedResponse` | src/invrequest.cpp:814-824 | Refines the model operation. |
| `InvRequestTracker.InvRequestTracker.CountInFlight` | src/invrequest.cpp:826-832 | The counter equals the number of the peer's requested entries in the index. |
| `InvRequestTracker.InvRequestTracker.CountCandidates` | src/invrequest.cpp:834-841 | The difference of counters equals the number of the peer's candidates. |
| `InvRequestTracker.InvRequestTracker.Count` | src/invrequest.cpp:843-849 | The counter equals the number of the peer's entries. |
| `InvRequestSanity.PeerInfoRecomputes` | src/invrequest.cpp:314-323 | Counters that were kept step by step equal their recomputation from the index. |
| `InvRequestSanity.InvIdInfoCounts` | src/invrequest.cpp:326-351 | The recomputed statistics of an inventory count its entries state by state. |
| `InvRequestSanity.PrioritiesAttained` | src/invrequest.cpp:326-351 | The recomputed priorities are those of entries that are there. |
| `InvRequestSanity.InventoryPasses` | src/invrequest.cpp:380-411 | The invariant of one inventory gives every condition that is checked about it. |
| `InvRequestSanity.SanityCheckPasses` | src/invrequest.cpp:372-412 | The invariant gives everything the tracker's sanity check asserts. |
| `InvRequestSanity.Execute` | src/invrequest.cpp:372-412 | After every sequence of operations the tracker equals the model's run and its sanity check passes. |
| `Coins.FlagCombinations` | src/coins.h:77-89 | Of the eight flag combinations, exactly four go with some view below; the fifth one that the header lists is unreachable. |
| `Coins.ForgettingSpends` | src/coins.cpp:168-188 | Dropping a cache entry instead of marking it spent has the same effect exactly if no coin is below, which is what FRESH says. |
| `Coins.AppliedIsOverlay` | src/txdb.cpp:118-184 | Writing only the dirty entries gives the same database as writing everything that is visible. |
| `Coins.CoinsViewDB.BatchWrite` | src/txdb.cpp:118-184 | The database becomes what the dirty entries make of it, entry by entry in any order. |
| `Coins.CoinsViewCache.FetchCoin` | src/coins.cpp:67-89 | A lookup changes no view in the whole stack; it may add one clean entry to each cache on the way. |
| `Coins.CoinsViewCache.GetCoin` | src/coins.cpp:91-98 | Finds exactly the visible unspent coins. |
| `Coins.CoinsViewCache.AddCoin` | src/coins.cpp:100-142 | The view gains the coin, with the exact entry and flags; the throw happens exactly for an unspent coin in this cache that may not be overwritten, and leaves the entries as they were and the usage counter reduced by that coin; the flags stay right exactly if overwriting was allowed or nothing was visible. |
| `Coins.OverwrittenUnseen` | src/coins.cpp:100-142 | A coin shown by a cache below is overwritten without permission: no exception, and the flags no longer mean what they say. |
| `Coins.AddCoins` | src/coins.cpp:152-166 | Every spendable output appears as a coin with its height and coinbase flag, every other outpoint is as before, and nothing is thrown. |
| `Coins.OutputsGained` | src/coins.cpp:152-166 | The same for the first outputs, one after the other. |
| `Coins.UnspendableScripts` | src/script/script.h:549-552 | Exactly the scripts that begin with OP_RETURN or are longer than 10000 bytes are unspendable. |
| `Coins.LaterOutputsUntouched` | src/coins.cpp:152-166 | Adding the first outputs does not make later ones visible. |
| `Coins.CoinsViewCache.SpendCoin` | src/coins.cpp:168-188 | The coin leaves the view and is handed out; its entry is dropped if it was FRESH and cleared and DIRTY otherwise; the answer is yes also for an entry that is cached as spent. |
| `Coins.SpentTwice` | src/coins.cpp:168-188 | One coin of the database is spent twice in a cache, with success both times. |
| `Coins.CoinsViewCache.AccessCoin` | src/coins.cpp:192-198 | Gives the visible coin or a spent one. |
| `Coins.CoinsViewCache.HaveCoin` | src/coins.cpp:200-203 | Answers exactly whether a coin is visible. |
| `Coins.CoinsViewCache.HaveCoinInCache` | src/coins.cpp:205-208 | Answers exactly whether a visible coin is cached here. |
| `Coins.CoinsViewCache.GetBestBlock` | src/coins.cpp:210-215 | The nearest block hash that is set, going down the stack; remembering it changes no answer. |
| `Coins.CoinsViewCache.SetBestBlock` | src/coins.cpp:217-219 | Sets this cache's hash and no coin. |
| `Coins.CoinsViewCache.MergeEntry` | src/coins.cpp:224-277 | For any child entry: throws exactly on a misapplied FRESH flag, touches no other entry, keeps the parent's FRESH flag or takes the child's if there was no entry, and with the right flags does to the view what the entry says. |
| `Coins.CoinsViewCache.BatchWrite` | src/coins.cpp:221-281 | For any batch: throws exactly if one of its entries is misapplied; with the right flags the view becomes the child's view and the parent's own flags stay right. |
| `Coins.CoinsViewCache.Flush` | src/coins.cpp:283-288 | The view does not change, the view below becomes equal to it, all views further down stay, and nothing is thrown. |
| `Coins.CoinsViewCache.Uncache` | src/coins.cpp:290-300 | Only a clean entry is dropped, and the view does not change. |
| `Coins.Perform` | src/coins.cpp:67-300 | One legal operation on a stack does to its views what it does to plain maps. |
| `Coins.Execute` | src/coins.cpp:67-300 | So does every legal sequence of operations, caches added and flushed away included; no exception is reachable. |
| `AddrManSteps.NewSlotChanged` | src/addrman.cpp:508-524 | Filling or emptying one new slot together with its reference count keeps the invariant and changes the view at that slot only. |
| `AddrManSteps.TriedSlotChanged` | src/addrman.cpp:558-582 | The same for a tried slot and an entry without references. |
| `AddrManSteps.RefCount` | src/addrman_impl.h:58-59 | A reference count equals the number of new buckets its address stands in. |
| `AddrManSteps.ScanCovers` | src/addrman.cpp:530-544 | A scan of all buckets from any start finds every reference, so the count has reached zero. |
| `AddrMan.AddrMan.constructor` | src/addrman.cpp:136-139 | A new manager satisfies the invariant and knows nobody. |
| `AddrMan.AddrMan.Find` | src/addrman.cpp:436-451 | Finds exactly the known addresses, with what is known about them. |
| `AddrMan.AddrMan.Create` | src/addrman.cpp:453-466 | Adds one entry with a new id at the end of the random order. |
| `AddrMan.AddrMan.SwapRandom` | src/addrman.cpp:468-491 | Exchanges two places of the random order and nothing else. |
| `AddrMan.AddrMan.Delete` | src/addrman.cpp:493-506 | Forgets one address that stands nowhere. |
| `AddrMan.AddrMan.ClearNew` | src/addrman.cpp:508-524 | Empties a new slot; its occupant is forgotten exactly if it stands nowhere else. |
| `AddrMan.AddrMan.RemoveFromNew` | src/addrman.cpp:529-544 | Takes an address out of every new bucket; its count is then zero. |
| `AddrMan.AddrMan.Evict` | src/addrman.cpp:550-577 | The occupant of a tried slot goes back to its own new slot, whose occupant makes way. |
| `AddrMan.AddrMan.MakeTried` | src/addrman.cpp:526-583 | The address moves to its tried slot and the displaced one back to new; all asserts hold. |
| `AddrMan.AddrMan.Good_` | src/addrman.cpp:585-645 | The view after a success, and exactly which collision is stored; the invariant holds, with at most ten stored collisions, each for an occupied slot. |
| `AddrManEffects.GoodKnown` | src/addrman.cpp:585-645 | After a success the address was met and tried at that time and has no failures; all else known of it and of the others stays; it is tried exactly if it was, or need not wait. |
| `AddrMan.AddrMan.Add_` | src/addrman.cpp:647-734 | The view after an announcement, for every draw, time and penalty; the answer is whether the address was unknown and routable. |
| `AddrManLaws.RefreshServices` | src/addrman.cpp:674-675 | An announcement of a known address adds the announced services, keeps the known ones and adds no others. |
| `AddrManLaws.RefreshGrows` | src/addrman.cpp:664-675 | It changes nothing else but the time of last sighting, which never goes back or past the announced time less the penalty unless the sum leaves 32 bits, and moves by more than an hour if it was set. |
| `AddrManEffects.RefreshExactly` | src/addrman.cpp:664-672 | The sighting counts exactly if it is newer, less the penalty, by more than an hour for an address that is online and a day for others. |
| `AddrManEffects.NewcomerKnown` | src/addrman.cpp:703-708 | A newcomer that stays is known as announced, seen at that time less the penalty unless it announced itself, and never tried. |
| `AddrManEffects.EarnsOneIn` | src/addrman.cpp:677-701 | With k slots, exactly one of any 2^k draws in a row earns another one; with eight slots, in the tried table, or without news, none does. |
| `AddrManEffects.TerribleExactly` | src/addrman.cpp:90-118 | Terrible are exactly the addresses not tried in the last minute that were not seen for thirty days, or come from the future, or failed three times without any success, or ten times without one for a week. |
| `AddrManEffects.ContestedSlot` | src/addrman.cpp:714-732 | A contested new slot changes hands exactly if its occupant is terrible, or has other slots and the other address has none. |
| `AddrMan.AddrMan.EarnsSlot` | src/addrman.cpp:677-701 | Exactly which announcements of a known address may take another slot. |
| `AddrMan.AddrMan.OfferSlot` | src/addrman.cpp:710-732 | Taking, overwriting or being denied a new slot, as the law of contested slots says; an address left without one is forgotten. |
| `AddrMan.AddrMan.Attempt_` | src/addrman.cpp:736-755 | The view after an attempt. |
| `AddrManEffects.AttemptKnown` | src/addrman.cpp:736-755 | An attempt sets the time of the last try, counts exactly if no failure was counted since the last success, and changes nothing else. |
| `AddrMan.AddrMan.GetAddr_` | src/addrman.cpp:848-891 | A sample without repetition of addresses that are wanted and not terrible, within the limits; a sample below its limit has all of them; the view stays. |
| `AddrMan.AddrMan.Connected_` | src/addrman.cpp:893-910 | The view after a connection. |
| `AddrManEffects.ConnectedKnown` | src/addrman.cpp:893-910 | A connection leaves the last sighting at most twenty minutes old, changes it only to that time, and changes nothing else. |
| `AddrMan.AddrMan.SetServices_` | src/addrman.cpp:912-926 | The view after learning services. |
| `AddrManEffects.ServicesKnown` | src/addrman.cpp:912-926 | The services become the given ones, and nothing else changes. |
| `AddrManCollisions.SafeStays` | src/addrman.cpp:928-1007 | A tried address that succeeded in the last four hours, or was tried in the last minute, keeps its slot whoever waits for it and in whatever order the collisions are resolved. |
| `AddrManCollisions.SafeWins` | src/addrman.cpp:957-993 | No address waiting for the slot of such an address replaces it. |
| `AddrManEffects.WhoGetsTheSlot` | src/addrman.cpp:957-993 | An occupied slot goes to a waiting address exactly if the occupant had no success for four hours, and a test of it is more than a minute and less than four hours old, or there was none and the waiting address met us more than forty minutes ago. |
| `AddrMan.AddrMan.ResolveCollision` | src/addrman.cpp:939-999 | The verdict on one collision and its effect. |
| `AddrMan.AddrMan.ResolveCollisions_` | src/addrman.cpp:928-1007 | All collisions that are still known are judged, one after the other on the then current view, and those judged are dropped; the check keeps passing at any time. |
| `AddrMan.AddrMan.SelectTriedCollision_` | src/addrman.cpp:1009-1037 | Returns the occupant of an occupied slot for which a stored address waits, so no entry is ever inserted by default; an empty answer means no collision or one that is gone and is dropped. |
| `AddrMan.AddrMan.CheckAddrman` | src/addrman.cpp:1057-1163 | On every reachable manager the check passes exactly if the recorded times are fine and there is a key. |
| `AddrManCheck.CheckEntries` | src/addrman.cpp:1071-1106 | The first pass finds exactly the entries that are not fine, and collects the tried ids and the counts. |
| `AddrManCheck.CheckTried` | src/addrman.cpp:1115-1132 | The tried pass fails exactly on a wrong slot, and ticks off the ids it meets. |
| `AddrManCheck.CheckNew` | src/addrman.cpp:1134-1150 | The new pass fails only on a wrong slot or count, and subtracts every reference it meets. |
| `AddrManCheck.CheckAddrman` | src/addrman.cpp:1057-1163 | On any state, consistent or not: the code is zero exactly if all redundant structures agree. |
| `AddrManLaws.EveryAddressPlaced` | src/addrman.h:39-62 | Every known address stands in its tried slot or in one to eight of its new slots, never in both, and every slot holds an address that belongs there. |
| `AddrManGroups.BucketsOfGroup` | src/addrman.cpp:58-80 | An address belongs into one of the eight tried buckets of its group, and into one of the sixty-four new buckets of the group that announced it. |
| `AddrManGroups.OneBucketPerPair` | src/addrman.cpp:69-80 | All addresses of one group that another group announces belong into one new bucket. |
| `AddrManGroups.SameTriedSlot` | src/addrman.cpp:58-88 | Two addresses have the same tried slot exactly if bucket and position hashes agree. |
| `AddrManGroups.SameNewSlot` | src/addrman.cpp:69-88 | The same for new slots. |
| `AddrManGroups.GroupInTried` | src/addrman.h:52-56 | In every reachable manager the addresses of one group have at most 512 of the 16384 tried slots. |
| `AddrManGroups.GroupInNew` | src/addrman.h:35-44 | Whatever one group announces, in any order and as often as it likes, the tried table stays and the new table changes in at most 64 of its 1024 buckets. |
| `AddrManLaws.MoveConserves` | src/addrman.cpp:526-583 | After a move the address is tried and no longer new, the displaced one is new and still known, and whoever is forgotten stood only in the slot that one took. |
| `AddrManCollisions.MoveKeepsPlaced` | src/addrman.cpp:526-583 | On any view, a move keeps every address in its own slots and in one table only. |
| `AddrManCollisions.ResolveKeepsPlaced` | src/addrman.cpp:928-1007 | So does resolving any collisions. |
| `AddrManLaws.AddConserves` | src/addrman.cpp:647-734 | An announcement forgets nobody but a terrible address whose only slot it takes; a known address stays known; a newcomer is known afterwards exactly if it got its slot. |
| `AddrManLaws.GoodGrows` | src/addrman.cpp:585-645 | A success empties no tried slot. |
| `AddrManLaws.ResolveGrows` | src/addrman.cpp:928-1007 | Resolving collisions empties no tried slot. |
| `AddrManLaws.AddKeepsTried` | src/addrman.cpp:647-734 | An announcement touches no tried slot. |
| `AddrManLaws.FailuresCounted` | src/addrman.cpp:736-755 | Of any attempts on any addresses between two successes, exactly this many count against an address: those of its failures at the beginning whose times are before the last success, and the next one. |
| `AddrManLaws.AttemptsCountOnce` | src/addrman.cpp:736-755 | So they count at most once exactly if one was counted since that success already, or there are no two, or the first is not before it. |
| `AddrManLaws.CountedTwice` | src/addrman.cpp:748-754 | Two failures at a time before the last success count twice. |
| `AddrManLaws.CheckPasses` | src/addrman.cpp:1057-1163 | Under the invariant the consistency check depends on the recorded times and the key only. |
| `AddrManLaws.GoodTimes` | src/addrman.cpp:602-617 | A success keeps the check passing exactly if its time is positive, or zero for an address that stays new, or the address is unknown. |
| `AddrManLaws.AddTimes` | src/addrman.cpp:647-734 | An announcement always keeps the check passing. |
| `AddrManLaws.AttemptTimes` | src/addrman.cpp:748-754 | An attempt keeps the check passing exactly if its time is not negative or the address is unknown. |
| `AddrManCollisions.ResolveTimes` | src/addrman.cpp:928-1007 | A law of arbitrary views: resolving any addresses keeps the times fine exactly if the time is positive or, on the view before the call, none of them would be given its slot. |
| `AddrManCollisions.NoReplaceEarly` | src/addrman.cpp:957-998 | At a time that is not positive an address is given no slot but a free one. |
| `AddrManCollisions.StoredTimes` | src/addrman.cpp:928-1007 | The collisions a manager stores wait for occupied slots, so resolving them keeps the check passing at every time. |
| `AddrManLaws.ConnectedTimes` | src/addrman.cpp:893-926 | A connection or a change of services always keeps the check passing. |
| `AddrMan.Perform` | src/addrman.cpp:453-1037 | Every operation keeps the invariant, empties no tried slot, and keeps the check passing unless it is a success at a time that is not positive or an attempt at a negative time. |
| `AddrMan.Execute` | src/addrman.cpp:1057-1163 | From an empty manager with a key, after every sequence of operations without such times, the check passes; collisions may be resolved at any time. |
| `AddrMan.SuccessAtZero` | src/addrman.cpp:1074-1077 | After an announcement and a success at time zero the check fails. |
| `AddrMan.AttemptBeforeZero` | src/addrman.cpp:1100-1102 | So it does after an announcement and an attempt at a negative time. |
| `AddrManFile.SaveEntries` | src/addrman.cpp:205-226 | Writes the picked entries in any iteration order, with the index of each, and never writes more than announced. |
| `AddrManFile.CountsSaved` | src/addrman.cpp:207-226 | The announced counts are those of the entries written, so both asserts hold. |
| `AddrManFile.SavedFits` | src/addrman.cpp:296-308 | There are never more entries than slots, so a saved file is never refused for its counts. |
| `AddrManFile.SaveBucket` | src/addrman.cpp:227-241 | Writes for each occupied slot the index of its entry among the new entries. |
| `AddrManFile.LoadEntries` | src/addrman.cpp:310-339 | Builds the entries of any file; a tried record whose slot is taken is lost. |
| `AddrManFile.LoadBuckets` | src/addrman.cpp:341-409 | Gives the bucket entries of any file their places, the old ones or those of their source; what becomes of each is `AddrManRebucket.LoadRehouses`. |
| `AddrManFile.Prune` | src/addrman.cpp:411-421 | Deletes exactly the new entries that found no place, and nothing if there are none. |
| `AddrManFile.CheckedIsKept` | src/addrman.cpp:429-433 | Whatever was loaded, a passed check means that the full invariant holds. |
| `AddrManFile.RoundTrip` | src/addrman.cpp:145-434 | Loading what was saved, with the same key and map, gives the same addresses in the same new and tried slots with everything known but the times of the last tries, for every manager and every iteration order. |
| `AddrManFile.SavedLoads` | src/addrman.cpp:145-434 | Nothing of a saved file is pruned, and the load succeeds exactly if the times that were kept are fine and there is a key. |
| `AddrManRebucket.KeptIfFirst` | src/addrman.cpp:319-338 | A tried record is kept exactly if no earlier one has its slot. |
| `AddrManRebucket.PrunedHolds` | src/addrman.cpp:411-421 | Without the entries that found no place the whole invariant holds. |
| `AddrManRebucket.LoadRehouses` | src/addrman.cpp:310-421 | Any file with differing addresses, under any key and map: a listed new address is known unless its home slot, and each slot it was to be restored to, is held by another; without restoring it stands at home only; a tried one is known in its slot exactly if it is the first for it; nobody else is known. |
| `AddrManRebucket.SavedElsewhere` | src/addrman.cpp:145-434 | A saved manager loaded under another key or map: what is known is what was known, tried stays tried, and only addresses whose new place another one got are lost. |
| `AddrMan.AddrMan.Serialize` | src/addrman.cpp:145-249 | The file is the saved state. |
| `AddrMan.AddrMan.Unserialize` | src/addrman.cpp:251-434 | For any file: success means a manager that satisfies the whole invariant and passes its check. For any file with differing addresses: who is known and where, and that the check passes exactly if times and key are fine. |
| `AddrMan.Restart` | src/addrman.cpp:145-434 | Saving and loading gives back the same view; it succeeds whenever the saved manager passed its check. |
| `AddrMan.Relocate` | src/addrman.cpp:145-434 | Saving, and loading under another key or map: only crowded addresses are lost, and it succeeds whenever the saved manager passed its check. |
| `CheckQueue.InitialInv` | src/checkqueue.h:148-163 | The invariant holds when the pool starts, for any number of workers. |
| `CheckQueue.StepInv` | src/checkqueue.h:65-180 | Every step of every thread keeps it: the outstanding count is queued plus taken checks, idle and total are the numbers of such threads, every check of this round is queued, taken once or done. |
| `CheckQueue.RunInvariant` | src/checkqueue.h:65-180 | So it holds at every point of every interleaving. |
| `CheckQueue.BatchFits` | src/checkqueue.h:114-124 | The batch size is at least one and never more than the queue holds or the limit; it is the largest such share that leaves as much for every other thread. |
| `CheckQueue.WaitIsCorrect` | src/checkqueue.h:89-97 | When Wait returns, the answer is yes exactly if every check of the round was executed and succeeded, and no only if an executed one failed; nothing is left for the next round. |
| `CheckQueue.RunsOnce` | src/checkqueue.h:128-133 | No check is executed twice. |
| `CheckQueue.NoLostWakeup` | src/checkqueue.h:76-83 | The master never sleeps without a pending notification when all work is done. |
| `CheckQueue.NoDeadlock` | src/checkqueue.h:65-136 | While the master is inside Wait, some thread can move without a spurious wake-up. |
| `CheckQueue.Progress` | src/checkqueue.h:65-136 | Every critical section and every executed check uses up part of a finite budget. |
| `CheckQueue.WaitTerminates` | src/checkqueue.h:65-136 | From any reachable state, a run without new work has at most as many steps as the budget plus two per spurious wake-up. |
| `CheckQueue.WaitReturns` | src/checkqueue.h:65-136 | A run without new work that no thread can extend has left the master outside: Wait has returned. |
| `CheckQueue.WaitCanReturn` | src/checkqueue.h:65-136 | From every reachable state, some run of critical sections and checks alone, within the budget, makes Wait return. |
| `CuckooCache.Cache.constructor` | src/cuckoocache.h:378-391 | All slots start free; the epoch size is 45 percent of the size in 32-bit arithmetic and at least one. |
| `CuckooCache.Cache.EpochCheck` | src/cuckoocache.h:322-357 | Leaves room for one more recent element within the bound; exactly when a scan finds the epoch full, recent elements become old and old ones free; otherwise no flag changes and the next scan is set no later than the bound allows. |
| `CuckooCache.Cache.Age` | src/cuckoocache.h:338-346 | Recent elements become old, and old ones may be overwritten. |
| `CuckooCache.NoBouncing` | src/cuckoocache.h:463-482 | With distinct locations, the element put in last is not the one displaced next. |
| `CuckooCache.FirstDisplacement` | src/cuckoocache.h:463-482 | The first displacement goes to the second location. |
| `CuckooCache.NextFollows` | src/cuckoocache.h:463-482 | The next location is the one after the last, around the end of the eight, or the second if the last is not among them. |
| `CuckooCache.Cache.LocsAreFractions` | src/cuckoocache.h:265-291 | The eight locations are the eight hashes as fractions of the table, rounded down. |
| `CuckooCache.Cache.OneMove` | src/cuckoocache.h:452-490 | With one move allowed, an element without a free location takes its second one and stays. |
| `CuckooCache.Cache.Displace` | src/cuckoocache.h:452-490 | The chain of moves: the new element goes to its second location, each displaced one to the location after the one it lost, with its epoch flag, none of them having a free one; the last one takes its first free location, or is lost once the moves are used up. Elements are conserved but for exactly one, and so are the counts. |
| `CuckooCache.Cache.Insert` | src/cuckoocache.h:435-491 | Every key stays at one of its own locations and occurs once; a present key is kept at its first location and becomes recent; a new one enters by such a chain on the flags after the epoch check, and with one move allowed it is in the table. |
| `CuckooCache.Cache.PresentIfAnywhere` | src/cuckoocache.h:547-558 | Looking at eight locations is as good as looking everywhere. |
| `CuckooCache.Cache.Find` | src/cuckoocache.h:547-558 | Finds exactly the keys in the table; erasing marks the slot that was found and no other. |
| `CuckooCache.Execute` | src/cuckoocache.h:322-357 | In every run the recent elements stay within the epoch size plus a sixteenth of it (at least one), and all live elements within twice that. |
| `SkipHeights.InvertLowestOneTakesOff` | src/blockindex.cpp:7-12 | Clearing the lowest one bit subtracts the largest power of two that divides the number. |
| `SkipHeights.SkipGoesDown` | src/blockindex.cpp:15-25 | The skip height is below the height. |
| `BlockTree.BlockIndex.GetAncestor` | src/blockindex.cpp:45-69 | Gives what walking the parents gives, or nothing for a height out of range; with all skip links set, within the steps of the longest walk from a height of so many bits. |
| `SkipWalk.FromLow` | src/blockindex.cpp:15-69 | The steps down from a height whose own skip goes too far, bounded by the place of its lowest one. |
| `SkipWalk.StepsBounded` | src/blockindex.cpp:15-69 | From any height of at most k bits to any ancestor, at most the steps of the longest walk, for k from 10 on. |
| `SkipWalk.LongestReached` | src/blockindex.cpp:15-69 | The walk from 2^k - 8 to height two has exactly that many. |
| `SkipWalk.LongestClosed` | src/blockindex.cpp:15-69 | They are k^2/4 + 2k - 7, rounded down. |
| `SkipWalk.FromEighteenBits` | src/blockindex.cpp:20-22 | Up to 2^18 blocks, at most 110 steps, and 110 for some. |
| `SkipWalk.NotLinear` | src/chain.cpp:40-42 | No multiple of the length of the height bounds the steps, so they are not logarithmic. |
| `BlockTree.BlockIndex.BuildSkip` | src/blockindex.cpp:76-80 | The skip link is the ancestor at the skip height, so all skip links of the branch are right, and none is missing if none was. |
| `BlockTree.LastCommonAncestor` | src/chain.cpp:115-137 | The highest common ancestor; none exactly if the blocks have different first blocks. |
| `BlockTree.Chain.NextIsChild` | src/chain.h:172-186 | Next gives the child on the chain, exactly for the blocks on the chain other than the tip. |
| `BlockTree.Chain.SetTip` | src/chain.cpp:8-19 | The chain becomes exactly the path to the new tip although the loop stops at the first agreement. |
| `BlockTree.AgreeBelow` | src/chain.cpp:8-19 | Chains that agree at one height agree below it, which is why the loop may stop. |
| `BlockTree.Chain.FindFork` | src/chain.cpp:52-63 | The highest ancestor that is on the chain, also for blocks above the tip. |
| `BlockTree.Chain.GetLocator` | src/chain.cpp:21-50 | Strictly descending ancestors from the start to the first block, at the prescribed depths, logarithmically many; the step overflows exactly for starts above height 2^30 + 9. |
| `BlockTree.Chain.StepOverflows` | src/chain.cpp:43-45 | The step leaves the range of an int exactly in the round after the fortieth block. |
| `BlockTree.LocatorOfBranch` | src/chain.cpp:21-50 | A branch of n blocks built link by link: its locator overflows exactly if n is above 2^30 + 9. |
| `BlockTree.LocatorOverflows` | src/chain.cpp:21-50 | So one of 2^30 + 10 blocks does. |
| `ArithUint.BaseUint.AssignWord` | src/arith_uint256.h:89-96 | Sets a 64-bit value. |
| `ArithUint.BaseUint.GetLow64` | src/arith_uint256.h:277-281 | The value modulo 2^64. |
| `ArithUint.BaseUint.Add` | src/arith_uint256.h:134-142 | Addition modulo the width, with no overflow of the 64-bit intermediate. |
| `ArithUint.BaseUint.Increment` | src/arith_uint256.h:167-174 | Adds one modulo the width. |
| `ArithUint.BaseUint.Complement` | src/arith_uint256.h:70-76 | The largest value minus this one. |
| `ArithUint.BaseUint.Negate` | src/arith_uint256.h:78-85 | The additive inverse modulo the width. |
| `ArithUint.BaseUint.Subtract` | src/arith_uint256.h:144-147 | Subtraction modulo the width. |
| `ArithUint.BaseUint.ShiftLeft` | src/arith_uint256.cpp:19-36 | Multiplication by a power of two modulo the width, for any shift. |
| `ArithUint.BaseUint.ShiftRight` | src/arith_uint256.cpp:38-55 | Division by a power of two, for any shift. |
| `ArithUint.BaseUint.MultiplySmall` | src/arith_uint256.cpp:57-66 | Multiplication by a word modulo the width, with no overflow of the intermediate. |
| `ArithUint.BaseUint.Multiply` | src/arith_uint256.cpp:68-81 | Multiplication modulo the width, with no overflow of the intermediate. |
| `ArithUint.BaseUint.Divide` | src/arith_uint256.cpp:83-115 | Integer division; the error exactly for a zero divisor. |
| `ArithUint.BaseUint.CompareTo` | src/arith_uint256.cpp:117-128 | The order of the values. |
| `ArithUint.BaseUint.Bits` | src/arith_uint256.cpp:172-184 | The length of the value in bits. |
| `CompactBits.SetCompact` | src/arith_uint256.cpp:204-224 | The value is mantissa times 256 to the size minus three, modulo the width; the negative flag means a signed value other than zero; the overflow flag is exact. |
| `CompactBits.OverflowIsExact` | src/arith_uint256.cpp:218-222 | The condition on size and mantissa holds exactly if the value does not fit. |
| `CompactBits.GetCompact` | src/arith_uint256.cpp:226-247 | The compact form of the value. |
| `CompactBits.FieldsOf` | src/arith_uint256.cpp:226-247 | The fields of a compact form do not run into each other, and it stands for the value cut off after its leading bytes. |
| `CompactBits.CompactIsStable` | src/arith_uint256.cpp:204-247 | Compacting what a compact form stands for gives the same compact form, never a larger value. |
| `CompactBits.CompactAccurate` | src/arith_uint256.cpp:204-247 | A compact form is off by at most one part in 2^15, and never above. |
| `CompactBits.GetBlockProof` | src/chain.cpp:77-90 | The work of a block is exactly 2^256 divided by target plus one, rounded down, or zero for a bad target; the division is never by zero. |
| `CompactBits.WorkFormula` | src/chain.cpp:85-89 | The formula that avoids 2^256 is exact. |
| `RollingBloom.FastMod` | src/bloom.cpp:232-234 | Multiply-and-shift gives a position in range, or zero where there is no range. |
| `RollingBloom.GenerationsSuffice` | src/bloom.cpp:191-194 | Generations are empty exactly for 0 and 2^32 - 1 elements, and two of them are enough for the wanted number exactly below 2^32 - 1. |
| `RollingBloom.NoTableExactly` | src/bloom.cpp:193-217 | The table is empty exactly for those two numbers, for a rate of one, or if rounding its bits up to words wraps around. |
| `RollingBloom.BitsNeeded` | src/bloom.cpp:207-209 | The bits are just as many as three generations need, rounded up. |
| `RollingBloom.WordsNeeded` | src/bloom.cpp:217 | The table has just enough words for the bits, unless rounding up wraps around. |
| `RollingBloom.RollingBloomFilter.constructor` | src/bloom.cpp:185-219 | A new filter knows no key; the exact sizes of its generations and of its table. |
| `RollingBloom.FirstInsertion` | src/bloom.cpp:236-268 | The first insertion into a new filter writes outside of the table exactly if the table is empty. |
| `RollingBloom.NoElements` | src/bloom.cpp:236-268 | So it does for a filter made for no elements, at any false positive rate. |
| `RollingBloom.RateOfOne` | src/bloom.cpp:185-268 | And for a false positive rate of one, with any number of elements. |
| `RollingBloom.RollingBloomFilter.Reset` | src/bloom.cpp:294-299 | The filter knows no key. |
| `RollingBloom.RollingBloomFilter.Wipe` | src/bloom.cpp:236-251 | The masks clear exactly the positions of the generation whose label is used again. |
| `RollingBloom.RollingBloomFilter.SetPosition` | src/bloom.cpp:256-266 | Sets one position to the current generation in both planes. |
| `RollingBloom.RollingBloomFilter.Insert` | src/bloom.cpp:236-268 | Runs outside of the table exactly if there is none; otherwise keeps every position's bits equal to the label of the generation that set it last, or zero once that is more than two generations past; no position is set but by the inserted keys. |
| `RollingBloom.LabelReused` | src/bloom.cpp:236-251 | A label is used again exactly two generations after the one it stood for. |
| `RollingBloom.RollingBloomFilter.Contains` | src/bloom.cpp:275-287 | True exactly if every hash of the key coincides, in bit and pair of words, with a hash of some key of the current and the two preceding generations; so for these keys, for the last two generations' worth of keys, and never in a filter that is new or reset. |
| `RollingBloom.LastThree` | src/bloom.h:113-114 | Those keys are exactly the last ones: two full generations and what the current one has, so more than two generations and at most three. |
| `CashAddr.StepInjective` | src/cashaddr.cpp:35-140 | One step of the checksum loses nothing of the remainder. |
| `CashAddr.FoldDiffers` | src/cashaddr.cpp:35-140 | Within eight symbols, remainders differ by exactly the symbols' difference. |
| `CashAddr.BurstDetected` | src/cashaddr.cpp:35-140 | Sequences of the same length that differ only within eight consecutive symbols have different checksums. |
| `CashAddr.ChecksumVerifies` | src/cashaddr.cpp:166-189 | Exactly one choice of eight symbols makes a sequence verify: the one that is appended. |
| `CashAddr.TailVerifies` | src/cashaddr.cpp:166-189 | At most eight symbols at the end make a sequence verify exactly if the remainder that zeroes in their place leave fits into them and they spell it. |
| `CashAddrText.ComputePolyMod` | src/cashaddr.cpp:35-140 | The loop with five conditional xors computes the remainder, within 40 bits. |
| `CashAddrText.CreateChecksum` | src/cashaddr.cpp:176-189 | The eight symbols of the remainder of the sequence followed by zeroes. |
| `CashAddrText.CharsetRoundTrip` | src/cashaddr.cpp:16-28 | The reverse table undoes the character set. |
| `CashAddrText.RevRoundTrip` | src/cashaddr.cpp:16-28 | Every accepted character stands for a symbol whose character is its lower case. |
| `CashAddrExample.CharsetIs` | src/cashaddr.cpp:16-16 | The symbols are the letters of one string, in order. |
| `CashAddrExample.KnownAddress` | src/test/cashaddr_tests.cpp:25 | The address of all 32 symbols in order under "bitcoincash", encoded and decoded. |
| `CashAddrText.Encode` | src/cashaddr.cpp:198-209 | Prefix, colon, payload and checksum in characters. |
| `CashAddrText.Scan` | src/cashaddr.cpp:216-255 | Accepts exactly strings of letters, digits and one well-placed colon in one case. |
| `CashAddrText.Decode` | src/cashaddr.cpp:214-290 | The meaning of any string, all refusals included. |
| `CashAddrText.Refused` | src/cashaddr.cpp:216-255 | Letters of both cases, other characters, a second colon, one at the start or one after a digit are refused. |
| `CashAddrText.CaseIgnored` | src/cashaddr.cpp:214-290 | Acceptable strings of one case each mean the same if they differ in case only. |
| `CashAddrShort.TooShortExactly` | src/cashaddr.cpp:214-290 | The decoder runs past the start of its range exactly for acceptable strings with fewer than eight symbols after the colon that spell the remainder of the prefix. |
| `CashAddrShort.EightSuffice` | src/cashaddr.cpp:284-290 | With eight or more symbols it never does. |
| `CashAddrShort.ShortBodies` | src/cashaddr.cpp:214-290 | A prefix has such a string exactly if it verifies alone or the remainder after seven zeroes fits into seven symbols. |
| `CashAddrShort.ShortString` | src/cashaddr.cpp:214-290 | A string of seven symbols that verifies. |
| `CashAddrShort.NodePrefixes` | src/chainparams.cpp:205-206 | With one of the six prefixes of the node's networks, whatever the rest, it never happens. |
| `CashAddrWords.WordIsStep` | src/cashaddr.cpp:69-131 | A step on words with shifts, masks and conditional xors is a step on numbers. |
| `CashAddrText.RoundTrip` | src/cashaddr.cpp:198-290 | Decoding an encoded payload gives it back exactly if the prefix is a non-empty word of lower-case letters. |
| `CashAddrText.Canonical` | src/cashaddr.cpp:198-290 | Encoding what was decoded gives the string back in lower case, with its prefix. |
| `Base58.DecodeRatio` | src/base58.cpp:54-56 | A thousand digits of base 58 fit into 733 bytes, so 733/1000 is always enough. |
| `Base58.EncodeRatio` | src/base58.cpp:109-111 | A hundred bytes fit into 138 digits of base 58, so 138/100 is always enough. |
| `Base58.AlphabetIs` | src/base58.cpp:18-19 | The digits are the letters of one string, in order. |
| `Base58.KnownEncoding` | src/test/data/base58_encode_decode.json:4 | A known encoding, without and with a leading zero byte. |
| `Base58.MulAdd` | src/base58.cpp:68-80 | Multiplies the number in the buffer and adds a digit; the carry ends at zero although only part of the buffer is visited. |
| `Base58.Convert` | src/base58.cpp:108-127 | Converts between the bases digit by digit within the estimated buffer. |
| `Base58.EncodeBase58` | src/base58.cpp:100-141 | A one for every leading zero byte and then the digits of the number. |
| `Base58.ConvertWord` | src/base58.cpp:60-80 | Reads digits up to a space or the end, and gives up exactly on a bad character or a result that is too long. |
| `Base58.DecodeBase58` | src/base58.cpp:37-98 | The meaning of any string, with spaces at both ends and all refusals. |
| `Base58.RoundTrip` | src/base58.cpp:37-141 | Decoding an encoded byte string gives it back exactly if it fits the limit. |
| `Base58.Canonical` | src/base58.cpp:37-141 | Encoding what was decoded gives the string back without the spaces around it. |
| `Base58.WithoutSpaces` | src/base58.cpp:37-98 | For a string without spaces that is the whole string. |

## Left out

- AddrMan.AddrMan.ResolveCollisions_: the source reads the clock several times in one call; the model reads it once.
- AddrMan.AddrMan.Unserialize: the file is a structure of records and indices, not bytes; format versions, the stored key and stream errors are not modelled, and counts are the lengths of the lists.
- AddrMan.AddrMan.Attempt_: attempt counters are unbounded integers.
- InvRequestTracker.InvRequestTracker.ReceivedInv: the sequence number is unbounded; the source keeps 60 bits.
- RollingBloom.RollingBloomFilter.constructor: the logarithms of the false positive rate are parameters, namely at least one hash function and a number of bits for each and per element that is not negative, as a real; three generations are counted modulo 2^32 where the source multiplies an int, and the number of bits must fit into 32 bits, without which its conversion is undefined.
- BlockTree.BlockIndex.constructor: the parent of a block is fixed when it is made; the source sets it afterwards.
- CashAddrText.Decode: strings are sequences of characters; bytes above 127 are characters above 127.
- Tables of the address manager and the cuckoo cache are fields that hold sequences and are reassigned slot by slot.
- Hash functions, salts, address groups, random draws and clocks: parameters, with no claim about their distribution.
- `Select_` and `GetChance` of the address manager: floating-point chances and a loop that ends only with probability one.
- `Clear` on a used address manager, and `EmplaceCoinInternalDANGER` of the coin cache: outside the promised runs.
- Start and stop of the check queue's threads, and the memory order of the cuckoo cache's flags.
- The database below the coin caches: a map that applies the dirty entries; its files and partial batches are not modelled.
- `getdouble`, hexadecimal, decrement and bitwise operators of 256-bit numbers; `UpdateChainStats`; `GetBlockProofEquivalentTime`: easy members.
- `EncodeBase58Check` and `DecodeBase58Check`: they add a hash to the codec.
- Memory accounting of the request tracker and the serialization of coins: easy members.
