# Verified model of the Reddcoin node's data structures

A model, in Dafny, of the parts of the Reddcoin node that other parts trust to be exact: the address
manager, the stack of coin caches, the check queue, the signature cache, the block tree and active
chain, the 256-bit arithmetic behind targets and block trust, the rolling Bloom filter, the text
encodings of addresses, the reconstruction of compact blocks, and the compression of amounts.
`dafny verify dfyconfig.toml` checks the whole project.

## How it is organised

| files | what they model |
|---|---|
| `AddrState`, `AddrInvariant`, `AddrSteps`, `AddrOps`, `AddrRun`, `AddrStale` | the address manager as a state, its consistency check, what every operation and every run keep, and the run that breaks it |
| `AddrDisk`, `AddrRestore`, `AddrPurge`, `AddrRead` | its file: reading, writing, the way there and back, the removal of invalid addresses, and which files leave a consistent manager |
| `AddrMan` | the class itself, with two-dimensional arrays for the buckets, refining the state |
| `CoinsModel`, `CoinsRun`, `CoinsView` | caches of coins over a database: flags, merging, runs; the class of linked caches |
| `CheckQueue` | the protocol of master and workers, one step per critical section |
| `CuckooModel`, `CuckooCache` | the signature cache as a value, and the classes with packed flags |
| `Limbs`, `LimbShifts`, `WideInt`, `Compact` | numbers in 32-bit limbs of any width, compact targets, block trust |
| `BlockTree`, `Chain` | skip pointers over the block tree; the active chain, locators, forks |
| `Words`, `Bloom` | bits of words; the rolling Bloom filter |
| `Radix`, `Base58Sizes`, `Base58`, `Bech32Code`, `BchField`, `BchCode`, `Bech32` | the two text encodings, the checksum code and the field its generator has its roots in |
| `CompactBlocks`, `Amount` | compact blocks and differential indexes; compressed amounts |
| `Basics`, `Numbers` | options, powers, division, bits of natural numbers |

Code that updates fields, arrays or maps in place is a class or a method with loops, and its contract
ties the new state to a function of the old one; what the operation is for is proved about that
function. Hash functions, the classification of addresses, transaction hashes and the block check are
function values handed in. The clock, random draws and the order in which an unordered map is
traversed are arguments, so each result holds for all of them.

## Where the code and its documentation differ

The model follows the code; these are the differences it brings out.

* The comment in the signature cache says that the first displacement hits the first of the eight
  slots; it hits the second (`CuckooModel.FirstVictim`).
* The packed flags are said to work for every size; the padding wraps from 2^32 - 7 on
  (`CuckooCache.BytesSuffice`).
* An epoch of the signature cache is said to have 45% of the size; that is so exactly below 2^32 / 45
  slots (`CuckooModel.EpochSizeExactly`). Above, epochs can be as small as one element
  (`CuckooModel.EpochSizeWraps`); what each case means for a run is in `CuckooModel.EveryRunShare` and
  `CuckooModel.EveryRunSmaller`.
* `Clear` of the address manager leaves the pending collisions, and a run from an empty manager shows
  what that does (`AddrStale.StaleCollisionBreaks`); a selection is safe exactly under the condition of
  `AddrRun.StepKeepsIff`, and always if nothing is cleared while collisions are pending.
* An address file that repeats an address is read without complaint. If an entry with that address stays and
  another was entered too, even one pruned afterwards, the manager left is inconsistent
  (`AddrRead.RepeatedAddressBreaks`); the exact condition on files is `AddrRead.ReadConsistentIff`.
* Amounts are said to be compressible up to `MAX_MONEY`; with Reddcoin's constant the exact range is
  smaller (`Amount.RoundTrip`, `Amount.MoneyLost`).
* Of the five flag states said to be valid for a cached coin, "spent, FRESH, not DIRTY" arises in no run
  (`CoinsRun.EveryRunFourStates`). A spend reports success also for a coin that is cached as spent already
  (`CoinsModel.SpentStaysCached`, `CoinsView.CoinsView.SpendCoin`).
* With a limit below zero the Base58 decoder accepts blank texts, and only those
  (`Base58.NegativeLimit`).

## Model

| member | source | states |
|---|---|---|
| `AddrRun.EveryRunConsistent` | src/addrman.cpp:463-539 | After any sequence of additions, successes, attempts, connections, service updates, collision resolutions and selections, random draws, and clearings while no collision is pending, on a fresh manager, the whole consistency check holds, together with two facts the check leaves out: mapAddr and vRandom hold nothing else, and every pending collision that still names an entry is with an occupied tried slot. |
| `AddrRun.RunKeeps` | src/addrman.cpp:463-539 | The same from any consistent state, for runs of any length; every selection on the way meets its guard. |
| `AddrRun.StepKeeps` | src/addrman.cpp:463-539 | Each single operation keeps both parts of the invariant, clearing if no collision is pending. |
| `AddrRun.StepKeepsIff` | src/addrman.cpp:463-539 | From any consistent state, however it was reached, every operation keeps the consistency check except a selection whose entry exists and whose tried slot is free, and that one always breaks it. |
| `AddrRun.Run` | src/addrman.cpp:463-539 | So the check holds after every run, clearings included, whose selections meet that guard. |
| `AddrOps.MadeTriedKeeps` | src/addrman.cpp:196-244 | Moving an entry to the tried table keeps the full invariant, although the steps on the way (no longer in new, an evicted entry in neither table, the deletion of whatever was in its way) break it. |
| `AddrOps.MadeTriedMovesFreely` | src/addrman.cpp:196-244 | With a free slot the entry leaves all its new buckets for its one hashed tried slot, and nothing else changes. |
| `AddrOps.MadeTriedEvicts` | src/addrman.cpp:216-243 | With an occupied slot the two entries change places: the evicted one has exactly one reference, at the new slot of its own source; besides these two only the holder of that slot is touched. |
| `AddrSteps.WithdrawnKeeps` | src/addrman.cpp:200-210 | After the sweep over all new buckets the entry has no reference left (the assert holds) and every other entry is as consistent as before. |
| `AddrSteps.FittingSlotsAll` | src/addrman.cpp:277-292 | The positions searched for an entry that is not in tried are exactly its references, at least one; so the search never fails and the bail-out is dead code. |
| `AddrSteps.NewClearedKeeps` | src/addrman.cpp:179-194 | Freeing a new slot keeps the invariant also while other entries are in neither table; the last reference takes the entry with it. |
| `AddrSteps.DeletedKeeps` | src/addrman.cpp:163-177 | Deleting an entry without references keeps the bijection between vRandom and the entries, the address index and the counters; no other entry is lost. |
| `AddrOps.GoodKeeps` | src/addrman.cpp:246-312 | Recording a success keeps the invariant in every branch. |
| `AddrOps.GoodPromotes` | src/addrman.cpp:246-312 | A known address ends in tried if and only if it was there, no test is asked for, or its slot is free; otherwise it becomes a pending collision while there is room. |
| `AddrOps.GoodCollisions` | src/addrman.cpp:298-311 | A collision is only ever recorded against an occupied tried slot, and stays so. |
| `AddrOps.AddKeeps` | src/addrman.cpp:314-387 | Adding an address keeps the invariant in every branch: unroutable, known, refused, inserted over a terrible entry, dropped again. |
| `AddrOps.AddNewMeaning` | src/addrman.cpp:358-386 | A new address survives if and only if its slot is free or the holder is terrible or has another reference; it then holds exactly that slot, with one reference. |
| `AddrOps.AddLosesOnlyTerrible` | src/addrman.cpp:365-385 | The only entry an addition can remove is a terrible one whose single reference was in the slot wanted. |
| `AddrOps.AddExtends` | src/addrman.cpp:314-387 | An addition never touches the tried table or the pending collisions and never reuses an id. |
| `AddrOps.ResolvedKeeps` | src/addrman.cpp:618-677 | Settling one collision keeps the invariant and the collision property. |
| `AddrOps.ResolvedSettles` | src/addrman.cpp:618-677 | A collision stays pending if and only if it is to be kept; a promotion puts the entry into tried; otherwise the tables do not change. |
| `AddrOps.ResolvedAllKeeps` | src/addrman.cpp:618-677 | Settling all collisions, each in the state the earlier ones left behind, keeps the invariant and the collision property. |
| `AddrOps.CollisionSelectedKeepsIff` | src/addrman.cpp:679-706 | Selecting a collision keeps the invariant if and only if the entry is gone or its tried slot is occupied. |
| `AddrStale.StaleCollisionBreaks` | src/addrman.h:464-487 | Clearing does not drop pending collisions. From an empty manager: two addresses of one tried slot are added and both succeed, the manager is cleared, an address is added; all of that is consistent, the id pending from before is now that of the new entry, and the next selection breaks the invariant. |
| `AddrStale.ClashExample` | src/addrman.cpp:18-43 | There are addresses and hashes for which that run happens. |
| `AddrStale.SecondPends` | src/addrman.cpp:298-305 | Of two addresses of one tried slot the second to succeed is left pending. |
| `AddrRun.SelectKeeps` | src/addrman.cpp:679-706 | In every state a run without clearing reaches, a selection yields the tried entry in the way of the new one and changes nothing but a stale id. |
| `AddrRun.OfferedExactly` | src/addrman.cpp:542-574 | Once all positions are drawn, exactly the entries of good quality and of the network asked for are offered. |
| `AddrRun.ShuffledKeeps` | src/addrman.cpp:542-574 | Drawing at random, which swaps within vRandom, keeps the invariant. |
| `AddrRun.FailuresCountOnce` | src/addrman.cpp:389-411 | However often a peer is tried, one failure at most is counted until there is a success with some peer; exactly one if none was counted yet. |
| `AddrRun.AttemptKeeps` | src/addrman.cpp:389-411 | Recording an attempt keeps the invariant and reuses no id. |
| `AddrRun.ConnectedKeeps` | src/addrman.cpp:576-596 | Recording a connection keeps the invariant and reuses no id. |
| `AddrRun.SetServicesKeeps` | src/addrman.cpp:598-616 | Updating the services of a peer keeps the invariant and reuses no id. |
| `AddrMan.AddrMan.constructor` | src/addrman.h:464-487 | A new manager is empty and consistent. |
| `AddrMan.AddrMan.Find` | src/addrman.cpp:112-125 | Finds an address exactly if it is indexed, and then its entry exists. |
| `AddrMan.AddrMan.Create` | src/addrman.cpp:127-139 | Adds the entry to all three indexes under a fresh id; the effect on the tables and maps is that of the specification state. |
| `AddrMan.AddrMan.SwapRandom` | src/addrman.cpp:141-161 | Exchanges two positions of vRandom and the back pointers of both entries. |
| `AddrMan.AddrMan.Delete` | src/addrman.cpp:163-177 | On the class with its arrays: the specified deletion. |
| `AddrMan.AddrMan.ClearNew` | src/addrman.cpp:179-194 | On the class with its arrays: the specified clearing of a slot, entry and all if it was the last reference. |
| `AddrMan.AddrMan.LeaveNewBuckets` | src/addrman.cpp:200-208 | The loop over all buckets removes exactly the references of the entry. |
| `AddrMan.AddrMan.Evict` | src/addrman.cpp:216-238 | The displaced tried entry is moved to the new table as specified; the asserts on the way hold. |
| `AddrMan.AddrMan.MakeTried` | src/addrman.cpp:196-244 | The array code does the specified move for every entry not in tried. |
| `AddrMan.AddrMan.SearchNewBuckets` | src/addrman.cpp:277-287 | The circular search finds a bucket if and only if the entry has a reference, from whatever bucket it starts. |
| `AddrMan.AddrMan.Good` | src/addrman.cpp:246-312 | The array code does the specified transition and keeps the invariant. |
| `AddrMan.AddrMan.Add` | src/addrman.cpp:314-387 | The array code does the specified transition, keeps the invariant, and reports true exactly for routable addresses not known before. |
| `AddrMan.AddrMan.File` | src/addrman.cpp:365-385 | Giving a reference in the bucket the source selects, or withdrawing a new entry that finds no place. |
| `AddrMan.TestReference` | src/addrman.cpp:344-357 | The repeated doubling is a power of two in the number of references. |
| `AddrMan.AddrMan.Attempt` | src/addrman.cpp:389-411 | Touches only the entry with that very address and port, and counts a failure only if none was since the last success anywhere. |
| `AddrMan.AddrMan.Connected` | src/addrman.cpp:576-596 | Touches only the time of the entry with that very address and port, and only if it is more than twenty minutes old. |
| `AddrMan.AddrMan.SetServices` | src/addrman.cpp:598-616 | Touches only the services of the entry with that very address and port. |
| `AddrMan.AddrMan.Resolve` | src/addrman.cpp:622-675 | The array code judges and settles one collision as specified. |
| `AddrMan.AddrMan.ResolveCollisions` | src/addrman.cpp:618-677 | The iteration over a set that shrinks under it visits the collisions in increasing order, each once. |
| `AddrMan.AddrMan.SelectTriedCollision` | src/addrman.cpp:679-706 | The specified selection, or a blank entry without collisions. The manager stays consistent if and only if the entry is gone or its tried slot is occupied; otherwise a blank entry appears under the key -1. |
| `AddrMan.AddrMan.GetAddr` | src/addrman.cpp:542-574 | Never more than the limit of number and percentage; less only if every position was drawn; what is returned are the good entries among those drawn, in order. |
| `AddrMan.AddrMan.Clear` | src/addrman.h:464-487 | An empty and consistent manager whose pending collisions are still those of before. |
| `AddrMan.AddrMan.RemoveInvalid` | src/addrman.cpp:80-110 | The sweep over both tables ends in the specified purged state, from every state in which all entries have places, and keeps a consistent state consistent. |
| `AddrPurge.PurgedMeans` | src/addrman.cpp:80-110 | Exactly the entries with valid addresses remain, each as it was; all this also for states with repeated addresses or bad times, as files can leave them. |
| `AddrPurge.PurgedNothing` | src/addrman.cpp:80-110 | With only valid addresses the sweep changes nothing. |
| `AddrPurge.PurgedKeeps` | src/addrman.cpp:80-110 | The purged state satisfies the full invariant, for every consistent state. |
| `AddrPurge.TriedRemovedKeeps` | src/addrman.cpp:97-107 | Taking a tried entry out of table, indexes and counter keeps everything that does not depend on addresses and times, and leaves the index by address as the repetitions make it. |
| `AddrMan.AddrMan.Serialize` | src/addrman.h:233-296 | The numbering loops and bucket loops write the specified file, for every order in which the map may be traversed. |
| `AddrMan.AddrMan.SaveTable` | src/addrman.h:255-274 | The entries of one table are written once each, numbered in order of writing, and as many as the counter says: the asserts hold. |
| `AddrMan.AddrMan.SaveBucket` | src/addrman.h:275-288 | A bucket is written as the numbers of its entries, in order of position. |
| `AddrMan.AddrMan.Unserialize` | src/addrman.h:299-462 | Rejects exactly the files whose counts exceed the tables; any other file leaves the specified state, and that is consistent if and only if the file is loadable. |
| `AddrMan.AddrMan.LoadNewTable` | src/addrman.h:351-359 | The entries of the new table are numbered as written. |
| `AddrMan.AddrMan.LoadTriedTable` | src/addrman.h:361-380 | Each tried entry goes to its hashed slot, or is lost if that is taken. |
| `AddrMan.CollectEntries` | src/addrman.h:382-397 | Exactly the references that name an entry of the new table are kept, bucket by bucket. |
| `AddrMan.AddrMan.PlaceEntries` | src/addrman.h:417-442 | Each reference goes to its old bucket, or to that of the source, if a slot is free and the entry may have more. |
| `AddrMan.AddrMan.Prune` | src/addrman.h:444-454 | Deletes the entries that found no place, in whatever order. |
| `AddrRead.ReadConsistentIff` | src/addrman.h:351-461 | For every file, map of groups and order of traversal: what is left after loading, pruning and purging is consistent if and only if the key is not zero and every entry that stays has its times in range, has been connected to if tried, and has its address alone among all entries read. Which entries stay is told from the file: seats are dealt out in order, late claims to a tried slot are lost, invalid addresses go. |
| `AddrRead.ReadIs` | src/addrman.h:351-461 | Exactly the entries that the file lets stay are there at the end, with the numbers, times and tables the file gives them. |
| `AddrRead.ReadableLoadable` | src/addrman.h:351-461 | A file without repeated addresses, with times in range and tried entries connected to, is always loadable, whatever it says about buckets. |
| `AddrRead.AllStayLoadable` | src/addrman.h:351-461 | If all its entries stay, a file is loadable if and only if it is of that kind. |
| `AddrRead.SeatsAre` | src/addrman.h:399-442 | The new table comes to hold exactly the seating plan computed from the file alone. |
| `AddrRead.TriedsAre` | src/addrman.h:361-380 | Of the tried entries exactly those are lost that want the slot of an earlier one; the others are numbered in order. |
| `AddrDisk.ConsistentFrom` | src/addrman.cpp:463-539 | A state in which all entries have places passes the consistency check if and only if its key is not zero, its times are in range and no entry shares its address with another that was ever read, be it gone. |
| `AddrRead.RepeatedAddressBreaks` | src/addrman.h:351-379 | A file with one valid address in both tables leaves an inconsistent manager, though its second entry alone is fine. |
| `AddrRead.RepeatedInvalidPasses` | src/addrman.h:456-461 | With an invalid address the same file leaves a consistent one. |
| `AddrRead.RepeatedTriedPasses` | src/addrman.h:361-380 | So does a file that repeats a tried entry, as the second finds its slot taken. |
| `AddrDisk.PlacedKeeps` | src/addrman.h:417-442 | Each placement keeps everything that does not depend on addresses and times, whatever bucket the file names. |
| `AddrDisk.PrunedKeeps` | src/addrman.h:444-454 | Pruning deletes entries without a place only, and every one it visits; the others stay as they were. |
| `AddrRestore.CountersWritten` | src/addrman.h:249-274 | The counters written are the numbers of entries that follow, and never exceed what reading accepts. |
| `AddrRestore.FileReadable` | src/addrman.h:233-296 | A file written from a consistent state names no address twice and only connected peers as tried. |
| `AddrRestore.RestoredExactly` | src/addrman.h:399-442 | Reading back with the same asmap puts every entry of both tables into the same bucket and position, with the same reference count, up to renumbering; nothing is lost or pruned. |
| `AddrPurge.FileRoundTrip` | src/addrman.h:233-462 | The whole way out and back, purge included, is the identity up to renumbering, for every consistent state with valid addresses and every traversal order. |
| `CoinsRun.RunRefines` | src/coins.cpp:40-236 | For a stack of caches of any depth: a run of fetches, additions, spends, uncachings and flushes that is allowed on plain maps never throws, and at the end every layer shows exactly the plain map of the same run. |
| `CoinsRun.EveryRunFourStates` | src/coins.h:115-128 | In every allowed run over a database every entry of every layer is in one of four flag states; of the five documented ones the state spent, FRESH and not DIRTY never arises. |
| `CoinsRun.StepRefines` | src/coins.cpp:40-236 | The same for each operation at the top of the stack, for all layers at once. |
| `CoinsModel.FetchedKeeps` | src/coins.cpp:40-55 | Fetching through any number of layers changes no layer’s view and keeps all flags true. |
| `CoinsModel.FetchedAnswers` | src/coins.cpp:40-64 | After a fetch the top cache alone answers for the outpoint. |
| `CoinsModel.AddedKeeps` | src/coins.cpp:66-98 | An allowed addition never throws, keeps the flags true and adds exactly that coin to the view, or nothing if it is unspendable. |
| `CoinsModel.AddedKeepsIff` | src/coins.cpp:66-98 | Ruling out an overwrite is right if and only if the view shows no coin there: otherwise it throws or leaves a false FRESH flag. |
| `CoinsModel.MisappliedFreshRevives` | src/coins.cpp:66-98 | What a false FRESH flag does: a coin that has been spent shows again. |
| `CoinsModel.SpentKeeps` | src/coins.cpp:119-133 | A spend removes exactly that coin from the view and leaves all layers below alone. |
| `CoinsModel.SpentStaysCached` | src/coins.cpp:119-133 | A database coin, once spent, stays cached although no view shows it: the input on which a second spend reports success. |
| `CoinsModel.FetchedHolds` | src/coins.cpp:40-55 | A fetch leaves an entry if and only if there was one or the view shows the coin; one that the view does not show is spent. |
| `CoinsModel.UncachedKeeps` | src/coins.cpp:229-236 | Uncaching changes no view at all. |
| `CoinsModel.BatchWrittenKeeps` | src/coins.cpp:166-220 | Taking over a child’s entries never throws and makes the view that of the child. |
| `CoinsModel.NeverMisapplied` | src/coins.cpp:190-198 | The FRESH-misapplied test never fires in a consistent stack. |
| `CoinsModel.MergedCacheView` | src/coins.cpp:166-220 | All combinations of flags on both sides merge to an entry with true flags that shows what the child showed. |
| `CoinsModel.MergedDbView` | src/txdb.cpp:108-119 | Writing only the dirty entries to the database shows what the cache showed. |
| `CoinsModel.FlushedKeeps` | src/coins.cpp:222-227 | A flush leaves the top view as it is and makes the parent’s view equal to it. |
| `CoinsView.CoinsView.FetchCoin` | src/coins.cpp:40-55 | The recursive fetch over linked caches does the specified step and keeps the memory account exact. |
| `CoinsView.CoinsView.GetCoin` | src/coins.cpp:57-64 | Returns the coin the view shows, if it shows one. |
| `CoinsView.CoinsView.HaveCoin` | src/coins.cpp:146-149 | True exactly if the view shows the coin. |
| `CoinsView.CoinsView.AccessCoin` | src/coins.cpp:137-144 | The coin the view shows, or a spent one. |
| `CoinsView.CoinsView.AddCoin` | src/coins.cpp:66-98 | Throws exactly in the specified case and else does the specified step; an allowed call always succeeds and keeps flags and memory account right. |
| `CoinsView.CoinsView.SpendCoin` | src/coins.cpp:119-133 | Does the specified step. Reports success if and only if the coin was cached, spent or not, or the view showed it; hands out the coin the view showed, and a spent one otherwise. |
| `CoinsView.CoinsView.Uncache` | src/coins.cpp:229-236 | Drops an unmodified entry, and its memory from the account. |
| `CoinsView.CoinsView.BatchWrite` | src/coins.cpp:166-220 | In whatever order the entries come: throws exactly if some FRESH flag is misapplied, and else merges all of them and keeps the memory account exact. |
| `CoinsView.CoinsView.MergeEntries` | src/coins.cpp:167-217 | The loop that merges and erases; its outcome does not depend on the order. |
| `CoinsView.CoinsView.WriteDatabase` | src/txdb.cpp:108-119 | The loop writes and erases exactly the dirty entries. |
| `CoinsView.CoinsView.Flush` | src/coins.cpp:222-227 | Always succeeds on a consistent stack, writes through and empties the cache. |
| `CoinsView.CoinsView.AddCoins` | src/coins.cpp:108-117 | The view gains exactly the spendable outputs of the transaction; no other layer changes. |
| `CoinsView.CoinsView.HaveInputs` | src/coins.cpp:254-264 | True exactly if the view shows every input; no view changes. |
| `CoinsView.CoinsView.GetValueIn` | src/coins.cpp:242-252 | The sum of the values the view shows for the inputs; no view changes. |
| `CheckQueue.EveryWaitIsRight` | src/checkqueue.h:68-129 | Over every interleaving of a master and any number of workers, spurious wakeups included: whenever Wait returns, its result is the conjunction of all checks added since the last return, true means that each of them ran exactly once, and everything is idle and reset. |
| `CheckQueue.WaitVerdict` | src/checkqueue.h:90-98 | The same for any state that satisfies the invariant; in no case does a check run twice. |
| `CheckQueue.MasterAwaits` | src/checkqueue.h:79-102 | No lost wakeup: if the master sleeps without a pending notification, the queue is empty, work is outstanding, and some worker holds it. |
| `CheckQueue.NeverStuck` | src/checkqueue.h:75-128 | While the master waits, some thread can take a step that is not a spurious wakeup. |
| `CheckQueue.EveryWaitReturns` | src/checkqueue.h:75-128 | Wait returns: a schedule of thread steps without spurious wakeups, from any state inside Wait, that cannot be continued contains the step at which Wait returns, and its length is bounded in advance. |
| `CheckQueue.RunsEnd` | src/checkqueue.h:75-128 | Without new checks and spurious wakeups every schedule is finite, with a bound known in advance. |
| `CheckQueue.InitialInv` | src/checkqueue.h:136-157 | Holds at the start, with any number of workers. |
| `CheckQueue.AddedKeeps` | src/checkqueue.h:166-178 | Adding checks, whichever workers are woken, keeps: nTodo counts the queue and all batches in flight, nIdle the sleepers, nTotal the threads inside, and fAllOk with the batches’ flags tells of every failure so far. |
| `CheckQueue.CalledKeeps` | src/checkqueue.h:160-163 | Entering Wait keeps the same accounts. |
| `CheckQueue.RanOneKeeps` | src/checkqueue.h:123-127 | Running one check outside the lock, or skipping it after a failure, keeps the same accounts. |
| `CheckQueue.EnteredKeeps` | src/checkqueue.h:76-122 | The critical section, be it clean-up, return, going to sleep or taking a batch, keeps the same accounts, and its counters never go below zero. |
| `CheckQueue.EnteredProgress` | src/checkqueue.h:76-122 | Every pass through the critical section brings the end closer, except a spurious wakeup, which changes nothing. |
| `CheckQueue.RanOneProgress` | src/checkqueue.h:123-127 | Every check run brings the end closer. |
| `CheckQueue.BatchSize` | src/checkqueue.h:107-112 | A batch is never empty and never more than is queued. |
| `CuckooModel.EveryRun` | src/cuckoocache.h:288-479 | After any run of insertions and lookups on a fresh cache: every live element is found, only the blank value and inserted elements are ever found, and live current-epoch entries plus the counter stay within epoch_size + max(1, epoch_size/16). |
| `CuckooModel.EpochSizeExactly` | src/cuckoocache.h:347-348 | The epoch size is 45% of the slots if and only if 45 times their number is below 2^32. |
| `CuckooModel.EpochSizeWraps` | src/cuckoocache.h:347-348 | Inputs where it is not: epochs of 1 element at 95443718 slots, and of 4259 instead of 42953932 at 95453184. |
| `CuckooModel.EveryRunShare` | src/cuckoocache.h:184-191 | Where the epoch size does not wrap, live current-epoch entries plus the counter stay, in every run, within 45% of the slots, rounded down and at least one, plus a sixteenth of that, at least one; from 36 slots on within 47.8125% of the slots, 17/16 of the 45% meant. |
| `CuckooModel.EveryRunSmaller` | src/cuckoocache.h:184-191 | Where it wraps, they are held to the smaller bound that the wrapped size gives, at least 2^32/100 below the size meant. |
| `CuckooModel.InsertedConserves` | src/cuckoocache.h:387-440 | After the epoch check an insertion adds the element and loses at most one, which may be the new one; an element already there costs nothing. |
| `CuckooModel.InsertedIntoFree` | src/cuckoocache.h:406-415 | With one of its eight slots free nothing is lost. |
| `CuckooModel.InsertedKeeps` | src/cuckoocache.h:392-440 | Every live element keeps sitting in one of its own eight slots, and the epoch bound holds. |
| `CuckooModel.DisplacedConserves` | src/cuckoocache.h:406-439 | Along a chain of displacements of any length, what is live and what is in hand together stay the same. |
| `CuckooModel.EpochCheckedKeeps` | src/cuckoocache.h:288-320 | An epoch check drops exactly the old epoch, and only when a scan finds the new one full; the next scan comes early enough for the bound. |
| `CuckooModel.ErasedKeeps` | src/cuckoocache.h:442-479 | Erasing on lookup hides at most that element from the live ones and takes nothing out of any later lookup. |
| `CuckooModel.ContainsMeans` | src/cuckoocache.h:469-479 | A lookup succeeds if and only if one of the eight slots holds the element, erased or not. |
| `CuckooModel.ContainsLive` | src/cuckoocache.h:469-479 | Every live element in its place is found. |
| `CuckooModel.FirstVictim` | src/cuckoocache.h:416-430 | The first element displaced is in the second slot, not in the first as the comment has it. |
| `CuckooModel.Locs` | src/cuckoocache.h:242-252 | All eight slots are within the table. |
| `CuckooModel.FreshInv` | src/cuckoocache.h:339-352 | A cache just set up has nothing live and satisfies the invariant. |
| `CuckooModel.Run` | src/cuckoocache.h:392-479 | Every state along a run satisfies the invariant. |
| `CuckooCache.BytesSuffice` | src/cuckoocache.h:60-67 | The padded byte count has room for all flags if and only if the size is below 2^32 - 7. |
| `CuckooCache.BitPackedFlags.constructor` | src/cuckoocache.h:60-67 | All flags are set, as many as fit the bytes. |
| `CuckooCache.BitPackedFlags.Set` | src/cuckoocache.h:90-93 | Sets one flag and leaves the others, in a packed array. |
| `CuckooCache.BitPackedFlags.Unset` | src/cuckoocache.h:101-104 | Clears one flag and leaves the others. |
| `CuckooCache.BitPackedFlags.IsSet` | src/cuckoocache.h:111-114 | Reads one flag. |
| `CuckooCache.Cache.constructor` | src/cuckoocache.h:339-352 | Setting up gives the specified fresh cache, two slots at least, if and only if the size is below 2^32 - 7; otherwise there is no byte of flags at all. |
| `CuckooCache.Cache.EpochCheck` | src/cuckoocache.h:288-320 | The counting and ageing loops do the specified check. |
| `CuckooCache.Cache.CountRecent` | src/cuckoocache.h:294-299 | Counts the live elements of the current epoch. |
| `CuckooCache.Cache.AgeAll` | src/cuckoocache.h:305-309 | The old epoch is erased and the current one becomes old. |
| `CuckooCache.Cache.Insert` | src/cuckoocache.h:392-440 | The loops do the specified insertion and keep the invariant. |
| `CuckooCache.Cache.Displace` | src/cuckoocache.h:406-439 | The displacement loop leaves the specified table and the element dropped, if any. |
| `CuckooCache.Cache.Contains` | src/cuckoocache.h:469-479 | Answers as specified, and erases no more than the slot found. |
| `WideInt.BaseUint.constructor` | src/arith_uint256.h:35-41 | Zero, for any width. |
| `WideInt.BaseUint.Copy` | src/arith_uint256.h:43-49 | The same limbs in a fresh number. |
| `WideInt.BaseUint.Assign` | src/arith_uint256.h:51-56 | The same limbs, also when assigning to itself. |
| `WideInt.BaseUint.AssignWord` | src/arith_uint256.h:89-96 | The number is the 64-bit word. |
| `WideInt.BaseUint.Complement` | src/arith_uint256.h:70-76 | The complement is 2^BITS - 1 minus the number. |
| `WideInt.BaseUint.Negate` | src/arith_uint256.h:78-85 | The negative modulo 2^BITS. |
| `WideInt.BaseUint.Add` | src/arith_uint256.h:136-146 | The sum modulo 2^BITS, also of a number with itself; no 64-bit intermediate overflows. |
| `WideInt.BaseUint.Sub` | src/arith_uint256.h:148-152 | The difference modulo 2^BITS. |
| `WideInt.BaseUint.Increment` | src/arith_uint256.h:174-181 | The successor modulo 2^BITS. |
| `WideInt.BaseUint.Decrement` | src/arith_uint256.h:191-198 | The predecessor modulo 2^BITS. |
| `WideInt.BaseUint.MulWord` | src/arith_uint256.cpp:68-77 | The product modulo 2^BITS; no 64-bit intermediate overflows. |
| `WideInt.BaseUint.Mul` | src/arith_uint256.cpp:80-93 | The schoolbook loops give the product modulo 2^BITS. |
| `WideInt.BaseUint.AddRow` | src/arith_uint256.cpp:84-89 | One row of the product, exactly, with the carry that leaves the top limb. |
| `WideInt.BaseUint.ShiftLeft` | src/arith_uint256.cpp:34-48 | Multiplication by a power of two modulo 2^BITS, for any shift. |
| `WideInt.BaseUint.ShiftRight` | src/arith_uint256.cpp:51-65 | The floor of the division by a power of two, for any shift. |
| `WideInt.BaseUint.Div` | src/arith_uint256.cpp:96-119 | Shift and subtract gives the exact floor of the quotient for every nonzero divisor; zero is reported. |
| `WideInt.BaseUint.DivRound` | src/arith_uint256.cpp:109-116 | Each round keeps quotient * divisor + remainder and halves the bound on the remainder. |
| `WideInt.BaseUint.CompareTo` | src/arith_uint256.cpp:122-131 | The order of the numbers. |
| `WideInt.BaseUint.EqualTo` | src/arith_uint256.cpp:134-145 | Equality with a 64-bit word. |
| `WideInt.BaseUint.Bits` | src/arith_uint256.cpp:184-196 | The position of the highest bit set, or zero. |
| `WideInt.BaseUint.GetLow64` | src/arith_uint256.h:263-267 | The number modulo 2^64. |
| `WideInt.BaseUint.Truncated` | src/arith_uint256.h:307-314 | A wider number modulo the smaller size. |
| `Compact.OverflowExactly` | src/arith_uint256.cpp:242-246 | The test on mantissa and exponent holds exactly if the number does not fit in 256 bits. |
| `Compact.SetCompact` | src/arith_uint256.cpp:230-248 | The number is mantissa * 256^(exponent-3) modulo 2^256; the overflow flag says exactly whether that wrapped, the sign flag whether a nonzero number was negative. |
| `Compact.GetCompact` | src/arith_uint256.cpp:250-271 | The compact form with the fewest bytes whose top mantissa bit is free for the sign. |
| `Compact.RoundTrip` | src/arith_uint256.cpp:230-271 | Encoding and decoding only clears low bytes and never overflows. |
| `Compact.EncodedIdempotent` | src/arith_uint256.cpp:250-271 | Encoding the result again gives the same compact form. |
| `Compact.RoundedMonotone` | src/arith_uint256.cpp:230-271 | The round trip preserves the order of targets. |
| `Compact.GetBlockTrust` | src/chain.cpp:123-136 | For a valid proof-of-stake target t the trust is the floor of 2^256 / (t + 1), at least 1; 1 for proof of work; 0 for negative, zero and overflowing targets. |
| `Compact.TrustIs` | src/chain.cpp:129-135 | The quotient taken without ever forming 2^256 is that floor. |
| `Compact.TargetBound` | src/chain.cpp:123-136 | A target that does not overflow leaves room for t + 1: the divisor never wraps to zero. |
| `BlockTree.InvertsLowestOne` | src/chain.cpp:72-72 | n & (n - 1) turns the lowest one into a zero and leaves all other bits. |
| `BlockTree.InvertLess` | src/chain.cpp:72-72 | It is less than n unless n is zero. |
| `BlockTree.GetSkipHeight` | src/chain.cpp:75-83 | A skip pointer always leads further back. |
| `BlockTree.BlockIndex.GetAncestor` | src/chain.cpp:85-110 | In any tree whose skip pointers are null or built as they should be, the walk ends and finds the block reached by following pprev; null exactly for heights out of range. |
| `BlockTree.BlockIndex.BuildSkip` | src/chain.cpp:117-121 | Sets the pointer to the ancestor at the skip height, whether or not it was set, and keeps every other one right. |
| `Chain.CChain.SetTip` | src/chain.cpp:12-22 | The chain becomes exactly the root path of the new tip, although the walk stops at the first block already in place. |
| `Chain.CChain.FillDown` | src/chain.cpp:18-21 | Rewrites the part above the first agreement and nothing below. |
| `Chain.CChain.SamePath` | src/chain.cpp:12-22 | Where a chain and a path agree at one height they agree at all lower ones; so stopping early is right. |
| `Chain.CChain.ContainsMeans` | src/chain.h:496-498 | A block is in the chain if and only if it is an ancestor of the tip. |
| `Chain.CChain.ContainsPath` | src/chain.h:489-498 | With a block, its whole path is in the chain. |
| `Chain.CChain.NextMeans` | src/chain.h:501-506 | The successor is a block of the chain whose parent is the given one; only the tip and blocks off the chain have none. |
| `Chain.CChain.FindFork` | src/chain.cpp:52-61 | The highest ancestor that is in the chain; null only if none is. |
| `Chain.CChain.StepBack` | src/chain.cpp:37-44 | The index by height and the skip list give the same ancestor. |
| `Chain.CChain.GetLocator` | src/chain.cpp:24-50 | Lists the ancestors at exactly the locator heights; the stride doubles once for each block listed after the tenth, except the last. |
| `Chain.LocatorShape` | src/chain.cpp:24-50 | Locator heights fall strictly from the start to genesis; their number is H + 1 up to height 10 and 11 + ceil(log2(H - 9)) above, hence at most 12 + ceil(log2 H). |
| `Chain.StrideFits` | src/chain.cpp:36-46 | The largest stride computed fits a signed 32-bit integer if and only if the start is at most 2^30 + 9 blocks high. |
| `Chain.StridesTakenFit` | src/chain.cpp:36-46 | For heights of 31 bits every stride that is taken fits: each listed height is the one before less the stride, and only the stride computed last, which leads nowhere, can be too large. |
| `Chain.CChain.FindEarliestAtLeast` | src/chain.cpp:63-69 | The lowest block late and high enough; null only if there is none. |
| `Chain.LastCommonAncestor` | src/chain.cpp:157-172 | The highest block that is an ancestor of both. |
| `Bloom.RollingBloomFilter.Contains` | src/bloom.cpp:250-262 | Found if and only if each position of the key is also one of a key held, where the keys held are the last 2 * nEntriesPerGeneration + nEntriesThisGeneration; so none of these, and none of the last nElements, is ever missed. |
| `Bloom.MarkedExactly` | src/bloom.cpp:213-242 | After any run the filter is the plain Bloom filter of the keys held: a position is set if and only if one of them selects it. |
| `Bloom.RotatedRetains` | src/bloom.cpp:215-231 | Starting a generation takes away only keys of three generation changes ago. |
| `Bloom.RotatedAccounted` | src/bloom.cpp:215-231 | It takes all their marks away: what is left belongs to keys still held. |
| `Bloom.MarkedRetains` | src/bloom.cpp:234-241 | Marking a key takes no older key away. |
| `Bloom.MarkedAccounted` | src/bloom.cpp:234-241 | Every mark is explained by a key held, of the age its tag tells. |
| `Bloom.WipedTag` | src/bloom.cpp:222-230 | The bit-sliced mask clears exactly the positions tagged with the recycled generation, 64 at a time. |
| `Bloom.PutTag` | src/bloom.cpp:239-240 | The two updates tag one position with the generation and no other. |
| `Bloom.TwoGenerationsSuffice` | src/bloom.cpp:179-180 | Two generations hold as many keys as asked for, except for 2^32 - 1 elements, where the 32-bit sum wraps. |
| `Bloom.SomeWords` | src/bloom.cpp:190-196 | There is a word of data if and only if there is a bit and rounding up to words does not wrap. |
| `Bloom.RollingBloomFilter.constructor` | src/bloom.cpp:173-198 | A filter without keys, two generations of which hold nElements, if and only if nElements is neither 0 nor 2^32 - 1 and there is a word of data. |
| `Bloom.RollingBloomFilter.Reset` | src/bloom.cpp:270-276 | Forgets all keys. |
| `Bloom.RollingBloomFilter.Wipe` | src/bloom.cpp:222-230 | The loop clears exactly the positions tagged with the current generation. |
| `Bloom.RollingBloomFilter.Rotate` | src/bloom.cpp:215-231 | Starts the next of three generations. |
| `Bloom.RollingBloomFilter.Mark` | src/bloom.cpp:236-240 | Tags the position of a hash value and no other. |
| `Bloom.RollingBloomFilter.MarkAll` | src/bloom.cpp:234-241 | Tags all positions of the key and no others. |
| `Bloom.RollingBloomFilter.Insert` | src/bloom.cpp:213-242 | One more key is held, and when a generation is full the oldest is given up. |
| `Bloom.RollingBloomFilter.IsSet` | src/bloom.cpp:255-258 | True exactly if the position carries some generation. |
| `Bloom.FastMod` | src/bloom.cpp:209-211 | The result is within the table. |
| `Base58.DecodedEncoded` | src/base58.cpp:38-133 | Decoding an encoding gives back the bytes, if and only if the length limit admits them or there are none. |
| `Base58.EncodedDecoded` | src/base58.cpp:38-133 | Encoding what was decoded gives back the text between the spaces. |
| `Base58.NegativeLimit` | src/base58.cpp:38-85 | A limit below zero admits a text if and only if it is blank, because the limit is tested only where a digit is read. |
| `Base58Sizes.EncodeSize` | src/base58.cpp:96-98 | n bytes always fit n * 138 / 100 + 1 digits: the assert on the carry holds for every length. |
| `Base58Sizes.DecodeSize` | src/base58.cpp:51-53 | n digits always fit n * 733 / 1000 + 1 bytes. |
| `Base58.EncodeBase58` | src/base58.cpp:87-125 | Ones for the leading zero bytes, then the digits of the number. |
| `Base58.ToBase58` | src/base58.cpp:96-113 | The carry loops compute the digits of the number in place. |
| `Base58.Translate` | src/base58.cpp:114-124 | Leading zeros are skipped; the text is that of the digits. |
| `Base58.DecodeBase58` | src/base58.cpp:127-133 | Accepts exactly the texts that are digits between spaces, without a zero byte, and not too long or blank; gives their bytes. |
| `Base58.DecodeCString` | src/base58.cpp:38-85 | Accepts exactly the texts that are digits between spaces and not too long, and blank ones whatever the limit; gives their bytes. |
| `Base58.DecodeBody` | src/base58.cpp:54-71 | Stops early exactly if the whole would be refused. |
| `Radix.MulAdd` | src/base58.cpp:61-68 | Multiply and add in place, from the last digit up: the new digits and the new number of digits, with no carry left if the result fits. |
| `Base58.DigitOfChar` | src/base58.cpp:17-36 | Looking up the character of a digit gives the digit. |
| `Base58.CharOfDigit` | src/base58.cpp:17-36 | Every character with a digit is the character of that digit; so alphabet and table are inverse. |
| `Bech32.ChecksumVerifies` | src/bech32.cpp:123-147 | With its checksum any list of symbols verifies as its own encoding and not as the other; no other six symbols do that. |
| `Bech32.ThreeErrorsDetected` | src/bech32.cpp:51-53 | Up to three errors, anywhere within 1023 symbols in a row, never verify as the same encoding. |
| `Bech32.ValidTextsApart` | src/bech32.cpp:168-198 | Two different valid texts of the same length, encoding and readable part differ in at least four characters. |
| `Bech32.ErrorDetected` | src/bech32.cpp:42-133 | Changes within any six symbols in a row, single errors included, never verify as the same encoding. |
| `Bech32.EncodingFlips` | src/bech32.cpp:123-133 | Changes within six symbols in a row turn a valid list into a valid one of the other encoding if and only if they are the one set of changes that belongs to that place, whatever the list, its readable part and its encoding. |
| `Bech32.FlipExists` | src/bech32.cpp:123-133 | There is such a set of changes at every place. |
| `Bech32.DecodedEncoded` | src/bech32.cpp:152-198 | Decoding an encoding gives back encoding, readable part and symbols, if and only if the text is at most 90 characters. |
| `Bech32.EncodedDecoded` | src/bech32.cpp:152-198 | Encoding what was decoded gives back the text, in lower case. |
| `BchCode.UpToThreeDetected` | src/bech32.cpp:42-99 | Lists of equal length that differ in up to three places, all within 1023 in a row, have different checksums, from every starting remainder. |
| `BchCode.ThreeNonzero` | src/bech32.cpp:51-53 | No list with one to three symbols other than zero, within 1023 in a row, is a multiple of the generator. |
| `BchCode.IsRoot` | src/bech32.cpp:49-53 | The generator has three consecutive powers of a primitive element of the field of 1024 elements as roots. |
| `BchCode.StepRoot` | src/bech32.cpp:69-96 | Each step of the checksum multiplies the value of the remainder at each root by the root. |
| `BchField.OnlyZeros` | src/bech32.cpp:51-53 | Three equations with different powers of the primitive element have only zero as a solution. |
| `BchField.Free` | src/bech32.cpp:51-53 | No element but zero comes back after fewer than 1023 multiplications by the primitive element. |
| `BchField.Period` | src/bech32.cpp:51-53 | Every element comes back after 1023. |
| `Bech32Code.StepLinear` | src/bech32.cpp:85-96 | Each step of the checksum is linear over bits. |
| `Bech32Code.StepInjective` | src/bech32.cpp:85-96 | No step maps a nonzero 30-bit remainder to zero. |
| `Bech32Code.FoldLinear` | src/bech32.cpp:42-99 | The checksum of a difference is the difference of the checksums. |
| `Bech32Code.BurstDetected` | src/bech32.cpp:42-99 | Lists of equal length that differ within six symbols in a row have different checksums. |
| `Bech32Code.SixUnique` | src/bech32.cpp:136-147 | Six symbols are determined by the remainder they lead to. |
| `Bech32Code.StepUnstep` | src/bech32.cpp:85-96 | Every 30-bit remainder is reached by a zero symbol from a remainder that can be computed. |
| `Bech32Code.ShiftExactly` | src/bech32.cpp:42-99 | For every change of the remainder and every place there is exactly one change of six symbols that makes it. |
| `Bech32Code.CompletedRight` | src/bech32.cpp:136-147 | The symbols computed lead from any remainder to the constant wanted. |
| `Bech32.PolyMod` | src/bech32.cpp:42-99 | The loop computes the remainder of the list. |
| `Bech32.ExpandHRP` | src/bech32.cpp:108-120 | High bits, zero, low bits of the readable part. |
| `Bech32.VerifyChecksum` | src/bech32.cpp:123-133 | Tells whether the list verifies and as which encoding. |
| `Bech32.CreateChecksum` | src/bech32.cpp:136-147 | The six symbols that complete the list. |
| `Bech32.Encode` | src/bech32.cpp:152-165 | Readable part, separator and characters of the symbols with their checksum. |
| `Bech32.Decode` | src/bech32.cpp:168-198 | Refuses exactly the texts that are unprintable, of mixed case, too long, without separator, with a bad symbol or a bad checksum. |
| `Bech32.CheckCharacters` | src/bech32.cpp:169-176 | True exactly for printable text of one case. |
| `Bech32.FindLast` | src/bech32.cpp:177-177 | The position of the last separator. |
| `Bech32.ReadSymbols` | src/bech32.cpp:181-189 | The symbols of the characters, unless one has none. |
| `Bech32.SymbolOfChar` | src/bech32.cpp:17-31 | Looking up the character of a symbol gives the symbol. |
| `Bech32.CharOfSymbol` | src/bech32.cpp:17-31 | Every character with a symbol is, but for case, the character of that symbol. |
| `CompactBlocks.Reconstructed` | src/blockencodings.cpp:20-221 | A block goes through its compact form unchanged, header, signature and transactions in order, whatever the pool and the extra transactions hold, as long as none of them has the short id of another transaction of the block. |
| `CompactBlocks.CompactedWellFormed` | src/blockencodings.cpp:20-76 | The compact form of a block is never refused as malformed. |
| `CompactBlocks.Compact` | src/blockencodings.cpp:20-30 | The first transaction in full and a short id for each other one, in order, with header and signature. |
| `CompactBlocks.PartiallyDownloadedBlock.constructor` | src/blockencodings.h:135-135 | Nothing known yet. |
| `CompactBlocks.PartiallyDownloadedBlock.InitData` | src/blockencodings.cpp:50-170 | Refuses exactly the malformed messages, gives up exactly on ambiguous short ids; otherwise every position holds what it should and mempool_count is the number of short ids filled. |
| `CompactBlocks.PartiallyDownloadedBlock.Prefill` | src/blockencodings.cpp:61-77 | Accepts exactly if all positions are in range, and puts the transactions there. |
| `CompactBlocks.PlacedShape` | src/blockencodings.cpp:61-76 | Accepted positions grow strictly, and exactly one position is left for each short id. |
| `CompactBlocks.PartiallyDownloadedBlock.MapShortIds` | src/blockencodings.cpp:83-105 | The k-th short id gets the k-th empty position, one to one; fails exactly on repeated ids or an overfull bucket. |
| `CompactBlocks.PartiallyDownloadedBlock.MatchAll` | src/blockencodings.cpp:107-165 | A position is filled by a candidate with its id, and stays empty only if there is none or more than one; early exits do not matter. |
| `CompactBlocks.PartiallyDownloadedBlock.Consider` | src/blockencodings.cpp:111-127 | One candidate: fills its slot, empties it on a second match, and keeps the count of filled slots. |
| `CompactBlocks.FilledFrom` | src/blockencodings.cpp:107-165 | What the loops keep amounts to: filled by a candidate with its id, or empty because there is none or more than one. |
| `CompactBlocks.PartiallyDownloadedBlock.FillBlock` | src/blockencodings.cpp:178-221 | Too few transactions are refused, too many are refused after the fact; otherwise the gaps are filled in order and the block is judged as the block check says. |
| `CompactBlocks.PartiallyDownloadedBlock.TakeAll` | src/blockencodings.cpp:184-194 | Merges the transactions at hand and the missing ones in order of position. |
| `CompactBlocks.MergedRight` | src/blockencodings.cpp:184-194 | With the right transactions in the gaps the merge is the original list. |
| `CompactBlocks.DifferenceFormatter.Ser` | src/blockencodings.h:24-29 | Writes the gap to the last index, or refuses an index that does not grow or has no successor. |
| `CompactBlocks.DifferenceFormatter.Unser` | src/blockencodings.h:31-37 | Adds the gap in 64-bit arithmetic and refuses every wrap and every index out of range. |
| `CompactBlocks.DifferenceFormatter.SerAll` | src/blockencodings.h:18-38 | A list is written as its gaps. |
| `CompactBlocks.DifferenceFormatter.UnserAll` | src/blockencodings.h:18-38 | Gaps are read as their sums. |
| `CompactBlocks.SumsDifferences` | src/blockencodings.h:18-38 | Exactly the strictly increasing lists can be written, and reading gives them back. |
| `CompactBlocks.DifferencesSums` | src/blockencodings.h:18-38 | Whatever is read increases strictly, is in range, and would be written the same way. |
| `Amount.RoundTrip` | src/compressor.cpp:149-192 | In 64-bit arithmetic an amount comes back from its compressed form if and only if it is a multiple of ten or at most 2049638230412172402. |
| `Amount.MoneyLost` | src/compressor.h:37-37 | The documented range up to MAX_MONEY is larger than that. |
| `Amount.RoundTripBack` | src/compressor.cpp:149-192 | A compressed form comes back if and only if its expansion is below 2^64. |
| `Amount.ExpandedCompressed` | src/compressor.cpp:140-192 | On unbounded numbers expanding a compressed amount gives it back. |
| `Amount.CompressedExpanded` | src/compressor.cpp:140-192 | On unbounded numbers compressing an expanded form gives it back; so compression is a bijection. |
| `Amount.CompressAmount` | src/compressor.cpp:149-166 | The loop computes the compressed form, modulo 2^64. |
| `Amount.DecompressAmount` | src/compressor.cpp:168-192 | The loops compute the expansion, modulo 2^64. |

## Left out

- AddrMan.AddrMan.Unserialize: for files of the current format, read into an empty manager without pending collisions; version bytes, older formats and truncated streams are not modelled, and the codec of single entries is taken to be lossless.
- AddrRun.EveryRunConsistent: runs clear only while no collision is pending, for the reason given above; times are positive, as the callers' clock is. Runs that clear at any time are those of `AddrRun.Run`.
- The depth limit of the signature cache, a rounded logarithm, is a parameter.
- The fourth error that the Bech32 checksum detects within 89 symbols, a property found by search rather than one of the code's structure.
- CompactBlocks.PartiallyDownloadedBlock.InitData: for messages of at most 65535 transactions, as reading them from the wire demands (src/blockencodings.h:119), where the 16-bit positions of the map do not wrap; the hash table's bucket size is a predicate handed in; `extra_count`, a log statistic, is not modelled.
- CoinsView.CoinsView.AddCoin: after the exception only the map, not the memory account, is known, as in the code.
- Bloom.RollingBloomFilter.constructor: the number of hash functions and of bits, computed in floating point, are parameters.
- Chain.CChain.GetLocator: the stride is unbounded, whereas the last doubling overflows an `int` for starts above 2^30 + 9 (`Chain.StrideFits`), a value that is never taken as a stride (`Chain.StridesTakenFit`).
- Chain.CChain.FindEarliestAtLeast: the library's binary search is written out as a loop.
- Base58.EncodeBase58: the `int` buffer size does not overflow in the model.
- `CAddrMan::Select_` and `GetChance`: loops that end only with probability one, and floating point.
- `CCheckQueue` start and stop of threads, `CCheckQueueControl`, and memory orderings; the queue is a state machine over steps, not a class.
- `CCoinsViewCache` best-block bookkeeping, `EmplaceCoinInternalDANGER`, `ReallocateCache`; partial batches and crash markers of the coin database.
- `base_uint` in hexadecimal, as `double`, and its bitwise operators.
- `GetBlockProofEquivalentTime`, `GetLastBlockIndex`, block status flags and stake modifiers.
- The plain Bloom filter, Base58Check, script compression, block filters.
- Cryptography, scripts, consensus rules, networking, RPC, wallets and storage.
