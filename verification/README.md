# Verified models of a Bitcoin Core fork

Dafny models of the parts of this node where a fast or indexed structure has to
agree with a simple one, or where many steps have to keep a large invariant,
with proofs of what they are for. Each module follows one component; code that
updates fields in place is a class with methods, loops are loops, and each such
method is proved against a specification that does not mention its body.

- `AddrMan`, `AddrManDisk`: the address manager (two bucket tables, two maps, a
  random order, reference counts, pending collisions), against a plain value of
  what it knows, and its file format.
- `Coins`: the stack of write-back UTXO caches with dirty and fresh flags,
  against a plain map from outpoint to coin.
- `Miner`: package selection for block templates over a mempool with stale
  scores.
- `CheckQueue`: the parallel check queue as a state machine, one step per
  critical section, with one master and any number of workers.
- `RollingBloom`, `Cuckoo`: the rolling bloom filter on its bit-sliced words and
  the cuckoo cache with displacement chains and epochs.
- `PartialMerkle`, `PartialMerkleSize`: partial Merkle trees ("Partial Merkle
  branch format" of BIP 37) and the bounds on their size.
- `Arith256`, `Compact`: 256-bit limb arithmetic, compact targets, block work.
- `Chain`, `EarliestBlock`: the block tree with skip pointers, forks and
  locators, and the search for a block by time.
- `CompactBlocks` (BIP 152), `Base58`, `Net`: codecs and message framing.
- `Bech32` (BIP 173) with `Field1024`, `Bech32Roots`, `Bech32Errors`: the codec,
  and what its checksum detects as a BCH code.
- `Arithmetic`, `BinaryNumbers`, `Wrappers`: shared facts and types.

How things are modelled:

- Hash functions are arbitrary functions given to the model, reduced to bucket
  or position range as in the code; where a property needs it, they are assumed
  injective, and the property says so. Random choices and clock readings are
  arguments. What lies outside (the socket, CheckBlock, finality of a
  transaction, a score order, bucket sizes of a hash map) is an argument too.
- Machine words whose bits matter are sets of bit positions in `RollingBloom`,
  `Cuckoo` and `PartialMerkle`, limbs below 2^32 with explicit carries in
  `Arith256`, and bit vectors in `Bech32`. Wrap-around is written out where the
  code can wrap; other integers are unbounded.
- Ghost parameters (`tree`, `search`, `loose` and the like) and ghost results
  carry what a proof needs and a program does not have.
- Exceptions and failed asserts are results (`threw`, `ok`, a status) or proved
  not to happen.

Where code and comments disagree, the model follows the code:

- The cuckoo chain starts at the second place, not the first
  (src/cuckoocache.h:419, `Cuckoo.Cache.NextLoc`).
- Partial trees can have more than 2N-1 bits (src/merkleblock.h:47) and take more
  than 10 + ceil(32.25 N) bytes (src/merkleblock.h:34); `PartialMerkleSize` says when.
- The search for the earliest block by time (src/chain.h:531) may not end, or miss
  the first block; `EarliestBlock.RightIff` says when.
- One wrong character of a Bech32 string can go unnoticed when it moves the
  separator; `Bech32Errors.OneWrongCharacter` says when.
- A flush of a null best block straight into the database, or of another one than
  an interrupted write was going for, stops the node (src/txdb.cpp:94, 101); a
  cache takes any, and a null one hides the best block it had.
- The recorded fees of a package can differ from those of what is left of it
  (src/miner.cpp:299-324); `Miner.FeesExactIff` says when.
- `Clear` of the address manager keeps pending collisions.

## Model

| member | source | states |
|---|---|---|
| AddrMan.Run | src/addrman.cpp:190-614 | every run of Add, Good, Attempt, GetAddr, Connected, ResolveCollisions and SelectTriedCollision does to records, tables, random order, pending collisions and counters exactly what the same operations do to a plain value one after the other; it keeps the consistency check (all of it but that the key is not null) and the promise about pending collisions, and never empties an occupied tried slot |
| AddrMan.Apply | src/addrman.cpp:397-471 | one public operation does to the manager what it does to its value, and keeps the same invariant |
| AddrMan.AddrMan.constructor | src/addrman.h:495-498 | a new manager is consistent and its value is the empty one |
| AddrMan.AddrMan.Find | src/addrman.cpp:68-79 | finds the only record with this network address, or none exists |
| AddrMan.AddrMan.Create | src/addrman.cpp:81-91 | a new id joins all three indexes, at the end of the random order; they stay mutually inverse |
| AddrMan.AddrMan.SwapRandom | src/addrman.cpp:93-111 | swaps two places of the random order; the indexes stay inverse and no record changes but for its place; the range asserts hold |
| AddrMan.AddrMan.Delete | src/addrman.cpp:113-125 | removes exactly one record from all indexes and from nNew, the last id of the random order taking its place; its asserts are the precondition and hold at every call |
| AddrMan.AddrMan.ClearNew | src/addrman.cpp:127-140 | empties one new slot and drops one reference, or deletes the record with its last reference; every other slot is kept |
| AddrMan.AddrMan.Unlink | src/addrman.cpp:130-136 | emptying a new slot keeps reference counts exact |
| AddrMan.AddrMan.LinkNew | src/addrman.cpp:316-318 | filling an empty new slot keeps reference counts exact, for the record it hashes for |
| AddrMan.AddrMan.UnlinkAll | src/addrman.cpp:144-154 | afterwards no new bucket refers to the record and its count is zero |
| AddrMan.AddrMan.SendBack | src/addrman.cpp:160-182 | the evicted tried record ends up in the new slot it hashes to, with one reference; of the other new slots none changes, and a record that loses its last slot is gone |
| AddrMan.AddrMan.MakeTried | src/addrman.cpp:142-188 | moves a record from all its new slots to its tried slot, sending an occupant back to the new table; nothing else changes, the invariant holds again and no tried slot becomes empty |
| AddrMan.AddrMan.FindNewBucket | src/addrman.cpp:219-234 | wherever the search starts, some bucket holding the record is found, so the exit for "no bucket is found" is dead |
| AddrMan.AddrMan.Promote | src/addrman.cpp:236-251 | moves the record to its tried slot, or, exactly if the slot is taken and must be tested first, leaves all as it was; only then, and while fewer than ten are pending, the id joins the pending collisions |
| AddrMan.AddrMan.Good | src/addrman.cpp:190-252 | an unknown address changes nothing but the time of the last success; a known one is marked and ends up in its tried slot, unless it was untried and its slot is taken and must be tested first; exactly then the collision joins the pending ones, if fewer than ten; no other tried slot changes; the whole new state is that of the plain value |
| AddrMan.AddrMan.PlaceInNew | src/addrman.cpp:303-323 | the record takes the slot it hashes to exactly if that is free or held by a terrible or multiply referenced entry, and gains one reference; otherwise the tables stay, and a record without references is dropped |
| AddrMan.AddrMan.AddKnown | src/addrman.cpp:265-295 | the record learns time and services as specified; it gains one reference, in the slot for this source, exactly if the announcement is news, the stochastic test passes and the slot may be taken; otherwise nothing else changes, and no count exceeds eight |
| AddrMan.AddrMan.Refresh | src/addrman.cpp:269-276 | the record gets a newer time, less the penalty, exactly if the announcement is new enough, and more services; everything else stays |
| AddrMan.AddrMan.Draw | src/addrman.cpp:290-295 | the draw succeeds exactly if the random number is divisible by two to the number of references |
| AddrMan.AddrMan.AddUnknown | src/addrman.cpp:296-323 | an unknown address becomes a record exactly if its slot is free or held by a terrible or multiply referenced entry; it then sits in that slot as first heard, and no other record gains or changes its address |
| AddrMan.AddrMan.Add | src/addrman.cpp:254-325 | the answer is true exactly for a routable address not on record; a known record learns time and services and gains a reference exactly under the conditions of AddKnown, with all other fields kept; a new one is stored as first heard, in its slot, exactly if the slot is free or its holder is terrible or multiply referenced; the whole new state is that of the plain value |
| AddrMan.AddrMan.Attempt | src/addrman.cpp:327-347 | changes only the statistics of the record of exactly this service, and the failure count only if the last counted attempt was before the last success |
| AddrMan.AddrMan.GetAddr | src/addrman.cpp:474-493 | the answer lists the sound entries met in the order in which a shuffle with the given random numbers meets them, until the quota is full, and the random order is left shuffled that far: at most 23% and at most 2500 entries, no address twice, none terrible, and a shorter answer is complete |
| AddrMan.AddrMan.Connected | src/addrman.cpp:495-513 | changes only the time of the record of exactly this service |
| AddrMan.AddrMan.ResolveOne | src/addrman.cpp:539-585 | settled exactly if the record is gone or invalid, the holder of its slot (if any) succeeded within four hours, or was tried within four hours but not in the last minute; the record takes the slot exactly if the slot is free or its stale holder has had that chance, and nothing else changes otherwise |
| AddrMan.AddrMan.ResolveCollisions | src/addrman.cpp:537-587 | afterwards a collision of a record still there is pending exactly if its address is valid and its slot is held by an entry without success in the last four hours, and that entry has not had its chance; the new state is that of the plain value after the collisions are decided in ascending order of id |
| AddrMan.AddrMan.ResolveNext | src/addrman.cpp:539-585 | one pending collision is decided and, exactly if it is settled, taken off the list; the ones decided before stay so |
| AddrMan.AddrMan.StillDecided | src/addrman.cpp:539-585 | a record that takes its slot changes nothing about collisions decided before, over the same slot or another |
| AddrMan.AddrMan.SelectTriedCollision | src/addrman.cpp:589-614 | picks the pending collision that the random number modulo their number counts to; one whose record is gone is taken off the list and nothing is answered; otherwise the answer is the holder of its tried slot and nothing changes; for an empty slot the lookup plants a default record under -1, so the check fails afterwards exactly then; with the promise about pending collisions this never happens |
| AddrMan.Nth | src/addrman.cpp:594-598 | the element of an ordered set with so many others before it |
| AddrMan.OnlyOneNth | src/addrman.cpp:594-598 | there is only one such element |
| AddrMan.AddrMan.Clear | src/addrman.h:471-493 | everything is empty and consistent, the value is the empty one but for the pending collisions, which are kept, so the promise about them then holds exactly if there are none |
| AddrMan.SampleGoesOn | src/addrman.cpp:482-492 | one more turn of the shuffle: the entry it brings up is answered if it is sound and skipped otherwise |
| AddrMan.AddrMan.IdInContents | src/addrman.cpp:68-79 | the index by network address tells the one record of the value that has it |
| AddrMan.AddrMan.CollisionsCarryOver | src/addrman.cpp:190-252 | pending collisions stay valid under anything that keeps tried slots occupied and ids with their addresses |
| AddrMan.AddrMan.OneNewSlot | src/addrman.cpp:397-471 | changing one new slot changes the number of buckets holding an id by that slot alone |
| AddrMan.AddrMan.AfterNewSlot | src/addrman.cpp:397-471 | after one new slot and one reference count changed together, slots and records satisfy the check again |
| AddrMan.AddrMan.AfterMove | src/addrman.cpp:397-471 | after a record without references changed tables together with its own tried slot, slots and records satisfy the check again |
| AddrMan.RandomHasAllIds | src/addrman.cpp:397-471 | the random order is as long as the number of records, tried plus new |
| AddrMan.PickedMeansSound | src/addrman.cpp:474-493 | what a scan of the random order picks is sound and free of duplicates, and complete after a full scan |
| AddrManDisk.SaveAndLoad | src/addrman.h:316-469 | writing a consistent manager and reading it into another loses nothing (both loss counters are 0) and gives the same records and tables with ids renumbered in order within each table |
| AddrManDisk.Serialize | src/addrman.h:316-363 | the stream holds the new records and the tried records in id order and each bucket as numbers of its records; the two asserts on counts hold |
| AddrManDisk.Unserialize | src/addrman.h:366-469 | reading such a stream gives a consistent manager that renumbers the written one, with nothing lost |
| AddrManDisk.LoadTried | src/addrman.h:414-433 | every tried record finds its own slot free |
| AddrManDisk.LoadEntry | src/addrman.h:439-450 | every bucket entry finds its slot free and its reference count below the limit |
| AddrManDisk.RoomForEntry | src/addrman.h:439-450 | why: slots are determined by the hash, and the references read so far are a proper part of those written |
| AddrManDisk.Prune | src/addrman.h:453-463 | keeps exactly the records that sit in some slot, unchanged but for their place in the random order, counts the others and restores consistency |
| AddrManDisk.CountIsBack | src/addrman.h:435-451 | after all buckets every reference count equals the one written |
| AddrManDisk.RecordsHold | src/addrman.h:394-433 | with all records read and no bucket yet, only the new records are unplaced |
| AddrManDisk.CountsWithinLimits | src/addrman.h:386-392 | a consistent manager never exceeds the table sizes, so neither limit check throws |
| AddrManDisk.ConsistentBook | src/addrman.cpp:397-471 | what the consistency check says of the tables, as plain values |
| AddrManDisk.TriedSlotIsFree | src/addrman.h:419-421 | a tried record belongs to the one slot that held it, and no other slot held it |
| Coins.Replay | src/coins.cpp:64-241 | any run of reads, adds of coins and of whole transactions with truthful flags, spends, uncaches, best-block queries and changes, and flushes on a stack of any depth shows, at every key, what the same run on a plain map shows, and never throws; the best blocks of all layers are those of a plain list; it goes on to the end, or exactly to the first flush that an assert of the database refuses |
| Coins.Step | src/coins.cpp:64-241 | one operation is the same operation on a plain map and on the list of best blocks; it fails exactly for such a flush |
| Coins.BestBlockStays | src/coins.cpp:159-167 | with a best block to begin with, none taken away and no write interrupted, the database refuses no flush |
| Coins.FlushOfNewCache | src/txdb.cpp:94-94 | a new cache over the database, flushed at once, meets the assert |
| Coins.CoinsDB.BatchWrite | src/txdb.cpp:88-147 | the asserts fail exactly for a null best block or one that an interrupted write was not going for, changing nothing; a write that is not interrupted shows each dirty entry of the batch, and everything else as before; an interrupted one has written exactly so many of the entries, and remembers the block it was going for and the one it came from |
| Coins.CoinsDB.WriteAgain | src/txdb.cpp:96-104 | a write interrupted anywhere and done again ends as an undisturbed one |
| Coins.CoinsDB.WriteEntries | src/txdb.cpp:113-137 | the loop writes every entry, or stops after exactly so many of them, with every other key as before |
| Coins.CoinsViewCache.constructor | src/coins.cpp:58-58 | a new cache shows exactly what its base shows |
| Coins.CoinsViewCache.FetchCoin | src/coins.cpp:64-79 | changes nothing a reader of this view or of the base can observe; finds an entry exactly if there was one or the base has a coin, which then joins this layer without flags, and nothing else does |
| Coins.CoinsViewCache.GetCoin | src/coins.cpp:81-88 | returns what the view shows and changes nothing observable |
| Coins.CoinsViewCache.HaveCoinInCache | src/coins.cpp:154-157 | never claims a coin the view does not show, and is exact where there is an entry |
| Coins.CoinsViewCache.AddCoin | src/coins.cpp:90-109 | changes exactly one key, to an entry that is dirty, and fresh exactly if it was or no overwrite is possible and there was no dirty one; throws exactly when an overwrite that was ruled out hits an unspent entry of this layer; memory accounting stays exact exactly if it does not throw or the overwritten coin had no memory |
| Coins.CoinsViewCache.AddCoins | src/coins.cpp:111-120 | exactly the spendable outputs become coins, and nothing throws |
| Coins.CoinsViewCache.AddOutput | src/coins.cpp:111-120 | one output: with the overwrite check, for a coinbase, or where there is no coin, the coin is added and nothing throws |
| Coins.CoinsViewCache.SpendCoin | src/coins.cpp:122-136 | exactly one key becomes empty: a fresh entry is gone and another one dirty without coin; the base is untouched, and the coin handed out is the one that was shown |
| Coins.CoinsViewCache.Uncache | src/coins.cpp:234-241 | no reader notices; exactly an entry without dirty and fresh flag goes |
| Coins.CoinsViewCache.GetBestBlock | src/coins.cpp:159-163 | returns the best block of the stack; every layer down to the first that has one remembers it; nothing observable changes |
| Coins.CoinsViewCache.MergeEntry | src/coins.cpp:170-222 | one entry of a child: its flags and coin are merged into the entry of this layer as specified; with a truthful fresh flag the view shows it at its key and flags stay right; a caught false flag is the only failure |
| Coins.CoinsViewCache.BatchWrite | src/coins.cpp:169-225 | with truthful fresh flags the whole batch is written over the view and the throw is unreachable; it throws exactly when a fresh dirty entry meets an unspent entry |
| Coins.CoinsViewCache.MergeAll | src/coins.cpp:170-222 | the loop over the batch: same throw condition, same view, and every entry merged as specified |
| Coins.CoinsViewCache.SetBestBlock | src/coins.cpp:165-167 | only the best block changes |
| Coins.CoinsViewCache.Flush | src/coins.cpp:227-232 | the view is unchanged; it fails exactly for a flush that the database refuses, changing nothing; otherwise the base shows the same, the cache is empty, the layer below has the best block of this one, and the throw in the base is unreachable; a null best block handed to a cache is stated exactly |
| Coins.CoinsViewCache.WriteToBase | src/coins.cpp:227-229 | what the base shows, remembers, charges and holds after the batch is handed to it |
| Coins.CoinsViewCache.PutEntry | src/coins.cpp:90-136 | writing an entry whose flags are right about the base keeps all flags right and memory exact |
| Coins.CoinsViewCache.EraseEntry | src/coins.cpp:122-136 | erasing an entry shows the base again at that key and keeps memory exact |
| Coins.CoinsViewCache.LayerKeepsView | src/coins.cpp:46-54 | an unchanged layer over an unobservably changed base shows the same |
| Coins.UsageOfUpdate | src/coins.cpp:90-109 | how the sum of memory over all entries changes with one entry |
| Coins.UsageOfRemoval | src/coins.cpp:234-241 | the sum of memory without one entry |
| Miner.BlockAssembler.AddPackageTxs | src/miner.cpp:362-490 | terminates; never adds a transaction twice; every ancestor comes before its descendant; totals are exact and below the limits once anything is added; only includable transactions go in; when the candidates are used up, every one left out no longer fits as a whole package or has an unincludable ancestor; a list of where the selection stood tells the whole run: every turn skips or judges the best entry by figures on record, no earlier place was one to stop at, and the last one is, for the reason given; both counts are those of the run |
| Miner.BlockAssembler.EveryLookIsBest | src/miner.cpp:383-416 | greedy choice: with candidates in score order, at every turn each candidate is in the block, given up for good, or on record with figures that are no better than those of the entry looked at |
| Miner.BlockAssembler.EveryTurnLooks | src/miner.cpp:383-488 | every turn that does not skip looks at a best entry; it ends the selection exactly if its fees on record are below the minimum for its size, and its package joins the block, whole, exactly if they are not, it fits by its figures on record and all of it is includable |
| Miner.BlockAssembler.AddPackage | src/miner.cpp:472-488 | a tested package goes in whole, by ancestor count, within the limits; every record is again the reduced one of its origin, and the number of updates is that of descendants outside |
| Miner.BlockAssembler.TestedPackageFits | src/miner.cpp:255-263 | a package that passes on figures that cover it stays within both limits |
| Miner.BlockAssembler.constructor | src/miner.cpp:51-88 | the empty block with its reserved weight and sigops; the limit is between 4000 and 3996000, and the given one if that is |
| Miner.BlockAssembler.AddToBlock | src/miner.cpp:280-297 | a transaction whose ancestors are in keeps the block ordered and its totals exact |
| Miner.BlockAssembler.SortForBlock | src/miner.cpp:341-350 | lists the package once each, by ancestor count |
| Miner.BlockAssembler.SortedIsTopological | src/miner.cpp:341-350 | that order puts every ancestor first |
| Miner.BlockAssembler.Choose | src/miner.cpp:394-416 | the next entry is the next of the order, or the best modified one, exactly if that is better or nothing else is left; no modified entry is better than the one chosen |
| Miner.BlockAssembler.BestModified | src/miner.cpp:396-396 | a modified entry that no other one beats |
| Miner.BlockAssembler.SetAside | src/miner.cpp:436-470 | a modified entry that failed loses its record and is marked failed; another one is passed; everything before it stays dealt with, and nothing else changes |
| Miner.BlockAssembler.Include | src/miner.cpp:472-488 | a package joins the block whole and in order, within the limits; everything dealt with stays so, the entry is passed, and the records go on from what they were |
| Miner.BlockAssembler.TakeOff | src/miner.cpp:309-320 | a record is started from the cached figures or goes on from the recorded ones, and is that of its origin with one more ancestor in the block |
| Miner.FeesExactIff | src/miner.cpp:299-324 | the recorded fees of a package are the modified fees of what is left of it exactly if the fees of ancestors that were in the block before the record started, and the priorities of those included after its first one, make up for each other |
| Miner.RecordIsOff | src/miner.cpp:299-324 | how far each recorded figure is from that of what is left: by the ancestors in the block before the record started, and for fees also by the difference of modified and base fees of those included after its first one |
| Miner.RecordCovers | src/miner.cpp:309-320 | no record is below what is left of its package in size and sigops, nor above the cached figures |
| Miner.TwoParents | src/miner.cpp:309-317 | one child of two parents, all with fee 1: recorded twice its fee comes out as 1 plus the priority of the second parent; erased after a failure and started anew it comes out as 2 |
| Miner.BlockAssembler.UpdatePackagesForAdded | src/miner.cpp:299-324 | after transactions joined the block every descendant has a record; each record is exactly the one of its origin, which goes on with the ancestors that joined or starts with one of them; the count is that of all descendants outside |
| Miner.BlockAssembler.UpdateDescendants | src/miner.cpp:303-321 | the same for one transaction that joined |
| Miner.BlockAssembler.Turn | src/miner.cpp:383-488 | one turn of the loop: an entry in the block, modified or failed is skipped, and the best one otherwise judged; every turn that includes nothing leaves less to look at and the block as it is |
| Miner.BlockAssembler.Judge | src/miner.cpp:431-488 | fees on record below the minimum for the size on record end the selection; then an entry whose figures do not fit, then one with an unincludable transaction, is set aside; any other package joins the block |
| Miner.BlockAssembler.Start | src/miner.cpp:372-374 | the records of the first loop turn are those of what the block already holds, and so is the count of updates |
| Miner.BlockAssembler.Pick | src/miner.cpp:392-429 | the entry looked at is the next of the order or a modified one better than that, no modified entry is better, and its figures are those on record, which cover what is left of its package and exceed no cached one |
| Miner.BlockAssembler.OnRecordCovers | src/miner.cpp:422-429 | figures on record, cached or recorded, cover what is left of the package |
| Miner.BlockAssembler.DealtAfterPackage | src/miner.cpp:362-490 | what is in the block, waiting, or given up stays so when a package joins |
| Miner.BlockAssembler.FailedIsGivenUp | src/miner.cpp:431-470 | an entry that fails on its recorded figures is given up for good |
| Miner.CachedCovers | src/miner.cpp:422-429 | cached figures cover whatever is left of the package |
| Miner.WeightAtMost | src/miner.cpp:255-263 | weight of a set is at most four times its size |
| CheckQueue.EveryRun | src/checkqueue.h:66-158 | over every interleaving from the start: nTodo is queued plus in-flight checks, every value Wait returned is the conjunction of exactly the checks added in its round, and no check is lost or counted twice |
| CheckQueue.StepKeepsInv | src/checkqueue.h:66-158 | each critical section keeps the invariant, and a returned value is the verdict of the round |
| CheckQueue.ProceedKeepsInv | src/checkqueue.h:88-122 | what a thread does from the top of the inner loop keeps it |
| CheckQueue.DoneKeepsInv | src/checkqueue.h:77-86 | handing in a finished batch keeps it, and notifies the master when the last check is done |
| CheckQueue.AddKeepsInv | src/checkqueue.h:146-158 | adding checks keeps it, whoever is woken |
| CheckQueue.NoDeadlock | src/checkqueue.h:88-101 | a master inside Wait is never stuck: a thread has work in hand or the master has been notified |
| CheckQueue.RoundsDoNotLeak | src/checkqueue.h:89-97 | when Wait returns nothing is queued or in flight and the status is clean for the next round |
| CheckQueue.WorkRunsOut | src/checkqueue.h:66-124 | while the master waits no step adds work and every finished batch removes some |
| CheckQueue.BatchLength | src/checkqueue.h:107-107 | at least one check and no more than are queued; more than one only within the batch size and an equal share, and less than the batch size only if one more would exceed that share |
| CheckQueue.RunBatch | src/checkqueue.h:119-122 | the result is the conjunction of the batch and what was known before |
| RollingBloom.RollingBloomFilter.RemembersTheLatest | src/bloom.cpp:252-321 | after any inserts since a reset, each of the last nElements keys has a mark at all its positions |
| RollingBloom.RollingBloomFilter.Contains | src/bloom.cpp:293-305 | true exactly if every position of the key is one of a key of the current generation or the two before it; so always for a key among the last two full generations, which are at least nElements keys, and never because of older ones |
| RollingBloom.RollingBloomFilter.Insert | src/bloom.cpp:256-285 | appends the key to the history and keeps every label that of its generation, one of the last three |
| RollingBloom.RollingBloomFilter.NewGeneration | src/bloom.cpp:258-274 | exactly the positions with the label about to be reused lose it, those marked three generations back; all other labels and the history stay |
| RollingBloom.RollingBloomFilter.Wipe | src/bloom.cpp:264-273 | clears one label everywhere and no other |
| RollingBloom.RollingBloomFilter.MarkKey | src/bloom.cpp:276-284 | exactly the positions of the key get the current label; every other mark stays as it is |
| RollingBloom.RollingBloomFilter.constructor | src/bloom.cpp:216-241 | an empty filter whose two generations hold the wanted number of elements |
| RollingBloom.RollingBloomFilter.Reset | src/bloom.cpp:313-321 | an empty filter with the new tweak: no key counts any more |
| RollingBloom.RollingBloomFilter.LabelledIff | src/bloom.cpp:252-305 | after any inserts since a reset, a position carries a mark exactly if it is one of a key of the current generation or the two before it |
| RollingBloom.RollingBloomFilter.NothingAtFirst | src/bloom.cpp:313-321 | without inserts no key is found |
| RollingBloom.RollingBloomFilter.AgesOneMore | src/bloom.cpp:256-285 | ages of keys after one more insert, whether or not it starts a generation |
| RollingBloom.WipeLabel | src/bloom.cpp:264-273 | on the bit-sliced words the mask clears the reused label only |
| RollingBloom.MarkLabel | src/bloom.cpp:281-283 | marking sets the label of one position and leaves the others of the word alone |
| RollingBloom.SameLabelAgain | src/bloom.cpp:258-262 | of the last three generations only the oldest has the label of the new one |
| Arithmetic.FastMod | src/bloom.cpp:252-254 | the scaled hash is below the size |
| PartialMerkle.SerializedRoundTrip | src/merkleblock.h:88-105 | any tree built, written to bytes and read back decodes to the full root, unless two equal siblings lie over a match, and then to null; the matched ids and their indices come out in order either way; over distinct ids, with a collision-free hash, it is always the root |
| PartialMerkle.RoundTrip | src/merkleblock.cpp:116-163 | for distinct ids and a collision-free hash, the bits as built, with up to seven padding bits, decode to the root and exactly the matched ids with their indices in order, without failure flag |
| PartialMerkle.Soundness | src/merkleblock.cpp:132-163 | for arbitrary bits and hashes: if the result is the root of some list of that length, every reported pair is in that list |
| PartialMerkle.OnlyTruePairs | src/merkleblock.cpp:78-114 | a subtree that decodes to the right hash reports only true pairs |
| PartialMerkle.DecodedIsTree | src/merkleblock.cpp:132-163 | for arbitrary bits and hashes: whatever does not decode to null encodes a partial tree of the right shape, without equal siblings, that uses every hash and all flag bytes |
| PartialMerkle.DecodesTree | src/merkleblock.cpp:132-163 | for arbitrary bits and hashes that encode a partial tree: the result is its hash and exactly its matches, and null exactly if some siblings are equal or the tree was bad before |
| PartialMerkle.DecodingAnswers | src/merkleblock.cpp:132-163 | both together, as the contract of ExtractMatches has it |
| PartialMerkle.ReadIsTree | src/merkleblock.cpp:78-114 | whatever a subtree is read from without trouble is the encoding of a partial tree without equal siblings |
| PartialMerkle.ReadsTree | src/merkleblock.cpp:78-114 | reading the encoding of a partial tree consumes exactly that, gives its hash and matches, and means trouble exactly for equal siblings |
| PartialMerkle.DecodesBuilt | src/merkleblock.cpp:116-163 | a built tree decodes to null exactly if two siblings above or at a matched leaf have the same hash, whatever the ids and the hash |
| PartialMerkle.CleanIff | src/merkleblock.cpp:103-107 | a built tree has equal siblings exactly if some node over a match has two children of the same hash |
| PartialMerkle.DuplicateRejected | src/merkleblock.cpp:103-107 | a list in which a matched id and its neighbour under the same parent are equal is rejected |
| PartialMerkle.SiblingsDiffer | src/merkleblock.cpp:103-107 | over distinct ids the check for identical siblings never fires |
| PartialMerkle.EncodingIsSmall | src/merkleblock.h:31-48 | a subtree stores at most as many hashes as leaves and at most as many hashes as bits |
| PartialMerkleSize.BitCount | src/merkleblock.h:42-48 | two bits for each hash but one, and one more for every level where a matched leaf lies under a node without right child |
| PartialMerkleSize.BitBound | src/merkleblock.h:42-48 | the documented 2N-1 bits suffice exactly if no matched leaf lies under a node without right child |
| PartialMerkleSize.BitBoundFails | src/merkleblock.h:42-48 | the last of three leaves matched: four bits for two hashes |
| PartialMerkleSize.HashBound | src/merkleblock.h:36-40 | at most as many hashes as transactions, and at most one and the tree height for every match |
| PartialMerkleSize.HashesByMatches | src/merkleblock.h:36-40 | the same for every subtree |
| PartialMerkleSize.SizeBound | src/merkleblock.h:31-48 | the documented size 10 + ceil(32.25 N) is kept exactly if there are fewer than 253 bytes of flag bits, or the extra bits of lone matches leave their number of bytes as it is; both read off the match flags alone |
| PartialMerkleSize.HashCount | src/merkleblock.cpp:60-76 | one hash more than there are inner nodes with a match below and two children |
| PartialMerkleSize.HashesAtForks | src/merkleblock.cpp:60-76 | the same for every subtree |
| PartialMerkleSize.SizeBoundFails | src/merkleblock.h:31-48 | all of 1025 transactions matched: one byte more than documented |
| PartialMerkleSize.FullSubtree | src/merkleblock.cpp:60-76 | a subtree that is not the last of its level has one bit less than twice its hashes |
| PartialMerkleSize.LastSubtree | src/merkleblock.cpp:60-76 | the last subtree of a level has one more for every only child descended to |
| PartialMerkleSize.EveryLeafStored | src/merkleblock.cpp:60-76 | with every leaf matched exactly the leaves are stored |
| PartialMerkle.WidthHalves | src/merkleblock.h:66-68 | each level is half the one below, rounded up |
| PartialMerkle.NodeHasLeaf | src/merkleblock.h:66-68 | a node exists exactly if it covers a leaf |
| PartialMerkle.MatchedComplete | src/merkleblock.cpp:60-76 | the list of matches is complete and ascending |
| PartialMerkle.Pack | src/merkleblock.h:100-103 | each bit goes to its place and the padding is zero |
| PartialMerkle.PackedComesBack | src/merkleblock.h:92-103 | unpacking gives the bits back, padded to whole bytes |
| PartialMerkle.TreeHeight | src/merkleblock.cpp:121-124 | a height with at most one node, and the one below, if any, has more |
| PartialMerkle.PartialMerkleTree.TraverseAndBuild | src/merkleblock.cpp:60-76 | appends exactly the bits and hashes of the subtree |
| PartialMerkle.PartialMerkleTree.constructor | src/merkleblock.cpp:116-128 | holds the encoding of the whole tree |
| PartialMerkle.PartialMerkleTree.TraverseAndExtract | src/merkleblock.cpp:78-114 | the cursor-advancing decoder computes the recursive specification, failure flag included, which is characterised by ReadsTree and ReadIsTree |
| PartialMerkle.PartialMerkleTree.ExtractMatches | src/merkleblock.cpp:132-163 | the answer is not null only for bits and hashes that encode a partial tree without equal siblings and with nothing left over; for bits and hashes that encode one it is its hash, or null if it has equal siblings, with exactly its matches |
| Cuckoo.Cache.Insert | src/cuckoocache.h:392-440 | an element that is there stays and becomes recent, and nothing else changes; otherwise it starts a chain in which each entry goes to the first free of its places, which ends it, or to its next place and displaces the one there, at most depth_limit times; the table afterwards is the one moved along the chain, every entry with its epoch; an element with a free place is always kept and nothing is lost for it, else at most the last one of the chain is lost; kept entries of the current epoch never exceed epoch_size + max(1, epoch_size/16) |
| Cuckoo.Cache.Displace | src/cuckoocache.h:402-440 | the chain itself, and what is kept after it |
| Cuckoo.Cache.ChainGoesOn | src/cuckoocache.h:418-438 | one more displacement continues the chain |
| Cuckoo.Cache.Contains | src/cuckoocache.h:467-477 | finds exactly what is at one of its places, hence every kept element; erasing gives up that element only, and it is still found afterwards |
| Cuckoo.Cache.EpochCheck | src/cuckoocache.h:289-321 | afterwards there is room for one more entry of the current epoch; it ages exactly when the counter ran out and a scan finds the epoch full, and then gives up exactly the old epoch; counter and epoch flags are those of the specification |
| Cuckoo.Cache.Age | src/cuckoocache.h:305-311 | the old epoch may be overwritten, the current becomes the old one |
| Cuckoo.Cache.CountRecent | src/cuckoocache.h:295-300 | counts the kept entries of the current epoch |
| Cuckoo.Cache.Put | src/cuckoocache.h:406-415 | adds one element to what is kept and removes none |
| Cuckoo.Cache.Swap | src/cuckoocache.h:431-435 | exchanges one element: kept ones plus the one in hand stay the same, with their epochs |
| Cuckoo.Cache.NextLoc | src/cuckoocache.h:430-430 | the second place for an element not displaced before; otherwise the place after the first occurrence of the last one, cyclically |
| Cuckoo.Cache.constructor | src/cuckoocache.h:340-353 | an empty valid cache for any size: at least two places, all of which may be overwritten, and an epoch of 45% of them, in 32-bit arithmetic, at which the counter starts |
| Cuckoo.BitSet | src/cuckoocache.h:92-95 | sets one flag of the packed bytes and no other |
| Cuckoo.BitUnset | src/cuckoocache.h:103-106 | clears one flag and no other |
| Cuckoo.KeepsAfterWrite | src/cuckoocache.h:392-440 | what one write adds to and removes from the kept elements |
| Chain.BlockIndex.GetAncestor | src/chain.cpp:150-175 | the skip walk returns what following pprev does, and nothing exactly for heights outside the branch; it terminates and its assert holds |
| Chain.BlockIndex.BuildSkip | src/chain.cpp:182-186 | the skip pointer set is the ancestor at the skip height, so the tree stays well built |
| Chain.BlockMap.AddToBlockIndex | src/validation.cpp:3095-3131 | a known hash changes nothing; a new block joins the tree on its parent, if that is known; no ancestor of any block changes |
| Chain.NewBlock | src/validation.cpp:3104-3122 | a new block extends the tree and changes no ancestor of any block |
| Chain.GetSkipHeight | src/chain.cpp:139-148 | the skip height is below the height |
| Chain.LowestOne | src/chain.cpp:136-137 | clearing the lowest one bit takes off a power of two and leaves a multiple of the next |
| Chain.AncestorOfAncestor | src/chain.cpp:150-175 | walking back in two stages is walking back once |
| Chain.LastCommonAncestor | src/chain.cpp:220-237 | the highest block both descend from, or none if there is none; its assert holds either way |
| Chain.CChain.Contains | src/chain.h:503-506 | true exactly if the tip is the block or descends from it |
| Chain.CChain.FindFork | src/chain.cpp:96-105 | the highest block of the chain that the block is or descends from |
| Chain.CChain.GetLocator | src/chain.cpp:74-94 | lists the hashes of the ancestors at the locator heights, as many as the height says |
| Chain.LocatorDescends | src/chain.cpp:74-94 | these heights start at the block, strictly descend and end at genesis |
| Chain.LocatorStartsDense | src/chain.cpp:74-94 | the first of them follow without gap |
| Chain.LocatorIsShort | src/chain.cpp:74-94 | the exact length of a whole locator: one more than the height up to height 10, and from there on 11 more than the binary length of the height less 10 |
| Chain.DoublingPart | src/chain.cpp:81-91 | with q steps to go, of a length that doubles each time, the binary length of q says how many heights are left |
| Chain.DensePart | src/chain.cpp:81-91 | up to the eleventh every block is listed |
| EarliestBlock.RightIff | src/chain.cpp:123-134 | the exact condition under which the search gives the earliest late enough block: for a tip late enough, that the blocks at half the height, a quarter and so on down to the first all are |
| EarliestBlock.EndsIff | src/chain.cpp:127-132 | the loop ends exactly under that condition |
| EarliestBlock.NeverMeets | src/chain.cpp:129-132 | with a block too early at the lower height the two heights never meet |
| EarliestBlock.EndsOneLater | src/chain.cpp:129-132 | the loop ends exactly if it ends from its next state |
| EarliestBlock.EndsAtFirst | src/chain.cpp:127-133 | where it ends it has found the first block |
| EarliestBlock.OnlyTheFirst | src/chain.cpp:123-134 | the only block ever found is the first one, and only for its own time |
| EarliestBlock.Find | src/chain.cpp:123-134 | on a chain of blocks, with any limit on the turns of the loop: it finishes exactly if the loop is not reached or ends within the limit, and then gives the block of the outcome above |
| EarliestBlock.Loop | src/chain.cpp:127-132 | the loop goes through the states above, for the times of the blocks that following pprev finds |
| EarliestBlock.TimeAt | src/chain.cpp:131-131 | the time at a height is that of the ancestor of the tip there |
| EarliestBlock.WrongAnswers | src/chain.cpp:123-134 | two blocks for which one time is searched without end and another has no block found |
| Arith256.ArithUint256.Add | src/arith_uint256.h:134-144 | sum modulo 2^256, also of a number with itself |
| Arith256.ArithUint256.Increment | src/arith_uint256.h:172-179 | plus one modulo 2^256 |
| Arith256.ArithUint256.Complement | src/arith_uint256.h:68-74 | 2^256 - 1 minus the number |
| Arith256.ArithUint256.Negate | src/arith_uint256.h:76-83 | negative modulo 2^256 |
| Arith256.ArithUint256.Subtract | src/arith_uint256.h:146-150 | difference modulo 2^256 |
| Arith256.ArithUint256.MultiplySmall | src/arith_uint256.cpp:58-67 | product with a 32-bit number modulo 2^256 |
| Arith256.ArithUint256.Multiply | src/arith_uint256.cpp:70-83 | product modulo 2^256; no 64-bit intermediate overflows |
| Arith256.ProductRow | src/arith_uint256.cpp:74-81 | what a row of the product cuts off is a multiple of 2^256 |
| Arith256.ArithUint256.ShiftLeft | src/arith_uint256.cpp:24-39 | product with the power of two modulo 2^256, for any shift |
| Arith256.ArithUint256.ShiftRight | src/arith_uint256.cpp:41-56 | floor of the quotient by the power of two, for any shift |
| Arith256.ArithUint256.Divide | src/arith_uint256.cpp:86-109 | floor division; fails exactly for divisor zero, and the number is then zero |
| Arith256.ArithUint256.SetBit | src/arith_uint256.cpp:100-103 | sets a quotient bit above which everything set so far lies |
| Arith256.ArithUint256.CompareTo | src/arith_uint256.cpp:112-121 | compares the numbers |
| Arith256.ArithUint256.EqualTo | src/arith_uint256.cpp:124-135 | equality with a 64-bit number |
| Arith256.ArithUint256.Bits | src/arith_uint256.cpp:174-187 | the number of binary digits |
| Arith256.ArithUint256.GetLow64 | src/arith_uint256.h:246-250 | the number modulo 2^64 |
| Arith256.ArithUint256.constructor | src/arith_uint256.h:56-64 | the number given |
| Arith256.ArithUint256.Copy | src/arith_uint256.h:41-47 | the same number in limbs of its own |
| BinaryNumbers.OrDisjoint | src/arith_uint256.cpp:31-36 | an "or" of parts without a common bit is their sum |
| Compact.SetCompact | src/arith_uint256.cpp:206-224 | the value is mantissa times power of 256 modulo 2^256; overflow is set exactly when that product is at least 2^256; negative exactly for a nonzero value with the sign bit |
| Compact.OverflowIsExact | src/arith_uint256.cpp:219-222 | the three tested cases are exactly those of at least 2^256 |
| Compact.GetCompact | src/arith_uint256.cpp:226-247 | both asserts hold; the result decodes to the number with its low bytes cut off, has the canonical length, and the sign bit exactly for a requested sign of a nonzero mantissa |
| Compact.ThroughCompact | src/arith_uint256.cpp:206-247 | to compact form and back cuts off low bytes and sets no flag |
| Compact.TruncatedBelow | src/arith_uint256.cpp:226-247 | cutting off goes down by less than the bytes cut |
| Compact.TruncatedMonotone | src/arith_uint256.cpp:226-247 | cutting off is monotone |
| Compact.TargetsAreExact | src/arith_uint256.cpp:206-247 | nothing is lost of a number that came from a compact form |
| Compact.GetBlockProof | src/chain.cpp:188-201 | for every 32-bit nBits the division is not by zero and the result is the floor of 2^256/(target+1), or 0 for a negative, overflowing or zero target |
| Compact.WorkByComplement | src/chain.cpp:196-200 | dividing the complement and adding one is dividing 2^256 |
| Compact.TargetIsNotMax | src/chain.cpp:188-201 | no target has all 256 bits set |
| CompactBlocks.SendBlock | src/test/blockencodings_tests.cpp:59-115 | throws exactly for more than 65535 transactions; otherwise a block sent in compact form is rebuilt from what the receiver knows and the missing transactions in order, if no known transaction has the short id of another one of the block; it succeeds exactly if the first transaction is not null, short ids are distinct and no hash bucket is crowded |
| CompactBlocks.PartiallyDownloadedBlock.InitData | src/blockencodings.cpp:49-169 | exact conditions for each status; on success prefilled transactions are in place, short ids own the remaining slots in order, each of these slots holds exactly the undisputed transaction of its short id among those looked at, the two scans stop exactly where all short ids are found, and mempool_count is the number of filled ones |
| CompactBlocks.PartiallyDownloadedBlock.PlacePrefilled | src/blockencodings.cpp:59-75 | accepts exactly in-range positions of non-null transactions; these are distinct and in bounds |
| CompactBlocks.PartiallyDownloadedBlock.MapShortIds | src/blockencodings.cpp:81-103 | the i-th short id gets the i-th free slot without running off the vector; fails exactly for a repeated id or a crowded bucket |
| CompactBlocks.PartiallyDownloadedBlock.MatchKnown | src/blockencodings.cpp:105-164 | the two scans with their early exits stop exactly at the first transaction after which every slot is filled, and settle every slot |
| CompactBlocks.PartiallyDownloadedBlock.Look | src/blockencodings.cpp:110-131 | one known transaction: it fills the slot of its short id if it is the first with it; a second one of the pool empties the slot, an extra one only if it is another transaction; a slot emptied stays so, and the count is exact |
| CompactBlocks.PartiallyDownloadedBlock.FillBlock | src/blockencodings.cpp:177-211 | missing transactions fill the empty slots in order; invalid exactly if their number differs; with too few the slots before the first that gets none have been moved out, otherwise the object is spent |
| CompactBlocks.PartiallyDownloadedBlock.IsTxAvailable | src/blockencodings.cpp:171-175 | after InitData: true for a prefilled slot, and for the slot of a short id exactly if one of the transactions looked at is undisputed for it; so false if no known one has it, and true if exactly one has |
| CompactBlocks.SettledByCount | src/blockencodings.cpp:109-164 | the slot of a short id is empty if no known transaction has it and filled if exactly one has |
| CompactBlocks.SlotTouched | src/blockencodings.cpp:112-160 | a slot goes on holding exactly the undisputed transaction of its short id, whether the next one with this id is from the pool, where any second one disputes the first, or an extra one, where only another transaction does |
| CompactBlocks.AllFoundIff | src/blockencodings.cpp:128-131 | the count equals the number of short ids exactly if every slot is filled |
| CompactBlocks.Encode | src/blockencodings.cpp:19-29 | the first transaction in full and the short ids of the others in order |
| CompactBlocks.Settle | src/blockencodings.cpp:112-126 | stopping early loses nothing |
| CompactBlocks.SlotsAreTheRest | src/blockencodings.cpp:82-86 | the slots of short ids are exactly those not prefilled |
| CompactBlocks.FillsBack | src/blockencodings.cpp:183-191 | slots that agree with a block, filled with what is missing of it, give the block |
| CompactBlocks.IndexRoundTrip | src/blockencodings.h:38-68 | a 16-bit index list comes back from its coded form exactly if it is strictly increasing; whatever is decoded is strictly increasing |
| CompactBlocks.BlockTransactionsRequest.Serialize | src/blockencodings.h:63-66 | each number is the distance from the index before, in 64-bit arithmetic |
| CompactBlocks.BlockTransactionsRequest.Unserialize | src/blockencodings.h:43-61 | succeeds exactly if enough numbers are there and no number and no sum exceeds 16 bits, and then gives the sums |
| CompactBlocks.ReadsIncreasing | src/blockencodings.h:55-61 | decoded lists are strictly increasing |
| Bech32.RoundTrip | src/bech32.cpp:147-190 | Decode(Encode(hrp, v)) is (hrp, v) exactly if hrp, not empty, is printable without upper case and the string has at most 90 characters |
| Bech32.DecodedEncodesBack | src/bech32.cpp:147-190 | a string that decodes is, up to case, the encoding of what it decodes to |
| Bech32.OneWrongSymbol | src/bech32.cpp:118-125 | changing exactly one symbol always breaks the checksum |
| Bech32.OneWrong | src/bech32.cpp:37-94 | one wrong symbol changes the state for good |
| Bech32.ChecksumVerifies | src/bech32.cpp:118-139 | a created checksum verifies, whatever the values |
| Bech32.ChecksumIsUnique | src/bech32.cpp:118-139 | no other six symbols verify |
| Bech32.FeedIsLinear | src/bech32.cpp:37-94 | PolyMod is linear in state and input together |
| Bech32.FeedKeepsApart | src/bech32.cpp:37-94 | different 30-bit states stay different under the same input |
| Bech32.StepIsLinear | src/bech32.cpp:80-91 | one round is linear |
| Bech32.StepKeepsNonzero | src/bech32.cpp:80-91 | one round maps only zero to zero, so it is a bijection on 30-bit states |
| Bech32.PolyMod | src/bech32.cpp:37-94 | the loop computes the state after feeding all symbols |
| Bech32.ExpandHrp | src/bech32.cpp:103-115 | high bits, a zero, low bits |
| Bech32.CreateChecksum | src/bech32.cpp:128-139 | the loops compute the checksum of the specification |
| Bech32.VerifyChecksum | src/bech32.cpp:118-125 | the loops decide the condition of the specification |
| Bech32.Encode | src/bech32.cpp:147-156 | the loop computes the encoding of the specification |
| Bech32.Decode | src/bech32.cpp:159-190 | the loops compute the decoding of the specification, with every rejection |
| Bech32.CheckCase | src/bech32.cpp:160-167 | true exactly if all characters are printable and no two differ in case |
| Bech32.ReadValues | src/bech32.cpp:172-181 | succeeds exactly if every character after the separator is in the character set, and then gives their symbols |
| Bech32.LetterReads | src/bech32.cpp:13-26 | every letter of the character set reads back, is printable, not upper case and not the separator |
| Bech32.RevWrites | src/bech32.cpp:13-26 | a character that reads as a symbol is the letter of that symbol, up to case |
| Bech32Errors.OneWrongCharacter | src/bech32.cpp:159-190 | a valid string with one character changed, not only in case, is rejected, with an exact exception: the character was or becomes the separator, the string still has the right shape, and both readings give the same checksum state where they meet |
| Bech32Errors.UnnoticedCharacter | src/bech32.cpp:168-189 | two valid strings that differ in one character, read as a separator |
| Bech32Errors.FewWrongCharacters | src/bech32.cpp:159-190 | up to three wrong characters with the separator in place make a valid string invalid, those before the separator counting twice |
| Bech32Roots.FewWrong | src/bech32.cpp:37-94 | up to three wrong symbols within a window of 1023 always change the final state, whatever surrounds them |
| Bech32Roots.TwoWrong | src/bech32.cpp:37-94 | one or two wrong symbols less than 1023 places apart lead to different states |
| Bech32Roots.ThreeWrong | src/bech32.cpp:37-94 | one to three wrong symbols at given places less than 1023 apart lead to different states |
| Bech32Roots.ThreeSymbols | src/bech32.cpp:44-49 | the errors themselves do not cancel out modulo the generator |
| Bech32Roots.ValueOfStep | src/bech32.cpp:80-91 | the generator has three powers in a row of an element of order 1023 as roots: a round multiplies the value of the state at each of them by it |
| Bech32Roots.ValueOfThree | src/bech32.cpp:80-91 | the value that three errors leave at a root |
| Field1024.Vandermonde | src/bech32.cpp:44-49 | three terms with different locators that cancel out at three roots in a row are not there |
| Field1024.OnlyZeroStays | src/bech32.cpp:44-49 | the element has order 1023: no lower power leaves anything but 0 as it is |
| Bech32Errors.WrongSymbol | src/bech32.cpp:103-125 | every wrong symbol comes from a wrong character: one after the separator, two before it |
| Bech32Errors.OtherReading | src/bech32.cpp:118-125 | two readings of strings with the same end verify together exactly if their states agree before it |
| Bech32Errors.OtherSeparator | src/bech32.cpp:168-189 | with the separator elsewhere the string decodes exactly under the exception above |
| Bech32Errors.SameSeparator | src/bech32.cpp:168-189 | with the separator in place one wrong character is rejected |
| Bech32Errors.WrongCharacter | src/bech32.cpp:103-125 | every wrong character makes a wrong symbol |
| Base58.DecodeEncode | src/base58.cpp:34-121 | every byte string is read back from its encoding |
| Base58.EncodeDecode | src/base58.cpp:34-121 | a string that decodes is, without the spaces around it, the encoding of what it decodes to |
| Base58.MultiplyAdd | src/base58.cpp:56-63 | the carry loop multiplies and adds in place; the assert on the carry holds whenever the result fits |
| Base58.BytesFit | src/base58.cpp:93-94 | n bytes fit in n*138/100 + 1 base 58 digits |
| Base58.DigitsFit | src/base58.cpp:47-48 | n base 58 digits fit in n*733/1000 + 1 bytes |
| Base58.EncodeBase58 | src/base58.cpp:83-121 | the loops compute the encoding: a one for each leading zero byte, then the digits of the number |
| Base58.DecodeBase58 | src/base58.cpp:34-81 | the loops compute the decoding; it fails exactly for a bad character or a second word |
| Base58.WordToBytes | src/base58.cpp:46-65 | a word of base 58 digits becomes the bytes of its number |
| Base58.BytesToDigits | src/base58.cpp:92-109 | bytes become the base 58 digits of their number |
| Base58.Significant | src/base58.cpp:71-74 | without leading zeros the buffer holds the digits of the number |
| Base58.ToBaseOfNum | src/base58.cpp:34-121 | digits without leading zero are determined by the number |
| Base58.CharReads | src/base58.cpp:13-32 | every digit reads back from its character |
| Base58.DigitWrites | src/base58.cpp:13-32 | a character that reads as a digit is the character of that digit |
| Net.ReceivingNode.ReceiveMsgBytes | src/net.cpp:746-796 | the outcome is that of feeding the bytes one at a time: same messages, same partial message, failure exactly where that fails, with the messages completed before it; the complete flag is set exactly if a message was completed |
| Net.ChunksDoNotMatter | src/net.cpp:746-796 | however a stream is cut into chunks, the outcome is that of the whole stream |
| Net.ReceivingNode.ReceiveAll | src/net.cpp:746-796 | any list of chunks: the outcome of all their bytes one at a time, up to the chunk that makes the node disconnect |
| Net.Deliver | src/net.cpp:746-796 | a new connection that is handed any part of the messages another peer sent, in any chunks, receives a prefix of them without failure, and all of them once all bytes are there |
| Net.FeedPieces | src/net.cpp:746-796 | feeding two pieces is feeding their concatenation |
| Net.ReadHeader | src/net.cpp:825-854 | header bytes taken at once amount to the same bytes one by one; it takes exactly what the header still needs, and rejects exactly a complete header that does not parse or announces more than MAX_SIZE |
| Net.ReadData | src/net.cpp:856-871 | data bytes taken at once, into a buffer that grows ahead, amount to the same bytes one by one |
| Net.ReceivingNode.CompleteMessagesAreFull | src/net.h:605-610 | a complete message holds exactly as many bytes as its header says |
| Net.SendingNode.SocketSendData | src/net.cpp:890-940 | sent plus queued bytes are what was pushed, in order; sizes and offset stay exact and the asserts hold; every entry gone was taken whole; the call for the entry now at the front took less than it was offered and the offset grew by that, unless the socket is closed and nothing changed |
| Net.FlowOfTaken | src/net.cpp:905-917 | bytes taken off the front keep sent plus queued equal to pushed |
| Net.FlowOfMore | src/net.cpp:3036-3038 | queued header and data keep sent plus queued equal to pushed |
| Net.SendingNode.PushMessage | src/net.cpp:3009-3043 | the pushed bytes grow by header and data; header and, if there is any, data are queued behind what waits; with nothing waiting, what the socket takes goes out at once |
| Net.SendingNode.Took | src/net.cpp:905-917 | bytes the socket took move from queue to sent |
| Net.AllArrive | src/net.cpp:746-796 | the bytes of properly framed messages give exactly these messages with nothing left over |
| Net.OnlyPushedMessagesArrive | src/net.cpp:746-796 | whatever part of the pushed messages has been sent, and however it is cut, only these messages arrive, in order and without failure |

## Left out

- Sockets, threads, DNS, HTTP, databases, wallets, script evaluation, signature checks and consensus validation: input, output and foreign calls.
- Real hash functions and key derivation: only arbitrary or injective functions appear.
- Address manager `Select_`: it ends only with probability one and uses floating point.
- Address manager `SetServices_`, coin view `AccessCoin`, `HaveCoin`, `SetBackend`, and the byte order, comparison and hex helpers of 256-bit numbers: easy members.
- AddrMan.Run: the clause of the consistency check that the key is not null; the key is an argument that no operation changes.
- AddrManDisk.Unserialize: streams that Serialize did not write, that is other versions, other bucket counts, a wrong key size and corrupt counts, are not modelled; the stream is a record of fields, not bytes.
- Coins.CoinsDB.BatchWrite: failures of the disk and the sizes of its batches are not modelled; a write may stop after any entry.
- Coins.CoinsViewCache.AddCoin: a caller that rules out an overwrite has to be right about the base, as the code demands; heap sizes are stood in for by a function of the script length.
- Miner.BlockAssembler.AddPackageTxs: the fees tested against the minimum and ranked are those on record, cached or recorded, as in the code; they are the true ones of a package only under the condition of `Miner.FeesExactIff`: later ancestors are taken off with their base fee, and a record erased after a failure starts anew from the cached figures. The score order is any strict weak order, and which of several best entries comes first is left open.
- Bloom filter without generations, and the false positive rate of the rolling one: sizes are arguments.
- CheckQueue: checks have a fixed answer; exceptions, interruption and destruction of the queue are not modelled.
- Cuckoo.Cache.constructor: the depth limit is an argument of at least one, in place of the floating point logarithm; memory orders of the atomic flags are not modelled.
- EarliestBlock.Find: the loop is given a limit on its turns, any number, because it need not end.
- Chain: `CChain::Next` and the fork search by locator are not modelled; chain work and proof-of-stake flags of a new block are not modelled; a block is not its own parent, as its hash depends on the one of its parent; heights are unbounded, so the doubling of the locator step cannot overflow.
- CompactBlocks.PartiallyDownloadedBlock.InitData: takes blocks of at most 65535 transactions, which is what reading one from the wire lets through, or of more than the limit that it rejects itself; in between, 16-bit indexes would wrap; `extra_count` only feeds a log line and is not modelled.
- CompactBlocks.PartiallyDownloadedBlock.FillBlock: CheckBlock is an argument.
- Bech32Errors.FewWrongCharacters: nothing is said of four wrong symbols, which the comment at src/bech32.cpp:48-49 promises to detect within 89 places and for which there is no argument short of all cases; so neither of two wrong characters both before the separator, nor of several when one of them moves the separator.
- Bech32: character tables are given by cases, in which upper and lower case agree as in the table.
- Base58: strings are C strings without the terminator; the alphabet is given by ranges; the checked variants with a hash are not modelled; lengths are unbounded.
- Net.ReceivingNode.ReceiveMsgBytes: per-command byte counts, times and the message hash are not modelled.
- Net.SendingNode.PushMessage: building the header and counting bytes per command are not modelled; closing the socket after an error is outside.
- Amount compression, SipHash, limited maps, subnet matching, proof-of-stake mining and difficulty retargeting.
