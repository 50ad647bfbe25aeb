# Verified models of a Bitcoin-style node's core data structures

This project models, in Dafny, the parts of the node that have a simple meaning and a fast implementation: the
layered coin cache, the address manager, the script check queue, the cuckoo cache, 256-bit arithmetic with compact
targets, the block index with its skip list, the rolling bloom filter, compact blocks, block filters, Base58 and
Bech32. Each model follows the branches, constants and error paths of the C++ code and is proved against the
meaning the code is written for.

`dafny verify dfyconfig.toml` checks everything.

## What is proved

- **Coins.dfy** (src/coins.h, src/coins.cpp, bottom view src/txdb.cpp). A stack of write-back caches with DIRTY and
  FRESH flags behaves, for every run of operations, like a stack of plain maps from outpoint to coin. The flag rules
  are an invariant, the "FRESH flag misapplied" exception is unreachable, and the memory counter is exact.
- **AddrMan.dfy**, **AddrManCheck.dfy** (src/addrman.h, src/addrman.cpp). Every operation keeps the whole invariant
  that `Check_` looks for; `Check_` itself is modelled and accepts exactly the consistent states. A tried slot, once
  occupied, stays occupied over every run, so collision handling never meets an empty slot, unless `Clear` intervenes.
- **CheckQueue.dfy** (src/checkqueue.h). The master and worker loops are a state machine over atomic sections. In
  every interleaving, spurious wake-ups included, the books balance, `Wait` returns with the right answer, and the
  master is never asleep without work in progress. Only so many steps can move a round on, and `Wait` returns under
  every schedule that does not pass over a ready thread for ever.
- **Cuckoo.dfy** (src/cuckoocache.h). Every run is the run of a function on the slots. Insertion loses at most one element, no element sits twice, live elements are
  found, nothing is found that was not inserted, the epoch heuristic bounds the number of live elements at every
  moment of a run, and an element that is not dropped or erased outlives the next epoch's worth of insertions.
- **Limbs.dfy**, **ArithUint.dfy**, **CompactTarget.dfy** (src/arith_uint256.h, src/arith_uint256.cpp,
  src/chain.cpp). In-place limb loops against the integers modulo 2^(32 * width), shift-subtract division, compact
  targets as an approximation, and block work.
- **Chain.dfy**, **SkipSteps.dfy** (src/chain.h, src/chain.cpp). Skip-pointer search equals the parent walk and has
  an exactly known worst case, the early stop of `SetTip` is sound, fork points are highest common blocks, and
  locators are descending and logarithmic.
- **RollingBloom.dfy** (src/bloom.cpp, the side of the merge that holds `CRollingBloomFilter`). No false negatives
  for the recent keys over whole runs, no stale cell survives its generation, and the answer of a run is exactly known.
- **CompactBlock.dfy** (src/blockencodings.h, src/blockencodings.cpp). Slots, short ids and counters, up to the
  end-to-end result that a faithful receiver rebuilds the block.
- **BlockFilter.dfy** (src/blockfilter.cpp). The split multiplication, the delta list, and matching as intersection.
- **Base58.dfy** (src/base58.cpp). Buffer sizes suffice, both round trips, and the length limit.
- **Bech32.dfy**, **Bech32Detect.dfy** (src/bech32.cpp). Linearity and injectivity of the checksum step, burst
  detection, detection of up to three errors within 1023 symbols, exactness of the checksum, both round trips.
- **Numbers.dfy**, **Common.dfy**: facts about multiplication, division and powers of two, and shared types.

Hash functions are uninterpreted parameters. Times and random choices are inputs. Table sizes are parameters.

## Where code and comments differ, and where the code ends

The models follow the code.

- `SpendCoin` answers true for an outpoint whose entry is present but already spent, because it only looks for the
  entry (src/coins.cpp:123-137); `Coins.SpendTwice` gives the case.
- The comment in `cache::insert` says that the first displacement goes to the first location; the code starts at the
  second (`Cuckoo.DisplacementOrder`).
- `Add_` answers true for an unknown routable address even when the slot is taken and the entry is deleted again
  (src/addrman.cpp:262-333).
- `CAddrMan::Clear` leaves `m_tried_collisions` alone. `AddrMan.Manager.Clear` states exactly when the collision
  invariant survives this: when the set is empty. `AddrMan.StaleCollision` shows, for any id that is left in the set,
  the entry `mapInfo[-1]` that appears, and `AddrMan.ClearCorrupts` gets there from a new manager.
- `LastCommonAncestor` says that all branches meet at genesis; without a common block its loop ends with two null
  pointers, so its assertion holds and it returns null.
- `DecodeBase58` does not look at a negative length limit when nothing is decoded (`Base58.LimitExact`,
  `Base58.EmptyIgnoresLimit`).
- The `max(1, ...)` in `epoch_check` never matters: in the branch that evaluates it, `epoch_size` minus the number of
  unused entries is at least one.
- The post-condition of the packed flags promises room for every size; from 2^32 - 7 entries on the number of bytes wraps
  around to zero (`Cuckoo.BitsFull`).
- A comment in `GetLocator` calls the skip-list search O(log n). Its worst case grows with the square of the logarithm
  (`SkipSteps.SearchBound`, `SkipSteps.SearchWorst`, `SkipSteps.NotLogarithmic`). The 110 steps that the comment in
  `GetSkipHeight` reports from simulations are exact for heights below 2^18 (`SkipSteps.Documented`).
- A header that names its own hash as its parent's would become its own parent (`Chain.BlockMap.AddToBlockIndex`).
- The step of a locator overflows a 32-bit int exactly from start heights above 2^30 + 9 on (`Chain.LocatorFrom`).

## Model

| member | source | states |
|---|---|---|
| `Coins.OverlayLookup` | src/coins.cpp:49-73 | looking through a cache: an entry hides the view below, and a spent entry hides it as absent |
| `Coins.UpdateSound` | src/coins.cpp:75-107 | storing an entry changes the view at that outpoint only, and keeps the flag rules exactly if the new entry obeys them |
| `Coins.EraseSound` | src/coins.cpp:275-284 | dropping an entry shows the view below again and keeps the flag rules |
| `Coins.UsageUpdate` | src/coins.cpp:75-107 | the sum of entry sizes after storing an entry, the amount by which the counter must change |
| `Coins.UnannouncedOverwrite` | src/coins.h:122-161 | marking an entry fresh although the view below holds the coin breaks the rules: dropping it after a spend would resurrect the old coin |
| `Coins.NeverMisapplied` | src/coins.cpp:208-259 | coherent child entries never meet the 'FRESH flag misapplied' exception in the parent |
| `Coins.MergeSound` | src/coins.cpp:208-259 | merging child entries into the parent, in any order, keeps the parent's flag rules and makes its view the child's view |
| `Coins.CoinsDB.GetCoin` | src/txdb.cpp:58-60 | the bottom view answers with the stored coin; a spent coin counts as absent |
| `Coins.CoinsDB.BatchWrite` | src/txdb.cpp:95-150 | a successful write makes the stored map the written view |
| `Coins.CoinsViewCache.constructor` | src/coins.cpp:43 | an empty cache over a valid view shows that view, and adds one level to the stack of views |
| `Coins.CoinsViewCache.FetchCoin` | src/coins.cpp:49-64 | caching on read changes no view; a miss means the outpoint has no coin; over a view that reports no spent coins, found exactly if an entry was there or the view has the coin |
| `Coins.CoinsViewCache.GetCoin` | src/coins.cpp:66-73 | returns exactly the coin of the view, and the null coin if there is none |
| `Coins.CoinsViewCache.HaveCoin` | src/coins.cpp:150-166 | true exactly for the outpoints of the view, which stays the same |
| `Coins.CoinsViewCache.AddCoin` | src/coins.cpp:75-107 | throws exactly on an unannounced overwrite of a cached unspent coin; otherwise adds the coin, ignores unspendable ones, and keeps the invariant exactly if an overwrite of the view was announced |
| `Coins.CoinsViewCache.SpendCoin` | src/coins.cpp:123-137 | removes the outpoint from the view and hands out its coin; over a view that reports no spent coins the answer is true exactly if an entry was there or the view had the coin; a cached entry stays, as a spent one, exactly if it was not fresh |
| `Coins.SpendTwice` | src/coins.cpp:123-137 | spending a cached outpoint a second time still reports success if its entry was not fresh, although there is no coin, and only then over a view that reports no spent coins |
| `Coins.CoinsViewCache.Uncache` | src/coins.cpp:275-284 | drops exactly the unmodified entries and changes no view of the stack |
| `Coins.CoinsViewCache.BatchWrite` | src/coins.cpp:208-266 | throws exactly if some child entry is misapplied; otherwise the entries are the merge, whatever the order, and the memory counter is exact |
| `Coins.CoinsViewCache.Absorb` | src/coins.cpp:208-266 | from a coherent child the write never throws and the view becomes the child's |
| `Coins.CoinsViewCache.Flush` | src/coins.cpp:268-273 | never throws; on success the parent's view equals the child's, whose own view is unchanged, and the cache is empty |
| `Coins.StepTop` | src/coins.cpp:49-284 | one operation on the top cache does what it does to a stack of plain maps |
| `Coins.Run` | src/coins.cpp:49-284 | every legal run of reads, adds, spends, uncaches, flushes, new and dropped layers gives the answers and views of a stack of plain maps; it stops early only at the flush of a cache directly on the database, which is then empty |
| `AddrMan.HeldCount` | src/addrman.cpp:405-479 | changing one slot changes the number of slots an id holds by exactly that slot |
| `AddrMan.PickedSound` | src/addrman.cpp:482-505 | distinct ids give distinct addresses, all of them worth passing on, and none that is worth it is left out |
| `AddrMan.WrapCovers` | src/addrman.cpp:225-238 | the search from a random bucket visits every bucket |
| `AddrMan.Manager.SwapRandom` | src/addrman.cpp:99-117 | swaps two places of the random order and keeps positions and back pointers inverse |
| `AddrMan.Manager.Create` | src/addrman.cpp:87-97 | a new id and entry at the end of the random order, without references yet |
| `AddrMan.Manager.Delete` | src/addrman.cpp:119-131 | removes an unreferenced entry from both maps and from the random order, and counts it down |
| `AddrMan.Manager.ClearNew` | src/addrman.cpp:133-146 | frees a new slot; the entry in it loses a reference and is deleted exactly at zero |
| `AddrMan.Manager.MakeTried` | src/addrman.cpp:148-194 | moves an entry from the new table to its tried slot, and what was there back to the new slot its own source selects |
| `AddrMan.Manager.FindNewBucket` | src/addrman.cpp:225-238 | a new entry is always found in some bucket, so the 'something bad happened' exit is not taken |
| `AddrMan.Manager.Good_` | src/addrman.cpp:196-260 | updates the statistics and promotes the entry into exactly its tried slot, or records a collision when that slot is occupied and its holder must be tried first; an unknown address changes nothing but the time, and besides the entry, the holder of its slot and one evicted new entry nothing changes |
| `AddrMan.Manager.Place` | src/addrman.cpp:309-331 | the exact new table: the slot is taken if it is free, if a bad entry holds it, or if an entry with other references holds it and the id has none; an id left without references disappears, and only bad entries do otherwise |
| `AddrMan.Manager.Refresh` | src/addrman.cpp:273-302 | time and services of a known entry, and the exact condition for one more reference |
| `AddrMan.Manager.Add_` | src/addrman.cpp:262-333 | true exactly for routable unknown addresses; the exact new table and entry for known and unknown addresses; only bad new entries disappear, and no other entry changes; ids count up by one for each new address |
| `AddrMan.Manager.Attempt_` | src/addrman.cpp:335-355 | counts a failure once per last success, for a known address only |
| `AddrMan.Manager.GetAddr_` | src/addrman.cpp:482-505 | no address twice, only good ones, at most the limit, and all good ones if the limit is not reached |
| `AddrMan.Manager.Connected_` | src/addrman.cpp:507-525 | moves the time of a known address forward if it is more than twenty minutes old |
| `AddrMan.Manager.ResolveOne` | src/addrman.cpp:547-600 | one collision: dropped, kept, or resolved by promoting the challenger with the effect of Good_, exactly as the ages of the two entries say |
| `AddrMan.RecentStays` | src/addrman.cpp:564-568 | a recently successful incumbent is still in place later in the loop, so the collision against it is dropped |
| `AddrMan.Manager.ResolveCollisions_` | src/addrman.cpp:545-602 | each collision is resolved once, in some order, by the state its predecessors left; keeps the invariant and every occupied tried slot, never drops a recently successful entry, drops every collision against one, and never meets an unoccupied collision slot |
| `AddrMan.ReplacedGetsSlot` | src/addrman.cpp:566-590 | a challenger that wins and is not yet tried holds the slot it competed for |
| `AddrMan.Manager.SelectTriedCollision_` | src/addrman.cpp:604-629 | returns the incumbent of the chosen collision's slot and drops an unknown id; creates the entry -1 exactly if the slot of the chosen collision is free, which the collision invariant rules out |
| `AddrMan.Manager.Clear` | src/addrman.h:556-578 | an empty manager; the remaining collision ids are harmless exactly if there are none |
| `AddrMan.Manager.constructor` | src/addrman.h:580-583 | a new manager satisfies every invariant |
| `AddrMan.Perform` | src/addrman.cpp:196-629 | every operation with proper times keeps both invariants and every occupied tried slot, raises no alarm, and has its effect on maps, tables and collisions |
| `AddrMan.Run` | src/addrman.cpp:196-629 | every run from a new manager without a later Clear: no call raises an alarm, each call has its effect on the books, a tried slot occupied at some time is occupied at every later time, and all invariants hold |
| `AddrMan.StaleCollision` | src/addrman.h:556-578 | Clear with any id left among the collisions, then as many routable addresses as give that id again, then choosing collisions, corrupts the maps |
| `AddrMan.MeetCollision` | src/addrman.cpp:196-260 | from a new manager, two addresses that share a tried slot lead to a collision of id 0, with all invariants |
| `AddrMan.ClearCorrupts` | src/addrman.h:556-578 | so from a new manager a collision, a Clear, one more address and choosing collisions corrupt the maps |
| `AddrManCheck.CheckEntries` | src/addrman.cpp:405-442 | zero exactly if each entry is consistent with the maps, the random order and its own flags |
| `AddrManCheck.CheckTried` | src/addrman.cpp:444-459 | zero exactly if the tried entries are exactly those of the tried table, each at its place |
| `AddrManCheck.CheckNew` | src/addrman.cpp:461-471 | zero exactly if the references of each new entry are exactly its slots, each at its place |
| `AddrManCheck.Check` | src/addrman.cpp:405-479 | returns zero exactly for consistent states |
| `AddrManCheck.CheckPasses` | src/addrman.cpp:405-479 | every valid manager passes |
| `CheckQueue.SetTotal` | src/checkqueue.h:66-123 | what all threads hold, after one thread moves |
| `CheckQueue.DispatchKeeps` | src/checkqueue.h:89-109 | leaving the locked section by sleeping, taking a batch or returning keeps the books |
| `CheckQueue.FinishKeeps` | src/checkqueue.h:74-88 | settling a finished batch keeps the books, and wakes the master at zero |
| `CheckQueue.StepKeeps` | src/checkqueue.h:66-157 | every step of every thread keeps the invariant |
| `CheckQueue.ExecutionKeeps` | src/checkqueue.h:66-157 | so it holds in every state of every execution |
| `CheckQueue.Safety` | src/checkqueue.h:66-157 | nTodo is queued plus held checks, nIdle and nTotal count their threads, and a sleeping master means that a worker is working |
| `CheckQueue.WaitIsCorrect` | src/checkqueue.h:91-101 | Wait returns only when nothing is queued or held; every added check is finished, and the answer is true exactly if all of them succeeded |
| `CheckQueue.Progress` | src/checkqueue.h:66-142 | while the master waits, some thread can move the round on without a new worker or a spurious wake-up |
| `CheckQueue.StepDecreases` | src/checkqueue.h:66-142 | while the master waits, each step that moves the round on lowers the rank, a spurious wake-up does not raise it, and a new worker raises it by one |
| `CheckQueue.RoundBounded` | src/checkqueue.h:66-142 | in every run while the master waits, the steps that move the round on are at most the rank at the start plus the workers started |
| `CheckQueue.RoundEnds` | src/checkqueue.h:66-142 | such a run keeps the invariant, and one that cannot be moved on has returned from Wait |
| `CheckQueue.WaitCanReturn` | src/checkqueue.h:139-142 | from every state that satisfies the invariant there is a run of such steps, no longer than the rank, to a state outside Wait |
| `CheckQueue.SomeoneReady` | src/checkqueue.h:66-142 | while the master waits, some thread is ready: entering, notified or working; so there is no deadlock and no lost wake-up |
| `CheckQueue.ReadyStays` | src/checkqueue.h:66-142 | a ready thread stays ready until it takes a step, whatever the others do, and that step moves the round on |
| `CheckQueue.WaitReturns` | src/checkqueue.h:139-142 | under every infinite schedule from a state with the invariant, with finitely many new workers and any spurious wake-ups, in which no thread that is ready from some time on is passed over for ever, Wait returns |
| `Cuckoo.BitsSet` | src/cuckoocache.h:90-94 | setting a packed flag sets that flag and no other |
| `Cuckoo.BitsUnset` | src/cuckoocache.h:101-105 | clearing a packed flag clears that flag and no other |
| `Cuckoo.BitsFull` | src/cuckoocache.h:60-83 | the flag memory holds all flags, set, exactly up to 2^32 - 8 of them; above, the number of bytes wraps around to zero |
| `Cuckoo.BitFlags.Set` | src/cuckoocache.h:90-94 | the packed memory after bit_set, as a sequence of flags |
| `Cuckoo.BitFlags.Unset` | src/cuckoocache.h:101-105 | the packed memory after bit_unset, as a sequence of flags |
| `Cuckoo.Locs` | src/cuckoocache.h:242-252 | eight locations, all in range |
| `Cuckoo.DisplacementOrder` | src/cuckoocache.h:416-432 | displacement starts at the second location and goes on cyclically after the last one used |
| `Cuckoo.LiveStore` | src/cuckoocache.h:392-440 | storing an element replaces what was live in the slot |
| `Cuckoo.FoundIfPresent` | src/cuckoocache.h:469-479 | an element that is not at its eight locations is nowhere |
| `Cuckoo.AgedMembers` | src/cuckoocache.h:288-320 | ageing empties the current epoch and makes it the old one |
| `Cuckoo.Cache.Setup` | src/cuckoocache.h:339-352 | the first setup gives a valid cache of at least two slots, all garbage, with a full epoch counter, exactly if its flags fit the memory |
| `Cuckoo.Cache.Contains` | src/cuckoocache.h:469-479 | finds exactly the elements in the table, every live one, and none that was not inserted; erasing marks the first place that holds the element, and nothing else changes |
| `Cuckoo.Cache.EpochCheck` | src/cuckoocache.h:288-320 | the exact slots and counter; ages exactly if the counter is zero and the current epoch is full, which leaves exactly the elements of the current epoch live; leaves room for one more insertion |
| `Cuckoo.Cache.Exchange` | src/cuckoocache.h:416-439 | swapping the element in hand with a slot conserves the live elements, those of the current epoch, and the epoch counts |
| `Cuckoo.Cache.Displace` | src/cuckoocache.h:416-440 | the slots are those of the displacement chain; it drops at most one element, and every element keeps its epoch |
| `Cuckoo.Cache.Insert` | src/cuckoocache.h:392-440 | the exact slots and counter; the element joins the live ones and the current epoch, of which ageing leaves only the current epoch; at most one element is dropped, none if the element was in the table or one of its places held garbage; all invariants and bounds hold again |
| `Cuckoo.LiveSize` | src/cuckoocache.h:288-320 | the live elements are at most the live slots of both epochs |
| `Cuckoo.Run` | src/cuckoocache.h:339-479 | over every run: each operation takes the slots and the counter to exactly the next ones and answers from them; an insertion drops nothing if the element is in the table or one of its places is garbage; lookups find every live element and only what was inserted before; at most twice the epoch bound is live at any moment; ageing happens only after an epoch's worth of insertions |
| `Cuckoo.SurvivesOneAgeing` | src/cuckoocache.h:288-320 | an inserted element that is neither erased nor dropped is live until the second ageing after its insertion |
| `Cuckoo.LivesForAnEpoch` | src/cuckoocache.h:288-320 | so it is live through the next epoch_size + 1 insertions, whatever they are |
| `Cuckoo.FoundWhileFitting` | src/cuckoocache.h:392-479 | while insertions find their element in the table or a garbage place, an inserted element is found by every lookup until it is erased or more than epoch_size + 1 insertions have followed |
| `Cuckoo.EraseIsLazy` | src/cuckoocache.h:442-479 | a lookup that erases and a lookup after it give the same answer, although the element is no longer live |
| `Limbs.ValBound` | src/arith_uint256.h:27-29 | a vector of limbs stands for a number below its range |
| `Limbs.AddStep` | src/arith_uint256.h:132-142 | one limb of an addition with carry |
| `Limbs.ComplementVal` | src/arith_uint256.h:66-72 | complementing all limbs counts down from the largest number |
| `Limbs.IncrementVal` | src/arith_uint256.h:170-177 | a carry that runs through full limbs and stops adds one |
| `Limbs.RowStep` | src/arith_uint256.cpp:67-80 | one limb of a row of the schoolbook product |
| `Limbs.NoOverflow` | src/arith_uint256.cpp:55-80 | a 64-bit accumulator holds carry, limb and product |
| `Limbs.BitOrDisjoint` | src/arith_uint256.cpp:21-52 | or-ing numbers without a common bit adds them |
| `Limbs.ShlVal` | src/arith_uint256.cpp:21-35 | the limb-wise left shift multiplies by a power of two, modulo the range, for every shift |
| `Limbs.ShrVal` | src/arith_uint256.cpp:38-52 | the limb-wise right shift divides by a power of two, rounding down, for every shift |
| `Limbs.CompareVal` | src/arith_uint256.cpp:109-118 | the topmost differing limb decides the order |
| `Limbs.TopBit` | src/arith_uint256.cpp:171-183 | the topmost bit of the topmost nonzero limb bounds the number from both sides |
| `Limbs.DivideStep` | src/arith_uint256.cpp:94-103 | one round of shift-subtract division: dividend, quotient so far, and remainder below the shifted divisor |
| `ArithUint.BaseUint.AddAssign` | src/arith_uint256.h:132-142 | addition modulo the range, also of a number to itself |
| `ArithUint.BaseUint.Complement` | src/arith_uint256.h:66-72 | the largest number minus the value |
| `ArithUint.BaseUint.Increment` | src/arith_uint256.h:170-177 | plus one modulo the range |
| `ArithUint.BaseUint.Decrement` | src/arith_uint256.h:187-194 | minus one modulo the range |
| `ArithUint.BaseUint.Negate` | src/arith_uint256.h:74-81 | the negative modulo the range |
| `ArithUint.BaseUint.SubAssign` | src/arith_uint256.h:144-148 | subtraction modulo the range |
| `ArithUint.BaseUint.SetU64` | src/arith_uint256.h:85-92 | a 64-bit number as a vector |
| `ArithUint.BaseUint.GetLow64` | src/arith_uint256.h:242-246 | the value modulo 2^64 |
| `ArithUint.BaseUint.MulAssign32` | src/arith_uint256.cpp:55-64 | product with a 32-bit number, modulo the range, without 64-bit overflow |
| `ArithUint.BaseUint.MulAssign` | src/arith_uint256.cpp:67-80 | product modulo the range, without 64-bit overflow |
| `ArithUint.BaseUint.ShlAssign` | src/arith_uint256.cpp:21-35 | left shift by any amount |
| `ArithUint.BaseUint.ShrAssign` | src/arith_uint256.cpp:38-52 | right shift by any amount |
| `ArithUint.BaseUint.CompareTo` | src/arith_uint256.cpp:109-118 | -1, 0 or 1 exactly as the numbers compare |
| `ArithUint.BaseUint.EqualTo` | src/arith_uint256.cpp:121-132 | true exactly if the value is the 64-bit number |
| `ArithUint.BaseUint.Bits` | src/arith_uint256.cpp:171-183 | the number of bits: zero for zero, else the power of two above the value |
| `ArithUint.BaseUint.DivAssign` | src/arith_uint256.cpp:83-106 | the quotient rounded down; fails, leaving zero, exactly for a zero divisor |
| `CompactTarget.TooLargeExact` | src/arith_uint256.cpp:216-219 | the three overflow tests hold exactly if mantissa * 256^(exponent - 3) reaches 2^256 |
| `CompactTarget.SetCompact` | src/arith_uint256.cpp:203-221 | the low 256 bits of the magnitude; the overflow flag says exactly whether any are lost, the negative flag whether a nonzero number has the sign bit |
| `CompactTarget.GetCompact` | src/arith_uint256.cpp:223-244 | the compact word of the value, with the sign bit exactly if asked for and the mantissa is not zero; both assertions hold |
| `CompactTarget.CompactFields` | src/arith_uint256.cpp:223-244 | the mantissa of an encoding is the leading bytes of the number and never looks negative |
| `CompactTarget.RoundTrip` | src/arith_uint256.cpp:203-244 | decoding an encoding clears exactly the bytes below the mantissa, loses less than 1/2^15 of the result, sets no flag, and encodes to the same word |
| `CompactTarget.SignIgnored` | src/arith_uint256.cpp:203-221 | the sign bit does not change the magnitude |
| `CompactTarget.TargetBelowMax` | src/chain.cpp:128-134 | a valid target is never 2^256 - 1, so target + 1 does not wrap to zero |
| `CompactTarget.ProofTrick` | src/chain.cpp:130-134 | (2^256 - 1 - t) / (t + 1) + 1 is 2^256 / (t + 1), rounded down |
| `CompactTarget.GetBlockProof` | src/chain.cpp:122-135 | 2^256 / (target + 1), rounded down; zero for negative, overflowing and zero targets; the division never fails |
| `Chain.InvertLowestOneIs` | src/chain.cpp:71 | n & (n - 1) turns the lowest 1 into a 0 and changes nothing else |
| `Chain.SkipHeightSmaller` | src/chain.cpp:74-82 | skip heights are strictly smaller than the height |
| `Chain.BlockIndex.GetAncestor` | src/chain.cpp:84-109 | terminates and returns exactly what walking the parents returns, null outside 0..height; needs only that the skip pointers that are set are true ancestors; if all are set it takes Steps(height, target) rounds |
| `Chain.BlockIndex.BuildSkip` | src/chain.cpp:116-120 | the skip pointer of a block with a parent is its ancestor at the skip height |
| `Chain.BlockMap.AddToBlockIndex` | src/validation.cpp:3260-3293 | in an index grown block by block every block is linked, and every skip pointer is exact; this fails exactly for a new header that names its own hash as its parent's, which becomes its own parent at height one |
| `Chain.IndexSkips` | src/validation.cpp:3260-3293 | every block of the index has all skip pointers on its way down, so that the step counts below apply to it |
| `SkipSteps.StepsBounded` | src/chain.cpp:84-109 | the steps of a search are bounded by the number of low bits within which the two heights differ and the ones among them |
| `SkipSteps.SearchBound` | src/chain.cpp:74-109 | a search from a height below 2^n takes at most n^2 / 4 + 2n - 7 steps, for every n from 9 on |
| `SkipSteps.SearchWorst` | src/chain.cpp:74-109 | the search from 2^n - 8 to height 2 takes exactly that many |
| `SkipSteps.Documented` | src/chain.cpp:78-80 | below 2^18 no search takes more than 110 steps, and one takes 110 |
| `SkipSteps.NotLogarithmic` | src/chain.cpp:40-42 | no multiple of the number of bits of the height bounds the number of steps |
| `Chain.ActiveChain.SetTip` | src/chain.cpp:11-21 | entry i is the tip's ancestor at height i, although the loop stops at the first agreement |
| `Chain.ContainsAncestors` | src/chain.h:409-429 | a block is contained exactly if it is the tip or its ancestor; Next is its child on the chain, null exactly for the tip |
| `Chain.FindFork` | src/chain.cpp:51-60 | the highest block of the line that is in the chain; null exactly if there is none |
| `Chain.LastCommonAncestor` | src/chain.cpp:156-171 | the highest block on both lines; null exactly if there is none |
| `Chain.LocatorFrom` | src/chain.cpp:27-46 | the hashes of the ancestors at the locator heights; the step leaves a 32-bit int exactly from heights above 2^30 + 9 on |
| `Chain.GetLocator` | src/chain.cpp:23-49 | the same from a given block or from the tip; nothing for an empty chain |
| `Chain.LocatorDescends` | src/chain.cpp:23-49 | locator heights descend strictly and end at zero |
| `Chain.LocatorShort` | src/chain.cpp:23-49 | n entries need a height of at least 2^(n - 12) + 10, so at most 41 entries up to height 2^30 + 9 |
| `RollingBloom.PutBitIs` | src/bloom.cpp:283-284 | writing one bit of a word changes that bit only |
| `RollingBloom.NumberWipe` | src/bloom.cpp:266-274 | the masked wipe clears exactly the cells that carry the given generation number |
| `RollingBloom.FastMod` | src/bloom.cpp:253-255 | the reduction stays below n and its product within 64 bits |
| `RollingBloom.RollRemembers` | src/bloom.cpp:259-275 | starting a generation loses no key that must be remembered, although numbers wrap around |
| `RollingBloom.RollAccounts` | src/bloom.cpp:259-275 | no cell of a forgotten generation is left behind |
| `RollingBloom.StampRemembers` | src/bloom.cpp:278-285 | stamping a key, also over other keys' cells, makes no key be forgotten |
| `RollingBloom.StampAccounts` | src/bloom.cpp:278-285 | every set cell was written by a key no older than its generation |
| `RollingBloom.RollingBloomFilter.constructor` | src/bloom.cpp:217-242 | an empty filter, with two generations that hold nElements or one more; usable exactly unless an element or bit count is zero or wraps around in 32 bits when rounded up |
| `RollingBloom.RollingBloomFilter.Reset` | src/bloom.cpp:314-319 | forgets every key, and clears every word |
| `RollingBloom.RollingBloomFilter.Wipe` | src/bloom.cpp:264-275 | the loop over the word pairs wipes exactly one generation |
| `RollingBloom.RollingBloomFilter.Insert` | src/bloom.cpp:257-286 | keeps the two invariants and adds the key to the history |
| `RollingBloom.CellExact` | src/bloom.cpp:257-306 | a cell is set exactly if a key of the last three generations has it |
| `RollingBloom.RollingBloomFilter.Contains` | src/bloom.cpp:294-306 | true exactly if all cells are set, which is exactly if each was written by a key of the last three generations; so for every such key |
| `RollingBloom.CurrentNext` | src/bloom.cpp:259-276 | how many keys the current generation holds after one more insertion |
| `RollingBloom.InsertAll` | src/bloom.cpp:217-306 | after any inserts into a new filter each of the last nElements keys is found, and any key exactly if each of its cells was written by one of the keys of the current and the two previous generations |
| `CompactBlock.BuildMessage` | src/blockencodings.cpp:19-37 | prefilled transactions and short ids of a block |
| `CompactBlock.MessageFits` | src/blockencodings.cpp:19-37 | the message of a block whose HogEx is exactly the last transaction, if there is an MWEB block, is well formed and has the block's transaction count |
| `CompactBlock.MessagePlaces` | src/blockencodings.cpp:19-94 | its prefilled slots are right and short id i stands for transaction i + 1 |
| `CompactBlock.PartiallyDownloadedBlock.PlacePrefilled` | src/blockencodings.cpp:68-85 | accepts exactly the well-formed prefilled lists; positions are distinct and in range, and all other slots empty |
| `CompactBlock.PartiallyDownloadedBlock.MapShortIds` | src/blockencodings.cpp:91-116 | fails exactly on a crowded bucket or a collision; otherwise short ids map one-to-one, in order, onto the empty slots |
| `CompactBlock.PartiallyDownloadedBlock.Offer` | src/blockencodings.cpp:123-141 | one candidate for a slot; the count of filled slots stays exact |
| `CompactBlock.PoolMatch` | src/blockencodings.cpp:118-147 | from the memory pool a slot is filled exactly if it has one candidate |
| `CompactBlock.ExtraMatch` | src/blockencodings.cpp:149-172 | from the extra list a slot is filled exactly if all candidates agree on the witness hash |
| `CompactBlock.PartiallyDownloadedBlock.InitData` | src/blockencodings.cpp:57-177 | the exact conditions of each status; on success every slot holds its prefilled transaction or what its candidates amount to, each list is looked at up to the first entry that leaves no slot empty, and mempool_count is the number of filled slots that were not prefilled |
| `CompactBlock.PartiallyDownloadedBlock.FillBlock` | src/blockencodings.cpp:185-227 | invalid exactly for a wrong number of missing transactions; otherwise fills the empty slots in order and cannot be called again |
| `CompactBlock.FilledRebuilds` | src/blockencodings.cpp:185-201 | slots that agree with a block, completed with its missing transactions in order, give the block |
| `CompactBlock.Transfer` | src/blockencodings.cpp:19-227 | from a block to its message and back: a receiver with faithful candidates, distinct short ids and no crowded bucket rebuilds the block |
| `BlockFilter.MapIntoRange` | src/blockfilter.cpp:32-56 | the 32-bit split computes x * n / 2^64, rounded down, without overflow |
| `BlockFilter.GCSFilter.HashToRange` | src/blockfilter.cpp:58-64 | the key of an element |
| `BlockFilter.GCSFilter.BuildHashedSet` | src/blockfilter.cpp:66-75 | the keys of the elements, sorted, with their multiplicity |
| `BlockFilter.GCSFilter.Of` | src/blockfilter.cpp:104-132 | the differences written are those of the sorted keys, and adding them up gives the keys back |
| `BlockFilter.NewFilter` | src/blockfilter.cpp:104-112 | refuses exactly 2^32 elements or more |
| `BlockFilter.GCSFilter.MatchInternal` | src/blockfilter.cpp:134-164 | true exactly if a query is among the stored keys |
| `BlockFilter.GCSFilter.Match` | src/blockfilter.cpp:166-170 | true exactly if the element's key is stored |
| `BlockFilter.GCSFilter.MatchAny` | src/blockfilter.cpp:172-176 | true exactly if some element's key is stored |
| `BlockFilter.Query` | src/blockfilter.cpp:104-176 | every element the filter was built from matches, others exactly if they share a key with one, and a query for several is the disjunction |
| `Base58.EncodeFits` | src/base58.cpp:97-98 | n * 138 / 100 + 1 base58 digits hold every number of n bytes |
| `Base58.DecodeFits` | src/base58.cpp:51-52 | n * 733 / 1000 + 1 bytes hold every number of n base58 digits |
| `Base58.MulAdd` | src/base58.cpp:63-70 | buffer times factor plus digit, in place; no carry is left, and the length is the exact number of digits |
| `Base58.Alphabet` | src/base58.cpp:18-36 | the two tables are inverse, without spaces, and only '1' stands for zero |
| `Base58.EncodeBase58` | src/base58.cpp:87-125 | a '1' for each leading zero byte, then the digits of the number |
| `Base58.DecodeDigits` | src/base58.cpp:51-75 | the word up to a space; rejects exactly bad characters and results beyond the limit, although it stops early |
| `Base58.DecodeBase58` | src/base58.cpp:38-85 | accepts exactly ones and digits between optional spaces, within the limit, and returns the bytes they stand for |
| `Base58.EarlyLength` | src/base58.cpp:72-73 | the length after some characters never exceeds the final length |
| `Base58.DecodeEncode` | src/base58.cpp:38-125 | decoding an encoding gives the bytes back, exactly if the limit allows |
| `Base58.EncodeDecode` | src/base58.cpp:38-125 | encoding what was decoded gives the string back without its surrounding spaces |
| `Base58.LimitExact` | src/base58.cpp:45-73 | the limit rejects exactly the longer results, unless it is negative and nothing is decoded |
| `Base58.EmptyIgnoresLimit` | src/base58.cpp:38-85 | the empty string decodes under the limit -1 |
| `Bech32.CharsetFacts` | src/bech32.cpp:18-31 | the tables are inverse; the character set has no '1' and no upper-case letter |
| `Bech32.StepLinear` | src/bech32.cpp:66-97 | the checksum step is linear |
| `Bech32.StepInjective` | src/bech32.cpp:66-97 | only the zero state steps to zero on a zero symbol |
| `Bech32.PolyMod` | src/bech32.cpp:42-99 | the loop computes the state of the symbols |
| `Bech32.PolyLinear` | src/bech32.cpp:42-99 | the whole checksum is linear |
| `Bech32.BurstDetected` | src/bech32.cpp:123-133 | a nonzero change within six consecutive symbols, at any length, never verifies under the same variant |
| `Bech32Detect.FeedbackAtRoot` | src/bech32.cpp:48-54 | the multiples of k(x) that the step adds take the same value as the multiples of x^6 at three consecutive powers of an element of the field of 1024 |
| `Bech32Detect.PolyAtRoot` | src/bech32.cpp:66-97 | the checksum state takes the same value there as the polynomial of all symbols |
| `Bech32Detect.NoFixed` | src/bech32.cpp:50-54 | that element has order 1023: no smaller power fixes a nonzero element |
| `Bech32Detect.ErrorsDetected` | src/bech32.cpp:50-54 | one, two or three wrong symbols, the last less than 1023 after the first, never verify under the same variant |
| `Bech32.ExpandHRP` | src/bech32.cpp:108-120 | the high bits, a zero, and the low bits of the prefix |
| `Bech32.ExpandInjective` | src/bech32.cpp:108-120 | different prefixes have different expansions |
| `Bech32.VerifyChecksum` | src/bech32.cpp:123-133 | the variant whose constant the state equals |
| `Bech32.CreateChecksum` | src/bech32.cpp:136-147 | six symbols from the state after six zeros |
| `Bech32.ChecksumExact` | src/bech32.cpp:123-147 | six symbols verify under a variant exactly if they are its checksum |
| `Bech32.Encode` | src/bech32.cpp:152-165 | prefix, separator, data and checksum |
| `Bech32.Decode` | src/bech32.cpp:168-201 | every rejection, and otherwise variant, lower-case prefix and data |
| `Bech32.RoundTrip` | src/bech32.cpp:152-201 | decoding an encoding returns variant, prefix and data exactly if the prefix is nonempty and printable and the length allows |
| `Bech32.Reencode` | src/bech32.cpp:152-201 | encoding what was decoded gives the string back in lower case |

## Left out

- MWEB branches of the coin views, and best-block caching in `CCoinsViewCache`.
- Coins.CoinsViewCache.AddCoin: the memory counter after a throwing call is not stated, because the code has already reduced it.
- Coins.CoinsViewCache.FetchCoin: over a database that may report stored spent coins as found, whether it does is open.
- Coins.CoinsViewCache.SpendCoin: likewise.
- Coins.Run: whether a database write fails is open.
- The allocator: `DynamicMemoryUsage` of a script is its size, and of a nulled coin zero.
- Address manager: Serialize and Unserialize, the random loop of `Select_`, `GetChance`, `SetServices_`, asmap, the wrap-around of 32-bit ids, and the insertion that `operator[]` makes in `Check_`.
- AddrMan.Manager.ResolveCollisions_: one reading of the clock for the whole loop, where the source reads it at each test.
- Check queue: thread interruption, and memory ordering outside the mutex; each locked section is one step. That no ready thread is passed over for ever is an assumption of `CheckQueue.WaitReturns`.
- Cuckoo cache: the floating-point depth limit is a parameter; flag operations are not modelled as atomics.
- Cuckoo.Cache.Setup: only the first setup of a cache; a second one would keep old elements in the resized table.
- ArithUint: hexadecimal text, floating point and the bitwise and, or and exclusive or of whole numbers.
- Chain: `FindEarliestAtLeast`, chain work and validity status.
- Chain.GetLocator: after an overflow of the step, which is undefined in the source, nothing is stated about the hashes.
- Rolling bloom filter: the floating-point choice of filter size and hash count are parameters; `CBloomFilter` has two conflicting versions and no model.
- CompactBlock.PartiallyDownloadedBlock.InitData: messages of at most 65535 transactions, which is what deserialisation admits (src/blockencodings.h:123-126); the bucket test of the hash table is a parameter, and `extra_count` is a log statistic.
- CompactBlock.PartiallyDownloadedBlock.FillBlock: `CheckBlock` is a parameter.
- Block filters: the Golomb-Rice bit stream is an exact list of differences; elements of a set come as a list in some order, and reading a filter from bytes is not modelled.
- Base58: sizes are unbounded integers, and Base58Check is not modelled.
- Bech32.Encode: symbols have five bits by type; the program would read past its character set for larger ones.
- Bech32: detection of four errors within 89 symbols, which rests on a computer search for the generator, error location, and everything about segwit programs.
- Amount and script compression, bans, alerts, locked memory, flat files, the work queue, and all I/O, configuration and networking.
