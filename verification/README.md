# Verified models of gem5's base library

A Dafny model of the data-structure, arithmetic and synchronisation core of gem5's `base/` directory,
and proofs of what that code is for. `dafny verify dfyconfig.toml` checks everything.

| file | models |
|---|---|
| `Trie.dfy` | the path-compressed binary trie: nodes relinked in place, against a finite map from bit prefixes to values |
| `UncontendedMutex.dfy`, `UncontendedMutexCalls.dfy`, `UncontendedMutexBound.dfy` | lock and unlock as atomic steps of any number of threads, with spurious wakeups |
| `Barrier.dfy`, `BarrierGenerations.dfy` | `Barrier::wait` as atomic steps of any number of threads, with spurious wakeups; the wrap of its generation |
| `Interleaving.dfy` | the XOR-hashed stripe selector, and removal and re-insertion of the stripe bits |
| `AddrRange.dfy`, `Offsets.dfy`, `StripeOffsets.dfy` | the range itself: `contains`, `isSubset`, `granularity`, `getOffset` |
| `RangeConstructors.dfy`, `Exclude.dfy` | the merging and the legacy constructor; interval subtraction |
| `AddrRangeMap.dfy`, `AddrRangeMapOrder.dfy`, `AddrRangeMapRuns.dfy` | the address decoder: an ordered map behind a most-recently-used list |
| `IntMath.dfy` | 64 x 64 to 128 bit multiplication by halves |
| `Crc.dfy`, `CrcDivision.dfy` | CRC-32 by bit reversal, the reversal by table, and the polynomial division it stands for |
| `CircleBuf.dfy` | the overwriting ring buffer, the FIFO, and their checkpoints |
| `ChunkGenerator.dfy` | the aligned decomposition of a memory region |
| `Xfer.dfy` | the binary escape and the chunked transfer of the GDB remote protocol |
| `Words.dfy`, `Arith.dfy`, `Sorting.dfy`, `Options.dfy` | bit strings, integer facts, sorting, results |

Objects that the source updates in place are classes, and its loops are loops. Each such method is proved
against a function of its inputs or of the old state, and the laws are proved about those functions. The
concurrent protocols are state machines: a run is any schedule of thread numbers, and the theorems are
about every schedule. Machine widths are explicit: addresses, `size_t` and `uint64_t` wrap at 2^64, the mutex
flag and the barrier generation at 2^32, the match counter of the merging constructor at 2^8. A bit string is
a sequence of booleans, least significant bit first except for the keys of the trie. `panic`, `fatal` and an
exception from `substr` are the value `Panic` or `None`.

Several properties that the source's comments suggest hold only under a condition. For each of these the
exact condition is proved, in both directions, and an input at which the property fails:

- The mutex keeps mutual exclusion, and a flag that tells whether it is held, throughout a run if and only if
  no holder is ever joined by 2^32 - 1 failed attempts to lock; then the flag wraps to 0
  (`SafeExactlyWithoutWrap`; on the schedule of `WrapLetsTwoThreadsIn` two threads get in). With at most 2^16 threads
  that takes spurious wakeups: every run without them is safe (`CalmRunIsSafe`).
- A barrier for n can leave a thread asleep in a generation that is complete if and only if n is at least 2 and more
  than n threads use it; then 2^32 generations can pass a woken thread by (`StrandsExactlyWithMoreThreads`;
  `WrapStrandsASleeper` gives the schedule).
- `addIntlvBits` undoes `removeIntlvBits` if and only if no mask contains the lowest bit of a mask with a higher
  index, because the parity loop runs in index order (`RoundTripExactlyInOrder`; `OutOfOrderMisses` turns address 3
  into address 2).
- The merging constructor yields the union of the ranges it accepts if and only if no address within the bounds
  selects a stripe from 256 on, because its counter wraps at 256 (`MergeIsExact`). For a non-empty span between bounds
  aligned to the lowest mask bits that is if and only if there are at most 8 masks (`MergeIsExactUpToEightMasks`;
  `NineMasksLoseStripes` is a list of 512 ranges).
- `getOffset` is a strictly increasing bijection onto [0, size()) if and only if the stripe's address with the kept bits
  of start is its first from start on, and the one size() places further is its first from end on
  (`BijectiveExactlyIfItFits`). Aligned bounds are of this kind; for any bounds the offsets are consecutive modulo 2^64.
  `OddBlocksDoNotFit` is a range whose first address has offset 2^64 - 7. Ranges without stripes always have the
  bijection, but for inverted bounds or a match value that nothing meets (`PlainBijective`). The number 2^64 - 1 that
  stands for an address outside the bounds is also the offset of a contained one if and only if the stripe's address
  just before the number of start is contained (`OutsideIsApartExactly`; `OutsideNumberIsTaken`).
- `exclude` is right if and only if every excluded range with start above end that has both bounds inside the range
  comes after a proper one that reaches its start, and no plain range with a match value other than 0, which contains
  nothing, takes away or stands for any address (`ExcludeAll`; `InvertedRangeOverlaps`, `HollowRangeExcludes`).
- `AddrRangeMap::insert` keeps entries apart if and only if the new range, when interleaved, does not span an
  entry of a single address (`InsertExact`; `TinyOverlapHidesAddress` is a map whose lookup then misses an entry).
- The cache of `AddrRangeMap` does not decide whether `insert` accepts, refuses or panics if and only if no entry makes the
  intersection test panic while another one meets it, and a search that finds no conflict has not overlooked one
  (`CacheDecidesExactly`). On the run of `CacheEndsTheRun` the same insertion is refused without a cache and ends the program
  with one; `CachedSingleRefuses` is a map on which the cache turns an acceptance into a refusal.
- In the ring buffer, for distinct elements and input that is not in the buffer: a write leaves the last elements of
  the old contents and the input if and only if the end of the contents has not passed stream position 2^64, or the capacity divides 2^64, or the write
  fills the whole buffer (`WriteExact`). What a read returns is always right; what it leaves is if and only if the
  same holds of the new start (`ReadExact`). `WrapOverwrites` is a buffer of three in which a write goes over the
  element it should follow.
- The chunks tile a region if and only if the region and the block of its first byte both stop short of the top of the
  address space or both reach it (`TilesExactly`; `SmallAccessOverruns` is four bytes at 2^64 - 8).
- A transfer reply is marked as last or not correctly if and only if offset plus length does not wrap to below the length of
  the content (`HeadTellsMore`; `WrapPromisesMore` is offset 1 with the largest length).

## Model

| member | source | states |
|---|---|---|
| Tries.Run | base/trie.hh:203-371 | after any run of insert, lookup, remove by key, remove by handle and clear from an empty trie, the trie is well formed, means exactly the finite map that the run describes, every lookup and remove has returned the value of the shortest live prefix at that moment, and there are at most twice as many non-root nodes as live entries; handles stay good until their entry goes |
| Tries.Trie.Lookup | base/trie.hh:290-298 | the value of the shortest live prefix of the key, and nothing exactly if no live prefix matches |
| Tries.Trie.LookupHandle | base/trie.hh:174-191 | the handle that insert returned for the shortest live prefix of the key |
| Tries.FirstLiveIsShortest | base/trie.hh:283-298 | the prefix that lookup is specified by is a prefix of every other live prefix of the key, and is missing only if there is none |
| Tries.TopMatches | base/trie.hh:209-215 | an entry of a given width matches exactly the keys that agree with its own in that many of the highest bits |
| Tries.Trie.Insert | base/trie.hh:203-281 | from every well-formed trie the result is well formed, the map gains exactly the masked prefix with its value, the returned handle stands for it, every other handle stays, and the final panic is unreachable |
| Tries.Trie.WalkDown | base/trie.hh:219-223 | stops at a node whose prefix the new one extends and neither of whose kids the new one extends |
| Tries.Trie.WalkLeg | base/trie.hh:243-253 | finds the longest common prefix of the new key and a kid's key, capped by the new width |
| Tries.Trie.TryLeg | base/trie.hh:233-277 | one leg: adds a leaf, splits the edge, splits and branches, or leaves everything as it was because the first bit already differs |
| Tries.Trie.Remove | base/trie.hh:307-343 | from every well-formed trie, and also for the valueless parent it recurses into, the result is well formed and the map loses exactly the handle's prefix; the inconsistent-parent panic is unreachable |
| Tries.Trie.Unlink | base/trie.hh:319-336 | relinking turns the graph into the one with the node spliced out and the parent's single kid first |
| Tries.Trie.RemoveKey | base/trie.hh:352-359 | removes and returns the entry that lookup finds, and changes nothing if there is none |
| Tries.Trie.Clear | base/trie.hh:367-371 | leaves the empty map and the root only |
| Tries.NodeCount | base/trie.hh:203-343 | a well-formed trie has at most 1 + 2 * (live entries) nodes |
| Tries.Unique | base/trie.hh:203-343 | no two nodes of a well-formed trie stand for the same prefix |
| Tries.NothingBetween | base/trie.hh:203-343 | no node lies on an edge |
| Tries.Towards | base/trie.hh:174-191 | the way from a node to any node that extends it leads through one of its kids |
| Tries.StepSkipsNothing | base/trie.hh:180-187 | one step of a lookup passes by no node that matches the key |
| Tries.SplitKeeps | base/trie.hh:259-264 | putting a valueless node on an edge keeps the trie well formed but for that node |
| Tries.AddLeafKeeps | base/trie.hh:235-241 | hanging a leaf on a free leg keeps the trie well formed |
| Tries.SpliceKeeps | base/trie.hh:319-336 | taking a node with at most one kid out keeps the trie well formed but for its parent |
| Tries.ExtendMaskIsNextPrefixMask | base/trie.hh:159-165 | extending the mask of the top w bits gives the mask of the top w + 1 bits, from 0 on |
| Tries.Node.MatchesIsPrefix | base/trie.hh:64-68 | a node matches a key exactly if its prefix is a prefix of the key |
| Tries.Trie.GoesAfterIsPrefix | base/trie.hh:140-149 | insert walks past a kid exactly if the kid's prefix is a prefix of the new one |
| UncontendedMutexes.SafeExactlyWithoutWrap | base/uncontended_mutex.hh:60-118 | for every number of threads and every schedule: mutual exclusion, flag 0 exactly without a holder, and no lost wakeup hold throughout if and only if no holder is joined by 2^32 - 1 increments |
| UncontendedMutexes.RunKeepsInv | base/uncontended_mutex.hh:60-118 | the inductive invariant over every schedule: one holder whose flag counts the failed attempts, one owner of the inner mutex, sleepers covered by a flag of at least 2 or a pending notify |
| UncontendedMutexes.NoDeadlock | base/uncontended_mutex.hh:69-118 | while a thread waits in lock, some thread holds the lock or can take a step that is no spurious wakeup |
| UncontendedMutexes.WrapIsUnsafe | base/uncontended_mutex.hh:89-90 | the increment that reaches 2^32 - 1 makes the flag 0 while the lock is held |
| UncontendedMutexes.WrapLetsTwoThreadsIn | base/uncontended_mutex.hh:80-93 | a schedule of two threads after which both hold the lock |
| UncontendedMutexCalls.CallsAreKept | base/uncontended_mutex.hh:69-118 | over every schedule, a step of any thread leaves a thread inside lock there or, by its own step, returned with the lock, and a thread inside unlock there or, by its own step, returned |
| UncontendedMutexCalls.FlagChangesHands | base/uncontended_mutex.hh:60-112 | a thread comes to hold the lock only by its own step that takes the flag from 0 to 1, lock returns only to such a thread, and it gives the lock up only by its own step that clears the flag |
| UncontendedMutexCalls.SectionsFollowEachOther | base/uncontended_mutex.hh:60-118 | in every run without a wrap, the returns from lock and the calls of unlock alternate, each pair by one thread: critical sections never overlap |
| UncontendedMutexCalls.OthersOnlyWake | base/uncontended_mutex.hh:91-117 | another thread's step moves a thread only out of its sleep, and only by notify_all, which leaves nobody asleep |
| UncontendedMutexCalls.WokenTriesAgain | base/uncontended_mutex.hh:80-92 | a woken thread has the reacquisition of m next, and then tries for the flag again |
| UncontendedMutexCalls.OwnStepsCount | base/uncontended_mutex.hh:69-118 | unlock returns after at most 5 steps of its own, and an attempt to lock returns or sleeps after at most 6 |
| UncontendedMutexCalls.OneOperationPerStep | base/uncontended_mutex.hh:60-118 | no step changes both the flag and the owner of m, m is only ever taken when free, and notify_all touches neither |
| UncontendedMutexCalls.BlockedOnlyByMutex | base/uncontended_mutex.hh:81-111 | a thread has to wait exactly if its next step acquires m and m is taken |
| UncontendedMutexBound.CalmRunIsSafe | base/uncontended_mutex.hh:60-118 | with at most 2^16 threads, every run in which only notify_all wakes sleepers has mutual exclusion, a truthful flag and no lost wakeup throughout |
| UncontendedMutexBound.CalmRunIsBounded | base/uncontended_mutex.hh:80-93 | in such a run at most n * (n - 1) attempts are counted behind one holder, so the flag does not wrap |
| Barriers.RunKeepsInv | base/barrier.hh:65-80 | the inductive invariant over every schedule and number of threads |
| Barriers.ArrivalsConserved | base/barrier.hh:65-80 | arrivals == n * generations + (n - numLeft), and numLeft is between 1 and n whenever the mutex is free |
| Barriers.ReturnsAreRight | base/barrier.hh:70-79 | a call returns true exactly if it was the n-th arrival of its generation, and no call returns before all n arrivals of its generation |
| Barriers.OneTruePerGeneration | base/barrier.hh:70-79 | of the n arrivals of a completed generation the last one, and no other, has returned true, is about to, or is itself still notifying the others |
| Barriers.SleepersWaitForTheirGeneration | base/barrier.hh:77-78 | a thread that sleeps with no notify pending belongs to a generation that is still open, unless a multiple of 2^32 generations has passed it by |
| Barriers.OwnStepsCount | base/barrier.hh:67-79 | a call of wait ends only by its return, sleeps only while its generation is the current one, and comes to one or the other after at most 5 steps of its own |
| Barriers.OthersOnlyWake | base/barrier.hh:74-78 | another thread's step moves a thread only out of its sleep, and only by notify_all, which leaves nobody asleep |
| Barriers.SpuriousWakeup | base/barrier.hh:77-78 | a sleeper can wake up at any time, without having been notified, with its generation unchanged |
| Barriers.BlockedOnlyByMutex | base/barrier.hh:67-78 | a thread has to wait exactly if its next step acquires the mutex and that is taken |
| BarrierGenerations.StrandsExactlyWithMoreThreads | base/barrier.hh:65-80 | some run on a barrier for n strands a thread, asleep un-notified in a complete generation, if and only if 2 <= n < number of threads |
| BarrierGenerations.NobodyIsStranded | base/barrier.hh:65-80 | with at most n threads on a barrier for n, no run strands anybody |
| BarrierGenerations.AllHaveArrived | base/barrier.hh:70-75 | with at most n threads, when a generation completes every thread is inside it |
| BarrierGenerations.WrapStrandsASleeper | base/barrier.hh:70-78 | for every n >= 2 and more than n threads, a schedule of 2^32 generations after which thread 0 sleeps on in generation 0 |
| Interleaving.RoundTripExactlyInOrder | base/addr_range.hh:534-613 | for masks with distinct lowest bits: re-insertion undoes every removal, and lands every offset in its stripe, if and only if no mask contains the lowest bit of a later one |
| Interleaving.AddUndoesRemove | base/addr_range.hh:534-613 | addIntlvBits(removeIntlvBits(a)) == a for every address of the stripe |
| Interleaving.RemoveUndoesAdd | base/addr_range.hh:534-613 | removeIntlvBits(addIntlvBits(b)) == b for every b below 2^(64 - n), whatever the order of the masks |
| Interleaving.AddLandsInStripe | base/addr_range.hh:603-610 | the selector of the re-inserted address is the match value |
| Interleaving.AddedKeeps | base/addr_range.hh:587-610 | re-insertion moves every bit of the offset to a position that removal keeps, in order |
| Interleaving.LandsOnlyInOrder | base/addr_range.hh:603-610 | masks out of order always have an offset and a match value that land in the wrong stripe |
| Interleaving.OutOfOrderMisses | base/addr_range.hh:603-610 | two masks out of order for which address 3 comes back as address 2, in another stripe |
| Interleaving.RemoveIntlvBits | base/addr_range.hh:534-565 | the loop, with its wrapping insertBits arguments, drops exactly the lowest bit of each mask and moves the others together |
| Interleaving.AddIntlvBits | base/addr_range.hh:573-613 | the two loops compute the opening of the bits and the parities in index order |
| Interleaving.InsertBitsDeletes | base/addr_range.hh:553-563 | one turn of the removal loop deletes one bit, also when intlv_bit - i - 1 wraps to an empty mask |
| Interleaving.DroppingKeepsOrder | base/addr_range.hh:510-565 | among addresses with the same selector, removal is strictly increasing |
| Interleaving.StripeAndKeptDetermine | base/addr_range.hh:510-565 | an address is determined by its selector and the bits that removal keeps |
| Interleaving.Solve | base/addr_range.hh:488-508 | in every stripe there is an address with any given kept bits, also when masks share bits |
| Offsets.GetOffset | base/addr_range.hh:628-640 | computes the offset that the laws below are about, for striped and plain ranges, within the bounds and outside |
| Offsets.OffsetBelowSize | base/addr_range.hh:615-640 | between bounds aligned to the lowest mask bits, offsets lie in [0, size()) |
| Offsets.OffsetIncreases | base/addr_range.hh:615-640 | over the addresses of the range, offsets increase strictly |
| Offsets.OffsetReached | base/addr_range.hh:615-640 | every number below size() is the offset of an address that the range contains |
| StripeOffsets.BijectiveExactlyIfItFits | base/addr_range.hh:615-640 | for any bounds: getOffset is a strictly increasing bijection from the contained addresses onto [0, size()) if and only if the stripe's address with the kept bits of start is the first from start on and the one size() further the first from end on |
| StripeOffsets.OffsetsAreConsecutive | base/addr_range.hh:615-640 | for any bounds: every number between those of two contained addresses belongs to a contained address between them, whose offset is as far along modulo 2^64 |
| StripeOffsets.FirstOffsetIsZero | base/addr_range.hh:615-640 | for any bounds: the first contained address has offset 0 if and only if the stripe's address with the kept bits of start is the first from start on |
| StripeOffsets.AlignedIsBijective | base/addr_range.hh:615-640 | aligned bounds give the bijection |
| StripeOffsets.PlainBijective | base/addr_range.hh:628-640 | for a range without stripes: a strictly increasing bijection from the contained addresses onto [0, size()), if and only if start == end, or start < end and the match value is 0 |
| StripeOffsets.OutsideIsApartExactly | base/addr_range.hh:631-637 | for a striped range, an address outside the bounds gets the offset of no contained address, if and only if the stripe's address just before the number of start is not contained |
| StripeOffsets.BijectiveIsApart | base/addr_range.hh:628-640 | where getOffset is a bijection onto [0, size()), no contained address has the number of an outside one |
| StripeOffsets.OutsideNumberIsTaken | base/addr_range.hh:628-640 | [1, 17) with one mask of bit 1: its first address has offset 2^64 - 1 |
| StripeOffsets.OddBlocksDoNotFit | base/addr_range.hh:628-640 | [7, 23) with one mask of bit 3 has size 8, and its first address has offset 2^64 - 7 |
| Offsets.SizeInParts | base/addr_range.hh:325-329 | the size of an aligned range is its number of blocks times the addresses of a stripe in a block |
| AddrRanges.Contains | base/addr_range.hh:488-508 | the loop over the masks decides whether the address is in bounds and its selector is the match value |
| AddrRanges.IsSubsetIsExact | base/addr_range.hh:444-478 | for a non-empty plain range, also one that ends at 2^64: isSubset holds exactly if every address of it is in r and, when r is striped, it is no longer than the largest aligned blocks of 2^k bytes that lie in one stripe each |
| AddrRanges.GranularityIsGreatest | base/addr_range.hh:293-306 | the granularity is a power of two, and aligned blocks of 2^k bytes lie in one stripe each if and only if 2^k is at most the granularity |
| AddrRanges.IsSubsetPanics | base/addr_range.hh:446-447 | isSubset panics exactly for a striped range |
| AddrRanges.BlockInOneStripe | base/addr_range.hh:488-508 | addresses that differ only below every mask bit are in the same stripe |
| AddrRanges.CombinedGranularity | base/addr_range.hh:293-306 | the loop, which collects the masks in 32 bits, computes the granularity |
| RangeConstructors.Merge | base/addr_range.hh:107-142 | which lists are accepted and what they become, with the 8-bit match counter |
| RangeConstructors.StripesPartition | base/addr_range.hh:488-508 | each address within the bounds is in the one range, of those that differ only in their match value 0 .. 2^n - 1, that its selector names |
| RangeConstructors.StripesMergeable | base/addr_range.hh:107-142 | for 1 to 8 masks the merging constructor accepts all 2^n stripes in the order of their match values |
| RangeConstructors.MergedIsUnion | base/addr_range.hh:107-142 | up to 8 masks, an accepted list becomes exactly its union |
| RangeConstructors.MergeIsExact | base/addr_range.hh:107-142 | whatever the bounds and masks, an accepted list becomes exactly its union if and only if no address within the bounds selects a stripe from 256 on |
| RangeConstructors.MergeIsExactUpToEightMasks | base/addr_range.hh:107-142 | for a non-empty span between aligned bounds, that is if and only if there are at most 8 masks |
| RangeConstructors.NineMasksLoseStripes | base/addr_range.hh:124-137 | 512 ranges over nine masks that are accepted and none of which contains address 256, which the merged range does |
| RangeConstructors.Legacy | base/addr_range.hh:220-256 | exactly the argument errors, and otherwise the masks that pair each interleaving bit with its XOR bit |
| RangeConstructors.LegacyOkMeans | base/addr_range.hh:227-246 | the arguments are accepted exactly if the match value is that of some n bits and the two bit fields share no bit |
| RangeConstructors.LegacyContains | base/addr_range.hh:191-256 | a range so built contains exactly the addresses that the documented bit-field formula selects |
| RangeConstructors.LegacyMasksDisjoint | base/addr_range.hh:220-256 | its masks are pairwise disjoint, so the round trip of stripe bits holds for it |
| Exclude.ExcludeAll | base/addr_range.hh:656-696 | for any unsorted, overlapping list of plain ranges: the result is sorted, non-empty, disjoint ranges that contain exactly the addresses that r contains and no excluded range does, always for proper ranges, and in general if and only if every inverted one inside r is shielded by an earlier proper one and no range without addresses counts |
| Exclude.HollowRangeExcludes | base/addr_range.hh:656-696 | [0, 10) without a plain range of match value 1 over [3, 6), which contains nothing and still takes [3, 6) away |
| Sorting.SortIsStable | base/addr_range.hh:660-661 | ranges with the same start are taken in the order of the list |
| Exclude.UnshieldedBreaks | base/addr_range.hh:668-687 | at the first unshielded inverted range the loop falls back behind the gap it has just put out |
| Exclude.InvertedRangeOverlaps | base/addr_range.hh:656-696 | [0, 10) without the range from 6 to 3, where [3, 6) is covered twice |
| AddrRangeMapRuns.Run | base/addr_range_map.hh:89-321 | any run of insert, erase, lookups and clear, with a cache of any size, in which no accepted range spans a single-address entry, goes on until an insertion panics: the tree is that of the map without a cache, every lookup answers what a scan of all entries finds, insertions have the outcome that tree and cache give them, both invariants hold, and the cache holds the most recently used live entries, latest use first |
| AddrRangeMapRuns.RunWithoutCache | base/addr_range_map.hh:89-321 | if every insertion of a run meets conflicts of one kind only, all answers, refusals and panics are those of the run without a cache |
| AddrRangeMapRuns.CacheDecidesExactly | base/addr_range_map.hh:154-161 | for any map and range: with every valid cache insert accepts, refuses or panics as it does without one, if and only if no entry makes the intersection test panic while another meets it and an accepted range meets or panics at none |
| AddrRangeMapRuns.AcceptedHasNoConflict | base/addr_range_map.hh:154-161 | in a valid map, for a range that spans no single-address entry, the first half of that condition is enough |
| AddrRangeMapRuns.CacheEndsTheRun | base/addr_range_map.hh:286-321 | a run of four calls whose last insertion is refused without a cache and panics with a cache of any size |
| AddrRangeMapRuns.CachedSingleRefuses | base/addr_range_map.hh:286-321 | a map and a range that is accepted with an empty cache and refused with an entry cached |
| AddrRangeMapRuns.CacheIsMostRecentlyUsed | base/addr_range_map.hh:166-321 | the cache is a prefix of the list of used live entries by falling time of last use, through hits, found conflicts, erases and clears, and as long as nothing was erased it is that list cut to its size |
| AddrRangeMapRuns.RecentIsByLastUse | base/addr_range_map.hh:255-299 | that list holds exactly the entries used and neither erased nor cleared since, in falling order of last use, each once |
| AddrRangeMapRuns.CacheDoesNotDecideInsert | base/addr_range_map.hh:154-161 | unless an accepted range spans a single-address entry, whether insert accepts does not depend on what is cached |
| AddrRangeMaps.TreeFindIsScan | base/addr_range_map.hh:301-320 | upper_bound and the backward walk find what a linear scan finds |
| AddrRangeMaps.AtMostOneContains | base/addr_range_map.hh:154-161 | no two entries contain the same address |
| AddrRangeMaps.CacheIsTransparent | base/addr_range_map.hh:286-321 | with any cache contents, find gives the answer of the tree search, which is that of a linear scan |
| AddrRangeMaps.SubsetOfSingle | base/addr_range_map.hh:115-124 | for a single address the condition that find tests is exactly that the entry contains it |
| AddrRangeMaps.InsertExact | base/addr_range_map.hh:154-161 | a range without a found conflict keeps entries ordered and apart if and only if it spans no single-address entry or is not interleaved |
| AddrRangeMaps.NoEquivalentKey | base/addr_range_map.hh:154-161 | a range without a found conflict has no equivalent key in the tree, so the insertion does happen |
| AddrRangeMaps.IntersectsMeans | base/addr_range.hh:407-432 | for good ranges, where intersects answers, it answers whether some address is in both, except for a range with an empty stripe compared with itself |
| AddrRangeMaps.IntersectsPanics | base/addr_range.hh:407-432 | for good ranges, intersects panics exactly if the spans share an address, one is striped, they are not stripes of one span and the second is not a single address; a range always meets itself |
| AddrRangeMapOrder.LessIsLexicographic | base/addr_range.hh:713-729 | the order is by start, striped ranges first, and these by match value |
| AddrRangeMapOrder.EntriesInOrder | base/addr_range_map.hh:154-161 | in every valid map, entries are in order of their starts, and those that start together are stripes of one span by increasing match value |
| AddrRangeMapOrder.StripesAreAdjacent | mem/xbar.cc:466-504 | when all 2^n stripes of a span are in a valid map, n from 1 to 8, they stand next to each other, no entry before them merges with them, and the merging constructor accepts them as the map lists them |
| AddrRangeMaps.TinyOverlapHidesAddress | base/addr_range_map.hh:154-161 | a two-entry map, built by accepted insertions, in which an address that an entry contains is not found |
| AddrRangeMaps.AddrRangeMap.Find | base/addr_range_map.hh:286-321 | the answer is that of the cache, then the tree; the entry found moves to the front of the cache |
| AddrRangeMaps.AddrRangeMap.AddNewEntryToCache | base/addr_range_map.hh:255-273 | the new entry comes first and the least recently used one goes if there is no room |
| AddrRangeMaps.AddrRangeMap.ContainsAddr | base/addr_range_map.hh:115-124 | the entry that contains the address, or none exactly if no entry does |
| AddrRangeMaps.AddrRangeMap.ContainsRange | base/addr_range_map.hh:89-98 | for a plain range the answer of a linear scan, whatever is cached |
| AddrRangeMaps.AddrRangeMap.Insert | base/addr_range_map.hh:154-161 | refuses without a change to the tree, or places the entry at its upper bound and keeps the invariant exactly without a spanned single-address entry; a conflict that is found moves to the front of the cache |
| AddrRangeMaps.AddrRangeMap.Erase | base/addr_range_map.hh:166-171 | the entry leaves the tree and the cache, all others stay |
| AddrRangeMaps.AddrRangeMap.Clear | base/addr_range_map.hh:188-193 | empties tree and cache |
| IntMath.MulUnsignedManual | base/intmath.hh:154-177 | high * 2^64 + low == a * b for all 64-bit a and b |
| IntMath.HighWord | base/intmath.hh:160-176 | the carries through halved middle terms lose nothing |
| IntMath.CarryFits | base/intmath.hh:169-174 | no intermediate sum of the carries overflows 64 bits |
| IntMath.MulSignedManual | base/intmath.hh:196-211 | high * 2^64 + low == a * b for all signed 64-bit a and b, with high signed |
| Crc.CrcIsIncremental | base/crc.hh:60-82 | crc32 of a concatenation is crc32 of the second part from crc32 of the first, for every polynomial |
| Crc.CrcIsLinear | base/crc.hh:60-82 | crc32 of XORed data of equal length and XORed start values is the XOR of the crc32s |
| Crc.CrcIsReflected | base/crc.hh:60-82 | crc32 equals the right-shifting checksum with the reversed polynomial and no reversal of data or result |
| CrcDivision.CrcIsRemainder | base/crc.hh:60-82 | the bits of crc32 are the remainder of the message times x^32, with the start value added to its first 32 bits, in the division by x^32 plus the polynomial, over GF(2) |
| CrcDivision.RemainderIsUnique | base/crc.hh:60-82 | quotient and remainder of that division are unique |
| Crc.ComputeCrc32 | base/crc.hh:60-82 | the nested loops compute the specified checksum |
| Crc.ReverseBits | base/bitfield.hh:253-271 | the loop over bytes through the table reverses all 32 bits |
| Crc.TableReverses | base/bitfield.cc:44-68 | each of the 256 table entries is the reversal of its index |
| Crc.RevInvolution | base/bitfield.hh:253-271 | reversing twice is the identity |
| Crc.RevLinear | base/bitfield.hh:253-271 | reversal distributes over XOR |
| CircleBufs.CircleBuf.Write | base/circlebuf.hh:156-198 | the contents become the last maxSize elements of the old contents and the input, of any length, if the end has not passed 2^64, the capacity divides 2^64 or the input fills the buffer; and only then, if the elements are distinct and new; start, used and the whole buffer are given for every case |
| CircleBufs.WriteExact | base/circlebuf.hh:170-197 | the same as an if and only if about the buffer before and after |
| CircleBufs.MisplacedWrite | base/circlebuf.hh:176-192 | a write of less than the buffer to any other place than the end of the contents leaves an element of the input out of its place |
| CircleBufs.CircleBuf.Peek | base/circlebuf.hh:105-130 | fails exactly if the 64-bit sum of offset and length is past the end; for offsets from 0 on returns that slice of the contents if, and for distinct elements only if, start + offset is below 2^64 or the capacity divides 2^64; for negative offsets returns the run of the buffer from before the start |
| CircleBufs.CircleBuf.Read | base/circlebuf.hh:138-145 | always returns the first elements; leaves the rest if, and for distinct elements only if, the new start is below 2^64, the capacity divides 2^64 or nothing is left |
| CircleBufs.CircleBuf.Flush | base/circlebuf.hh:78-83 | empties the buffer |
| CircleBufs.RingWritten | base/circlebuf.hh:156-198 | overwriting a ring at its end leaves the last elements of old contents and input |
| CircleBufs.RingIsRuns | base/circlebuf.hh:112-129 | any slice of the ring is at most two runs of the buffer |
| CircleBufs.PlaceSurvivesWrap | base/circlebuf.hh:116-195 | the wrap of size_t keeps the place in the buffer if and only if it does not happen or the capacity divides 2^64 |
| CircleBufs.RingDroppedExact | base/circlebuf.hh:138-145 | moving the start drops the right elements if and only if the new start is at the right place of the buffer |
| CircleBufs.WrapOverwrites | base/circlebuf.hh:176-197 | a buffer of three at stream position 2^64 - 1 that holds [7] and after a write of [8] holds [8, 1] |
| CircleBufs.Fifo.Write | base/circlebuf.hh:232-238 | fails without a change exactly if the input does not fit, and otherwise appends it under the same exact condition |
| CircleBufs.ArrayParamOut | base/circlebuf.hh:245-253 | saves exactly the contents, wherever they lie in the stream |
| CircleBufs.ArrayParamIn | base/circlebuf.hh:255-264 | restores what was saved, or the last part of it that fits |
| CircleBufs.SaveAndRestore | base/circlebuf.hh:245-264 | a checkpoint carries the contents over into any buffer of sufficient capacity |
| ChunkGenerators.TilesExactly | base/chunk_generator.hh:87-198 | the chunks of the documented loop are non-empty, adjoining, each in one aligned block and make up exactly the region, if and only if region and first block both end below 2^64 or both at 2^64 |
| ChunkGenerators.LastBlockOverruns | base/chunk_generator.hh:95-111 | for every region that starts in the last block and stops short of the top, the first chunk runs on to the top |
| ChunkGenerators.SmallAccessOverruns | base/chunk_generator.hh:95-111 | four bytes at 2^64 - 8 in chunks of 16: the first chunk has eight bytes |
| ChunkGenerators.UnchunkedTiles | base/chunk_generator.hh:87-112 | with chunk size 0 the region is one chunk |
| ChunkGenerators.VisitAll | base/chunk_generator.hh:54-198 | construction and the documented loop terminate and visit the specified chunks |
| ChunkGenerators.LastIsLast | base/chunk_generator.hh:141-149 | last() holds exactly if no chunk is visited after the current one |
| ChunkGenerators.NextIsBoundary | base/chunk_generator.hh:91-101 | the first chunk ends at the first block boundary above the start, reduced to 64 bits |
| ChunkGenerators.ClearLow | base/intmath.hh:258-265 | masking with the complement of 2^k - 1 takes off the remainder modulo 2^k |
| ChunkGenerators.ChunkGenerator.Next | base/chunk_generator.hh:184-198 | advances the fields as specified and tells whether there is another chunk |
| Xfer.Transfer | base/remote_gdb.cc:1521-1544 | requests at offsets 0, L, 2L, ... until a reply starts with 'l' terminate, and the unescaped replies concatenate to the content |
| Xfer.UnescapeUndoesEscape | base/remote_gdb.cc:1521-1533 | unescaping, as section "Overview" of the GDB Remote Serial Protocol defines it, gives back what was escaped |
| Xfer.EscapeIsMinimal | base/remote_gdb.cc:1521-1533 | the encoding is longer by one byte for each of the four special bytes, and no other byte is changed |
| Xfer.SpecialIs | base/remote_gdb.cc:1525-1541 | the special bytes are the characters '$', '#', '}' and '*', the marks are 'm' and 'l' |
| Xfer.EncodeBinaryData | base/remote_gdb.cc:1521-1533 | the loop appends the escaped data |
| Xfer.EncodeXferResponse | base/remote_gdb.cc:1535-1544 | the reply for every offset and length, including the wrap of their sum and an offset past the end |
| Xfer.ReplyCarries | base/remote_gdb.cc:1535-1544 | for every offset and length the reply, unescaped, is the content from offset on, up to length bytes |
| Xfer.ReplyExists | base/remote_gdb.cc:1543-1543 | there is a reply exactly for offsets up to the end of the content |
| Xfer.HeadTellsMore | base/remote_gdb.cc:1535-1544 | the first byte is 'm' exactly when content is left, if and only if offset + length does not wrap to below the length of the content |
| Xfer.WrapPromisesMore | base/remote_gdb.cc:1535-1544 | offset 1 with the largest length: the reply carries the whole rest and starts with 'm' |
| Xfer.ReplyIsClean | base/remote_gdb.cc:1535-1544 | no reply contains a raw '$', '#' or '*' |

## Left out

- Tries.Trie.Insert: width 0 (an undefined shift in the source) and a prefix that is already live (an assertion in the source) are outside its precondition.
- Tries.Trie.Remove: the freeing of spliced-out nodes by `unique_ptr` is not modelled; such nodes only leave the graph.
- Interleaving.AddIntlvBits: requires lowest mask bits below 31, because the source shifts an `int` by them, which is undefined for larger ones; the round-trip lemmas are about the function it computes there and need no such bound.
- AddrRanges.Contains: the selector is not cut to the width of an `int`, which matters only with 31 masks or more.
- AddrRanges.CombinedGranularity: requires some mask bit below 32, because the source collects the masks in an `int` and otherwise shifts by 64, which is undefined.
- AddrRanges.IsSubsetIsExact: an end of 0 stands for 2^64, as the source says; other inverted bounds of plain ranges are left out. `contains` does not support either.
- Offsets.OffsetReached: is about aligned bounds; `StripeOffsets` has the exact condition for all others.
- RangeConstructors.Legacy: requires bit positions from which the fields fit, since the source computes them in 8 bits and shifts by them.
- AddrRangeMaps.AddrRangeMap.Insert: entries are non-empty, and interleaved ones have more than one address, as the decoder assumes.
- AddrRangeMapRuns.Run: erase is given an entry of the map, and lookups of ranges are of plain ones; `isSubset` panics for others.
- CircleBufs.CircleBuf.constructor: capacities and inputs are below 2^63 elements, as the size of an object is.
- CircleBufs.CircleBuf.Write: a buffer of capacity 0 takes only empty input, since the source divides by the capacity; that the write fails without the condition is claimed for distinct elements and input that is not in the buffer, since otherwise the right element can be there by chance (`StaleElementFits`).
- CircleBufs.CircleBuf.Peek: requires that a copy which passes the test is no longer than the buffer; with a negative offset the source can pass the test and copy past the end, which is undefined.
- ChunkGenerators.TilesExactly: regions that run past the top of the address space are left out.
- Barriers.RunKeepsInv: a barrier for 0 threads is left out; its first arrival would wrap the count.
- Xfer.Transfer: content shorter than 2^63 bytes, which a string cannot exceed.
- The memory orders of the atomic flag: steps are sequentially consistent, as the source's default orders promise.
- `AddrRangeMap::erase(p, q)`, whose loop takes only `p` out of the cache.
- `ChunkGenerator::setNext`.
- Ranges that wrap around the top of the address space, `to_string` and `AddrRange` comparison for equality.
- The packet layer of the GDB stub: sockets, checksums, retransmission and the parsing of `qXfer` requests.
- `floorLog2`, `ceilLog2`, and the fallback loops of `popCount` and `ctz64`, which are taken as their meaning on bit strings.
- `reverseBits` for other widths than 32 bits.
- `circular_queue`, `sat_counter`, `flags`, `refcnt`, `memoizer`: they would add easier members of the same kinds.
- Statistics, images, time, sockets, fibers and file output: floating point, input and output, or the operating system.
