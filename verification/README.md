# Verified models of the container, checksum and concurrency kernel

This project models the low-level kernel of the library in Dafny 4.11 and proves what it is relied on for.
Every module stands for one source file, or for one part of one:

| module | models | main results |
|---|---|---|
| `HashTable` | open addressing with linear probing, growth by rehash, deletion that re-places the rest of the cluster | removal works with exactly one moving hole on the probe paths; every run on a new table answers as a finite map does, as long as a slot stays free; that holds for all runs exactly with load factors `density <= 1 <= growth`; every probe loop ends; traversal lists each binding once |
| `Checksum`, `CopyChecksum` | word checksums with a partial word carried from call to call, and their copying forms | any cutting of a byte string into calls, at any alignment, adds up to the zero-padded word sum of the whole, in which every byte counts by its place and the byte order; the copying form gives the same checksum and carry and copies exactly the bytes asked for |
| `Csum16` | the folded 16-bit checksum | congruent to the word sum modulo 65535, exactly when no harmful carry is lost; 65537 words is the limit |
| `Crc` | the table-driven CRC | equals the one remainder of the division by the polynomial; independent of chunks and alignment; every error burst of up to 32 bits is detected; a message followed by its own CRC gives zero |
| `LinkedList` | the intrusive circular list, with objects and pointers | splice and join move exactly the segment asked for, between two lists or within one; for each operation on any well linked list, whatever its length says, what becomes of items and length, and exactly when a join breaks the rings and when it loses the items |
| `Condition` | wait, timed wait, signal, broadcast as locked steps of any number of threads | a broadcast reaches every thread parked at it, in either kind of wait; late arrivals cannot take its wakeups; over whole runs, exactly when a timed wait takes one and exactly when a signal is left over |
| `Atomics`, `Spinlock` | compare-and-set loops and the lock built on one | linearizability with running totals modulo 2^32 from the last swap on; mutual exclusion, and who holds the lock after every step |
| `PointerArray`, `Hotel`, `RingBuffer` | index allocator, room allocator with eviction timers, displacing ring | least free index and exact counts; no room given out twice and no guest lost; who enters and who leaves in every run; a bounded first-in-first-out queue over every run |
| `Argv` | split, join, delete and insert of argument vectors | split undoes join exactly for clean vectors; join undoes split-with-empty up to one trailing delimiter |
| `McaVar` | parameter files and the initial value of a string variable | leftmost file, last assignment, exported settings, prefix lists, and the order of the sources from files and environment to the stored value |

`Wrappers` (an option type), `Wrapping` (words that wrap around), `Buffers` (copying bytes), `Sets` (sizes of sets)
and `Runs` (runs of a state machine, and what holds at every step of one) are shared helpers.

Code that changes state is a class or a method with loops, proved against specification functions; the laws
about those functions are lemmas. The threads of `Condition`, `Atomics` and `Spinlock` are state machines over
interleaved steps; the locked stretches of the condition functions are also methods on their two counters and the
set of parked threads, tied to the steps. `dafny verify dfyconfig.toml` checks the whole project.

Where the code does not do what its comments or callers would expect, the model follows the code, and the
exact condition is proved:

- `ww_list_insert` counts an item that goes to index 0 twice, and a negative index puts it behind the first item
  (`LinkedList.Insert`, `LinkedList.NegativeIndex`). It compares with the length as a signed number, so that a length
  which wrapped below zero refuses even index 0 (reached by `LinkedList.RefusedAtFront`).
- `ww_list_join` of a list with itself clears its length (`LinkedList.Join`, `LinkedList.SelfJoin`). Before its first
  item it breaks the ring (`LinkedList.JoinBeforeFirst`), and before a later one it loses all items and leaves an empty
  list (`LinkedList.JoinBeforeSecond`). Joining a list without items whose length is not zero to another one breaks
  both rings (reached by `LinkedList.JoinAfterInsert`).
- `ww_pointer_array_set_item` and `ww_pointer_array_test_and_set_item` pass `index` and not `index + 1` as the
  hard size, so growing can succeed without making room (`PointerArray.Table.OverrunExactly`).
- `ww_argv_delete` takes the full number off the count even when fewer strings were there (`Argv.Delete`,
  `Argv.DeletePastEnd`).
- A signal given where every parked thread already has one leaves a signal over, which later waits and signals never
  clear (`Condition.WithinUnlessOversignaled`, `Condition.StaleSignalSticks`, reached by
  `Condition.StaleSignalReached`); a timed wait taken where the signals are just enough takes the wakeup of a thread
  that was parked at a broadcast (`Condition.SignaledUnlessStolen`, reached by `Condition.TimedWaitSteals`).
- `ww_list_remove_first` and `ww_list_remove_last` return the sentinel as an item from a list without items whose
  length is not zero (`LinkedList.RemoveFirst`), which an insertion at index 0 leads to
  (`LinkedList.DrainAfterInsert`).
- An environment variable can claim the override file as its source without making its variable read-only
  (`McaVar.Var.SetInitial`, reached by `McaVar.ClaimOverride`).
- `add_to_env_str` checks its buffer for later settings only, and doubles it once (`McaVar.FitsUnlessOutgrown`, and
  `McaVar.ConfigSafeExactly` for the reading of all files; reached by `McaVar.OutgrowBuffer`).
- Load factors out of range are not refused, and can leave no free slot to end a probe (`HashTable.NeverFullExactly`,
  `HashTable.FullTableTraps`) or no slot for an entry that a rehash moves (`HashTable.RehashGetsStuck`).
- A variable whose two names are set in different files can get the value of a file further right
  (`McaVar.RightmostCanCount`, `McaVar.LeftmostCountsExactly`).
- More than 65537 words can make `ww_csum16` lose the residue (`Csum16.ExactResidue`, `Csum16.LimitIsTight`).

The header of the hash table speaks of the next power of two (`src/class/ww_hash_table.h:72`); the code rounds to
one more than a multiple of 30 (`src/class/ww_hash_table.c:104`), and so does the model. The header of the pointer
array calls `block_size` the size of all later grows (`src/class/ww_pointer_array.h:77`); the code only uses it for
the first allocation. The CRC polynomial is the one of the frame check sequence in section 3.2.9 of IEEE Std
802.3-2018, but the code takes bits most significant first and does no final complement, so its values are not
those of that standard. The folding of `ww_csum16` is the deferred-carry folding of section 2 of RFC 1071, without
the complement.

## Model

| member | source | states |
|---|---|---|
| `HashTable.RoundCapacityUp` | src/class/ww_hash_table.c:101-106 | a capacity is rounded to one more than a multiple of 30, strictly above it by at most 30 |
| `HashTable.Table.Init2` | src/class/ww_hash_table.c:108-129 | for any factors it can divide by a new table is valid and empty, with the capacity and trigger computed from the size estimate and the density |
| `HashTable.Table.RemoveAll` | src/class/ww_hash_table.c:138-155 | every entry is forgotten; the storage stays and the table is a valid empty one |
| `HashTable.FirstFree` | src/class/ww_hash_table.c:190-197 | the placing loop of growth ends at a free slot whose whole probe path is filled, at the key's hash modulo the capacity if that slot is free |
| `HashTable.GrowthIsStrict` | src/class/ww_hash_table.c:169-170 | a growth factor of at least one gives a strictly larger capacity, for every factor and capacity |
| `HashTable.GrowthExactly` | src/class/ww_hash_table.c:169-170 | growth raises every capacity exactly for factors of at least one |
| `HashTable.DensityExactly` | src/class/ww_hash_table.c:203-203 | the trigger is at or below every capacity exactly for densities of at most one |
| `HashTable.FirstCapacityExactly` | src/class/ww_hash_table.c:113-126 | the first capacity is above what the density asks for, by at most 30, and its trigger is not below the estimate |
| `HashTable.NextCapacityExactly` | src/class/ww_hash_table.c:169-170 | the next capacity is above the last one times the growth factor, by at most 30 |
| `HashTable.EstimateSuffices` | src/class/ww_hash_table.c:113-126 | a table made for n entries takes the first n - 1 without growing, and with growth of at least one grows at the n-th exactly when its trigger is n |
| `HashTable.DefaultFactors` | src/class/ww_hash_table.c:131-136 | the default table's trigger is half its capacity, and it is made and grown to more than twice its estimate and capacity, by at most 30 |
| `HashTable.Table.Grow` | src/class/ww_hash_table.c:157-206 | rehashing keeps exactly the same bindings and gives a valid table of the rounded, scaled capacity |
| `HashTable.ClearOpensHole` | src/class/ww_hash_table.c:226-231 | clearing a slot leaves one gap on the probe paths, the slot itself |
| `HashTable.FirstFreeBefore` | src/class/ww_hash_table.c:248-261 | the re-placing probe stops at the entry itself or at a free slot before it, all slots on the way being filled |
| `HashTable.MoveShiftsHole` | src/class/ww_hash_table.c:253-257 | moving a follower into the hole makes its old slot the only hole |
| `HashTable.StayKeepsHole` | src/class/ww_hash_table.c:250-252 | an entry whose probe does not cross the hole stays, and the hole stays the only one |
| `HashTable.HoleCloses` | src/class/ww_hash_table.c:241-246 | at a free slot the scan may end: no probe path has a gap any more |
| `HashTable.ClearRepresents` | src/class/ww_hash_table.c:226-229 | clearing the slot of a key removes exactly that binding |
| `HashTable.Table.RePlace` | src/class/ww_hash_table.c:247-261 | one turn of the scan keeps the one-hole invariant and the bindings, and comes closer to the free slot that ends it |
| `HashTable.Table.RePlaceFollowers` | src/class/ww_hash_table.c:241-262 | after the scan no probe path has a gap and the bindings are unchanged |
| `HashTable.Table.RemoveEltAt` | src/class/ww_hash_table.c:212-265 | removing at a slot removes exactly its binding, lowers the size by one and keeps the table valid; an empty slot is an error that changes nothing |
| `HashTable.FreeSlotExists` | src/class/ww_hash_table.c:303-314 | a table with fewer bindings than slots has a free slot, which ends every unbounded probe loop |
| `HashTable.ProbeMiss` | src/class/ww_hash_table.c:303-307 | reaching a free slot without meeting the key proves the key absent from the whole table |
| `HashTable.InsertKeeps` | src/class/ww_hash_table.c:343-348 | storing a new key at the free slot that ends its probe keeps the invariant and adds exactly that binding |
| `HashTable.ReplaceKeeps` | src/class/ww_hash_table.c:355-358 | replacing the value of a stored key changes only that binding |
| `HashTable.Table.Probe` | src/class/ww_hash_table.c:303-314 | the probe loop ends and finds the key exactly when the table maps it, or else the free slot where it belongs; it stops at once, at the key's hash modulo the capacity, when that slot is free or holds the key |
| `HashTable.Table.GetValue` | src/class/ww_hash_table.c:282-316 | get finds a key exactly when the map has it, with the mapped value |
| `HashTable.Table.SetValue` | src/class/ww_hash_table.c:318-363 | wherever there is a slot for the key a set updates exactly one binding and gives the capacity the factors ask for; the table is valid afterwards if and only if a slot stays free, and otherwise every slot is used; with the default factors a new key leaves the size below the trigger |
| `HashTable.Table.RemoveValue` | src/class/ww_hash_table.c:365-397 | remove deletes exactly the key's binding and reports whether it was there |
| `HashTable.DefaultGrowSuffices` | src/class/ww_hash_table.c:131-136 | with density 1/2 and growth 2/1 one grow always brings the size below the new trigger |
| `HashTable.Table.GetNextElt` | src/class/ww_hash_table.c:707-723 | the next used slot after a given one, with nothing skipped, or none |
| `HashTable.Table.Traverse` | src/class/ww_hash_table.c:725-746 | first and next visit every binding exactly once and nothing else |
| `HashTable.Run` | src/class/ww_hash_table.c:108-397 | every run of get, set, remove and remove-all on a new table, with growth in between and any factors, returns codes, values and sizes of a finite map, as long as no operation leaves the table without a free slot |
| `HashTable.RunInRange` | src/class/ww_hash_table.c:108-397 | with density of at most one and growth of at least one that is every run |
| `HashTable.InRangeNeverFull` | src/class/ww_hash_table.c:343-354 | with such factors no run leaves the table without a free slot |
| `HashTable.NeverFullExactly` | src/class/ww_hash_table.c:108-136 | the factors for which no size estimate and no run do are exactly those |
| `HashTable.DenseTableFills` | src/class/ww_hash_table.c:340-354 | for every density above one there are a size estimate and a run that fill the table up |
| `HashTable.SlowTableFills` | src/class/ww_hash_table.c:169-203 | and so for every growth below one |
| `HashTable.FullTableTraps` | src/class/ww_hash_table.c:303-314 | in a table without a free slot the probe for an absent key has nowhere to stop |
| `HashTable.RehashGetsStuck` | src/class/ww_hash_table.c:185-199 | a rehash into fewer slots than there are entries comes to an entry for which every slot is used, whatever the hash |
| `HashTable.FillUp` | src/class/ww_hash_table.c:108-363 | a table made for no entries with a density of two is full, without a free slot, after the first set |
| `Wrapping.WrapIsMod` | src/util/crc.c:946-951 | the wrap-around of an unsigned word, by one turn of the word at a time, is reduction modulo its size |
| `Checksum.SplitSum` | src/util/crc.c:923-1071 | the padded sum of two strings is the whole-word sum of the first and the padded sum of its tail followed by the second |
| `Checksum.Extend` | src/util/crc.c:943-946 | a piece that goes into the partial word changes the padded sum by new word minus old word |
| `Checksum.AddToPartial` | src/util/crc.c:943-946 | filling bytes into the partial word and correcting the checksum keeps it equal to the gain of the padded sum |
| `Checksum.SumDirect` | src/util/crc.c:967-971 | the counted loop over aligned words sums every whole word and loads only at aligned addresses; nothing is left of an aligned length |
| `Checksum.SumCopied` | src/util/crc.c:948-954 | the counted loop that copies each word sums every whole word |
| `Checksum.SumDown` | src/util/crc.c:1019-1027 | so does the loop that counts the length down |
| `Checksum.FillWord` | src/util/crc.c:941-957 | with enough data the partial word is filled out and nothing is left pending |
| `Checksum.FillPart` | src/util/crc.c:958-965 | with too little data all of it joins the pending bytes |
| `Checksum.AlignedStage` | src/util/crc.c:939-980 | on an aligned source every carry branch sums a prefix and leaves less than a word, and leftover bytes only when nothing is pending; the fast path returns at once exactly when nothing is pending and the length is aligned, and then all is summed |
| `Checksum.UnalignedStage` | src/util/crc.c:981-1028 | the same for the branches of an unaligned source, which filling a word may align |
| `Checksum.CsumPartial` | src/util/crc.c:923-1071 | one call returns the gain of the padded word sum and leaves the tail as the carried state with zero bytes beyond it; the branch that fills a partial word at the end is unreachable |
| `Checksum.CsumChunks` | src/util/crc.c:923-1071 | the results of successive calls over any cutting of a string, at any addresses, add up to the padded word sum of the whole |
| `Checksum.Csum` | src/util/crc.h:138-144 | the one-shot form is the padded word sum, so the weighted sum of all bytes; a single byte x gives x on a little-endian host and x times 256^(w-1) on a big-endian one |
| `Checksum.SumOfBytes` | src/util/crc.c:923-1071 | the padded word sum is the sum of all bytes, each times the weight of its place: on a little-endian host the first byte of a word counts 1, on a big-endian one the last |
| `Checksum.LittleAppend` | src/util/crc.c:967-971 | on a little-endian host the bytes that come first in memory count least |
| `Checksum.BigAppend` | src/util/crc.c:967-971 | on a big-endian host they count most |
| `Checksum.PowValues` | src/util/crc.c:923-1071 | the words of both families have 2^32 and 2^64 values |
| `Checksum.WordValueInjective` | src/util/crc.c:937-946 | a word value determines its memory image, in either byte order |
| `Checksum.OneWordDetected` | src/util/crc.c:923-1071 | strings of equal length that differ within one word have different checksums |
| `CopyChecksum.CopyDirect` | src/util/crc.c:470-476 | the counted loop over aligned buffers sums and copies every whole word, with aligned loads and stores |
| `CopyChecksum.CopyFromAligned` | src/util/crc.c:531-540 | the loop over an aligned source sums and copies every whole word, with aligned loads |
| `CopyChecksum.CopyToAligned` | src/util/crc.c:587-596 | the loop into an aligned destination does, with aligned stores |
| `CopyChecksum.CopyUnaligned` | src/util/crc.c:641-651 | the loop for any alignment does, copying each word in and out |
| `CopyChecksum.BothAligned` | src/util/crc.c:436-484 | with both buffers aligned every carry branch sums and copies a prefix; the routine returns at once exactly when nothing is pending, the length is aligned and there is no residue, and then all is summed and copied |
| `CopyChecksum.SourceAligned` | src/util/crc.c:485-540 | with only the source aligned every branch sums and copies a prefix |
| `CopyChecksum.DestAligned` | src/util/crc.c:541-596 | with only the destination aligned every branch does |
| `CopyChecksum.NeitherAligned` | src/util/crc.c:597-652 | with neither aligned every branch does |
| `CopyChecksum.FillResidue` | src/util/crc.c:708-741 | past the copied bytes the leftover and the residue join the partial word without losing a byte |
| `CopyChecksum.ResidueStage` | src/util/crc.c:708-762 | the residue is summed to its end with the right carry |
| `CopyChecksum.Finish` | src/util/crc.c:654-764 | the leftover bytes are copied and summed, with the residue or without; the branch that would fill a partial word is unreachable |
| `CopyChecksum.BcopyCsumPartial` | src/util/crc.c:416-765 | exactly the first copylen bytes are copied, and checksum and carry are those of the plain routine over max(copylen, csumlen) bytes |
| `Csum16.FoldStep` | src/util/crc.h:123-126 | a fold keeps the residue modulo 65535, never turns a positive sum into zero, and makes the sum smaller |
| `Csum16.Fold` | src/util/crc.h:123-126 | the fold loop ends with a 16-bit value of the same residue |
| `Csum16.Csum16` | src/util/crc.h:110-128 | the result fits 16 bits and is congruent modulo 65535 to the 32-bit accumulated word sum, zero only for zero |
| `Csum16.SumByPlaces` | src/util/crc.h:113-122 | in the 16-bit word sum bytes at even places count 1 and those at odd places 256 on a little-endian host, the other way round on a big-endian one; a last odd byte counts 1 on both |
| `Csum16.ExactResidue` | src/util/crc.h:110-128 | the result is congruent to the true word sum exactly when the number of lost carries is a multiple of 65535, and always up to 65537 words |
| `Csum16.LimitIsTight` | src/util/crc.h:110-128 | for 65538 words of ones the residue is lost |
| `Crc.PolynomialValue` | src/util/crc.h:33-33 | the generator has the value 0x04c11db7 |
| `Crc.RegisterValue` | src/util/crc.h:34-34 | the starting register has the value 0xffffffff |
| `Crc.ShiftLeftValue` | src/util/crc.c:1185-1186 | shifting a word left multiplies what stays in it by a power of two; the dropped bits are its leading ones |
| `Crc.DivisionExactly` | src/util/crc.c:1087-1095 | the reference division finds the one quotient and the one remainder for which the dividend is a multiple of the generator plus the remainder |
| `Crc.FeedIsDivision` | src/util/crc.c:1087-1095 | feeding bits through the shift register is long division by the polynomial |
| `Crc.FeedIsRounds` | src/util/crc.c:1087-1095 | up to 32 message bits may enter as one xor into the register before the rounds |
| `Crc.StepIsFeed` | src/util/crc.c:1185-1186 | one table step is eight bit steps |
| `Crc.CrcIsDivision` | src/util/crc.c:1168-1205 | the table-driven CRC is the remainder of the polynomial division, for every message and starting register |
| `Crc.CrcAppend` | src/util/crc.c:1168-1205 | the CRC of a message cut in two is that of the second part from that of the first |
| `Crc.RoundInjective` | src/util/crc.c:1090-1093 | a round loses no information |
| `Crc.BurstDetected` | src/util/crc.c:1168-1205 | messages that differ only within 32 consecutive bits have different CRCs |
| `Crc.FourBytesDetected` | src/util/crc.c:1168-1205 | messages that differ only within four consecutive bytes have different CRCs |
| `Crc.SelfCheck` | src/util/crc.c:1168-1205 | a message followed by the four big-endian bytes of its CRC drives the register to zero |
| `Crc.BuildEntry` | src/util/crc.c:1088-1096 | the inner loop computes the table entry |
| `Crc.Table.Initialize` | src/util/crc.c:1082-1101 | all 256 entries are right and the table is marked built |
| `Crc.Table.StepByTable` | src/util/crc.c:1185-1186 | a look-up step equals the specified byte step |
| `Crc.Table.CrcWords` | src/util/crc.c:1179-1189 | the word loop loads at aligned addresses only and takes the bytes of each word in memory order |
| `Crc.Table.CrcPartial` | src/util/crc.c:1168-1205 | aligned or not, the routine returns the CRC of the bytes from the given register, building the table when needed |
| `Crc.Table.WholeCrc` | src/util/crc.h:177-181 | the one-shot form is the remainder of the division started from all ones; the empty message gives 0xffffffff |
| `Crc.Table.CopyCrc` | src/util/crc.c:1119-1157 | the copied part: exactly those bytes are copied and their CRC is returned, with either loop, and words are loaded and stored at aligned addresses only |
| `Crc.Table.BcopyCrcPartial` | src/util/crc.c:1103-1165 | the first copylen bytes are copied and the CRC covers max(copylen, crclen) bytes |
| `LinkedList.List.constructor` | src/class/ww_list.c:83-98 | a new list is a ring of the sentinel alone |
| `LinkedList.Transfer` | src/class/ww_list.c:160-189 | the six assignments make three new links when the three cuts are at different places, and change nothing when pos is end; what they do to an empty segment, and to the last link of one that pos lies in, is stated |
| `LinkedList.MovedBetween` | src/class/ww_list.c:167-175 | three new links move the segment out of one ring and into another, both staying chains |
| `LinkedList.MovedWithin` | src/class/ww_list.c:167-175 | within one ring the same three links exchange two neighbouring segments |
| `LinkedList.TransferWithin` | src/class/ww_list.c:160-189 | transfer inside one list moves exactly the segment and keeps the set of nodes |
| `LinkedList.TransferBetween` | src/class/ww_list.c:160-189 | transfer between two lists moves exactly the segment; both are rings with no node in common |
| `LinkedList.CountSegment` | src/class/ww_list.c:214-221 | the counting loop gives the length of the segment, also when it ends at the sentinel |
| `LinkedList.Splice` | src/class/ww_list.c:207-230 | splice moves exactly the segment before pos, between any two well linked lists or within one, with no node lost or shared; each length changes by exactly the number of items moved, round the word |
| `LinkedList.Join` | src/class/ww_list.c:192-204 | on any well linked lists: between two, both stay rings if and only if the length of the other is zero or it has items, and then all items move exactly when that length is not zero; with itself, a list stays a ring if and only if its length is zero, it has no items, or pos is not its first item, and before a later item it becomes empty and the lost items two rings of their own; where a ring breaks no items at all make one from its sentinel; the lengths are added, round the word, and cleared |
| `LinkedList.JoinAfterInsert` | src/class/ww_list.c:192-204 | two items, one inserted at index 0, both removed, and the list joined to a new one: no items make a ring of either any more |
| `LinkedList.TransferBeforeFirst` | src/class/ww_list.c:160-189 | of all items before the first of them: no items make a ring from the sentinel any more |
| `LinkedList.TransferInside` | src/class/ww_list.c:160-189 | of all items before a later one of them: the sentinel is a ring alone, and the items before and from pos are one ring each |
| `LinkedList.JoinBeforeFirst` | src/class/ww_list.c:192-204 | a list of one item joined with itself before that item is no ring any more |
| `LinkedList.JoinBeforeSecond` | src/class/ww_list.c:192-204 | a list of two items joined with itself before the second is a valid empty list, and each item links to itself |
| `LinkedList.SelfJoin` | src/class/ww_list.c:192-204 | a list of one item joined with itself has the item and the length zero |
| `LinkedList.Insert` | src/class/ww_list.c:114-157 | on any well linked list: exactly an index below the length, read as a signed number, is taken; insert then links the item in at its place for every index, going on round the ring where a wrong length lets the index pass the items; the length goes up by one, and by two at index 0, round the word |
| `LinkedList.SignedExactly` | src/class/ww_list.c:120-120 | a length as a `long long` is the one number in its range that wraps to the length |
| `LinkedList.WrappedIsMod` | src/class/ww_list.c:134-137 | an index beyond the items stands for its remainder by their number plus one |
| `LinkedList.RefusedAtFront` | src/class/ww_list.c:120-122 | a list joined with itself and emptied has a length below zero, and refuses an item at index 0 |
| `LinkedList.NegativeIndex` | src/class/ww_list.c:134-143 | an item inserted at index -1 becomes the second one |
| `LinkedList.ItemBefore` | src/class/ww_list.c:134-137 | the walk stops at the item behind which the new one belongs, for negative indices too |
| `LinkedList.Append` | src/class/ww_list.h:544-583 | the item is added at the end of a well linked list and the length goes up by one, round the word |
| `LinkedList.PrependItem` | src/class/ww_list.h:599-633 | the item is added at the front |
| `LinkedList.RemoveItem` | src/class/ww_list.h:477-519 | exactly that item goes, the one before it is returned, and the length goes down by one, round from zero to the largest value |
| `LinkedList.RemoveFirst` | src/class/ww_list.h:652-695 | on any well linked list, whatever its length says: nothing at length zero, else the first item goes; the sentinel comes back as an item exactly when there are no items but the length is not zero |
| `LinkedList.RemoveLast` | src/class/ww_list.h:714-756 | the same for the last item |
| `LinkedList.DrainAfterInsert` | src/class/ww_list.c:124-155 | an insertion at index 0 and three removals from two items reach that state |
| `LinkedList.InsertPos` | src/class/ww_list.h:767-797 | the item is added before pos |
| `Condition.Cond.WaitEnter` | src/threads/condition.h:59-70 | a wait parks its thread exactly when no wakeup is outstanding, and never takes one that is |
| `Condition.Cond.WaitRetry` | src/threads/condition.h:71-85 | a parked thread leaves with one wakeup exactly when there is one, and the count of parked threads stays right |
| `Condition.Cond.TimedEnter` | src/threads/condition.h:88-128 | a timed wait takes an outstanding wakeup at once, or parks |
| `Condition.Cond.TimedRetry` | src/threads/condition.h:98-127 | a timed waiter leaves with a wakeup if there is one, without one when its time is up, and else stays parked |
| `Condition.Cond.Signal` | src/threads/condition.h:130-136 | one more wakeup exactly when some thread is parked |
| `Condition.Cond.Broadcast` | src/threads/condition.h:138-142 | as many wakeups as there are parked threads |
| `Condition.StepKeepsInv` | src/threads/condition.h:59-142 | every step of every thread keeps c_waiting equal to the number of parked threads, and no thread in a wait holds the mutex |
| `Condition.RunKeepsInv` | src/threads/condition.h:59-142 | so does every run, with signals and timed waits |
| `Condition.MutexExactly` | src/threads/condition.h:59-142 | after every step its thread holds the mutex if and only if it is outside the wait functions, except that an unlock gives it up; no step touches another thread |
| `Condition.EntersExactly` | src/threads/condition.h:59-128 | without signals a wait and a timed wait park and give the mutex up; with signals a wait gives it up once and takes none, and a timed wait takes one and returns |
| `Condition.LeavesExactly` | src/threads/condition.h:71-128 | a thread comes out of a wait function only with the mutex: with a signal, from a timed wait whose time is up, or from a wait that found signals, which takes none |
| `Condition.OnlyBroadcasts` | src/threads/condition.h:59-142 | at every moment of every run of waits and broadcasts c_signaled is zero or equals c_waiting, which counts the parked threads |
| `Condition.AllSignaledExactly` | src/threads/condition.h:59-142 | exactly which single steps can leave a parked thread without a signal |
| `Condition.SignaledUnlessStolen` | src/threads/condition.h:59-142 | over every run before a thread parked in either kind of wait retries, all parked threads have a signal at every moment if and only if no timed wait is taken where the signals are just enough |
| `Condition.WakeupKept` | src/threads/condition.h:71-85 | so a parked thread keeps its signal over every run without such a timed wait |
| `Condition.BroadcastWakes` | src/threads/condition.h:59-142 | a thread parked at a broadcast, in a wait or a timed wait, returns with the mutex and a signal at its first retry after it, in every run without such a timed wait |
| `Condition.NoLateArrival` | src/threads/condition.h:64-70 | while signals are left no new thread parks |
| `Condition.StepWithin` | src/threads/condition.h:59-142 | of all steps exactly a signal given where every parked thread already has one makes more signals than parked threads |
| `Condition.WithinUnlessOversignaled` | src/threads/condition.h:59-142 | over every run there are never more signals than parked threads if and only if no such signal is given |
| `Condition.NoStaleSignal` | src/threads/condition.h:59-142 | a run from the start without such a signal never leaves a signal with no one parked, at any moment |
| `Condition.SurplusExactly` | src/threads/condition.h:59-142 | without a broadcast or a timed wait a run ends without a surplus if and only if it began without one and no such signal was given |
| `Condition.StaleExactly` | src/threads/condition.h:59-142 | such a run from the start ends with a left-over signal exactly when no one is parked and such a signal was given |
| `Condition.WakeKeepsSurplus` | src/threads/condition.h:71-85 | a surplus of signals stays at every wakeup, and is left over when the last parked thread has woken |
| `Condition.StaleSignalSticks` | src/threads/condition.h:64-70 | a left-over signal stays, and no thread parks, if and only if the run has neither a broadcast nor a timed wait |
| `Condition.StaleSignalReached` | src/threads/condition.h:130-136 | two signals for one waiter lead there |
| `Condition.TimedWaitSteals` | src/threads/condition.h:124-126 | a timed wait after a broadcast can leave a thread parked at it without wakeup |
| `Atomics.StepKeepsInv` | src/sys/atomic_impl.h:44-83 | every read and compare-and-set of every thread keeps the word equal to the sequential replay of the completed operations |
| `Atomics.Linearizable` | src/sys/atomic_impl.h:44-83 | in every interleaving the completed swaps, adds and subs are a sequential run with the same word and the same results |
| `Atomics.CompletesExactly` | src/sys/atomic_impl.h:44-83 | in every run a compare-and-set completes its operation exactly when the word still is what was read, and always when no other operation completed since; else nothing but a new attempt follows |
| `Atomics.Undisturbed` | src/sys/atomic_impl.h:44-83 | alone, a swap writes its value and returns the old one, and an add or a sub changes the word by its delta modulo 2^32 and returns the new one |
| `Atomics.Interference` | src/sys/atomic_impl.h:44-62 | an add that a swap comes between fails once and completes on the swapped value |
| `Atomics.FailureMeansProgress` | src/sys/atomic_impl.h:48-50 | a compare-and-set fails only because another thread's operation completed since the read |
| `Atomics.RunningTotals` | src/sys/atomic_impl.h:44-83 | over every run the word is the value of the last swap, or the initial one, plus all deltas since then modulo 2^32 |
| `Atomics.ResultTotals` | src/sys/atomic_impl.h:44-83 | every result is that total at its place in the order: for a swap the one before it, for an add or a sub the one with its own delta |
| `Spinlock.StepKeepsInv` | src/sys/atomic_impl.h:410-436 | every step keeps at most one holder, and the word reads locked exactly when there is one |
| `Spinlock.HolderExactly` | src/sys/atomic_impl.h:410-436 | a lock attempt or a trylock takes the lock if and only if no one holds it, and a trylock returns 0 exactly then and else changes nothing; only the holder's unlock frees it; no step touches another thread |
| `Spinlock.HeldUntilUnlock` | src/sys/atomic_impl.h:410-436 | until the holder unlocks it stays the only one, and every trylock returns 1 |
| `Spinlock.HandOver` | src/sys/atomic_impl.h:419-436 | a thread that spins at a held lock gets it after the unlock |
| `Spinlock.MutualExclusion` | src/sys/atomic_impl.h:410-436 | so does every run, and trylock succeeds exactly when nobody holds the lock |
| `PointerArray.Table.constructor` | src/class/ww_pointer_array.c:50-58 | a new array has no slots, no storage and the largest limit |
| `PointerArray.Table.Init` | src/class/ww_pointer_array.c:77-103 | init refuses a block size above the limit, and else allocates that many free slots |
| `PointerArray.Table.Grow` | src/class/ww_pointer_array.c:298-331 | growing takes soft or hard size within the limit, appends free slots and keeps the counts exact, or changes nothing |
| `PointerArray.Table.Fill` | src/class/ww_pointer_array.c:129-147 | the least free slot is filled, and count and lowest free index are exact afterwards |
| `PointerArray.Table.Add` | src/class/ww_pointer_array.c:113-151 | add returns the least free index, overwrites no entry, doubles a full table, and fails exactly when that would pass the limit |
| `PointerArray.Table.MakeSlot` | src/class/ww_pointer_array.c:117-124 | a full table is doubled, or gets its first slot, exactly when the limit allows; then there is a free slot unless no slots were doubled |
| `PointerArray.ReachNoSlots` | src/class/ww_pointer_array.c:91-97 | an array initialised with both sizes zero has no slot, and doubling gives it none |
| `PointerArray.Table.OverrunExactly` | src/class/ww_pointer_array.c:172-173 | growing for an index succeeds without making room for it exactly when the index is even and the largest below the limit |
| `PointerArray.ReachOverrun` | src/class/ww_pointer_array.c:298-331 | a new array with the limit 3 reaches it: growing for index 2 succeeds with two slots |
| `PointerArray.Table.SetItem` | src/class/ww_pointer_array.c:164-214 | exactly the slot changes, after growth if needed, with exact count and lowest free index; when it fails nothing changes |
| `PointerArray.Table.TestAndSetItem` | src/class/ww_pointer_array.c:230-286 | only a free slot is filled, otherwise nothing changes |
| `PointerArray.Table.SetSize` | src/class/ww_pointer_array.c:288-296 | the table grows to the size, with free slots, exactly when the limit allows; it never shrinks |
| `PointerArray.Table.GetItem` | src/class/ww_pointer_array.h:119-129 | the stored pointer, or NULL beyond the size |
| `PointerArray.Table.RemoveAll` | src/class/ww_pointer_array.h:186-197 | all slots are free afterwards, the size stays |
| `PointerArray.FreeSlot` | src/class/ww_pointer_array.c:113-151 | the count of free slots is positive exactly when there is one |
| `Hotel.Hotel.constructor` | src/class/ww_hotel.c:46-94 | in a new hotel every room is free and on the stack |
| `Hotel.Init` | src/class/ww_hotel.c:46-59 | init refuses exactly a hotel without rooms or without an eviction callback |
| `Hotel.Hotel.Checkin` | src/class/ww_hotel.h:186-209 | a free room is given out and its timer started; no room when and only when all are taken |
| `Hotel.Hotel.Checkout` | src/class/ww_hotel.h:283-309 | the occupant is handed back, the room is free again, and only an occupied room goes on the stack |
| `Hotel.Hotel.Vacate` | src/class/ww_hotel.h:245-270 | giving a room back never overflows the stack |
| `Hotel.Hotel.Evict` | src/class/ww_hotel.c:21-43 | a pending timer always finds a real occupant and frees its room |
| `Hotel.Hotel.IsEmpty` | src/class/ww_hotel.h:317-323 | the stack height tells whether all rooms are free |
| `Hotel.Hotel.Knock` | src/class/ww_hotel.h:335-350 | the occupant without a checkout, or NULL |
| `Hotel.AllPresent` | src/class/ww_hotel.h:317-323 | a list of different rooms is all of them exactly when it is that long |
| `Hotel.TakeRoom` | src/class/ww_hotel.h:195-207 | taking the top room keeps the stack the list of exactly the free rooms |
| `Hotel.GiveRoom` | src/class/ww_hotel.h:262-266 | pushing a vacated room does too, and there is space for it |
| `Hotel.Apply` | src/class/ww_hotel.h:186-309 | one event gives the most recently vacated room to who enters, hands back the occupant of the room left, and changes the guests by exactly those |
| `Hotel.Run` | src/class/ww_hotel.h:186-309 | every run has the guests enter and leave, in order, as the stack of free rooms says; those who entered are those handed back by checkout or eviction and those still there |
| `RingBuffer.Ring.constructor` | src/class/ww_ring_buffer.c:66-81 | a new ring of any size is empty |
| `RingBuffer.Ring.Push` | src/class/ww_ring_buffer.c:83-105 | push appends, and returns the displaced oldest item exactly when the ring was full |
| `RingBuffer.Ring.Pop` | src/class/ww_ring_buffer.c:107-128 | pop removes and returns the oldest item, NULL when there is none |
| `RingBuffer.Ring.Poke` | src/class/ww_ring_buffer.c:130-154 | the i-th oldest item or NULL; the newest for a negative index |
| `RingBuffer.FirstInFirstOut` | src/class/ww_ring_buffer.c:83-128 | over any run what came out and then what is left is what went in, in the same order |
| `RingBuffer.Run` | src/class/ww_ring_buffer.c:66-154 | every run answers as the bounded queue does; a ring without slots is only popped and poked |
| `Argv.JoinSplitWithEmpty` | src/util/argv.c:179-334 | joining split-with-empty gives the string back, less one trailing delimiter |
| `Argv.SplitWithEmptyExactly` | src/util/argv.c:179-334 | split-with-empty gives the one vector of strings without the delimiter that joins to the string less one trailing delimiter, empty only for the empty string |
| `Argv.SplitIsClean` | src/util/argv.c:179-251 | plain split gives non-empty strings without the delimiter |
| `Argv.SplitJoined` | src/util/argv.c:179-334 | plain split undoes join exactly for such vectors |
| `Argv.SplitAppend` | src/util/argv.c:179-251 | splitting two strings put together with the delimiter gives the strings of the one, then of the other |
| `Argv.ScanPiece` | src/util/argv.c:190-196 | the scan stops at the first delimiter or the end |
| `Argv.SplitOne` | src/util/argv.c:189-246 | each turn of the loop, in every branch, appends the right piece and goes on with the right rest |
| `Argv.SplitString` | src/util/argv.c:253-261 | the loop computes the split, with or without empty pieces |
| `Argv.Join` | src/util/argv.c:285-334 | the character loop computes the joined string in the length computed before |
| `Argv.Count` | src/util/argv.c:266-278 | the number of strings before the NULL |
| `Argv.Delete` | src/util/argv.c:445-495 | exactly the strings asked for go, bad arguments change nothing, and the count is right exactly when they were all there |
| `Argv.DeletedExactly` | src/util/argv.c:463-492 | where every string stands after a deletion, also of more than there are |
| `Argv.DeletePastEnd` | src/util/argv.c:466-492 | deleting two strings from a vector of one leaves the count -1 |
| `Argv.AppendAll` | src/util/argv.c:57-95 | appending one by one gives the concatenation |
| `Argv.OpenGap` | src/util/argv.c:530-537 | the suffix moves up without losing a string |
| `Argv.Insert` | src/util/argv.c:498-549 | the source strings are put in before the position, or appended beyond the end; a negative position is refused |
| `Argv.InsertedExactly` | src/util/argv.c:511-546 | where every old and every new string stands after an insertion, also beyond the end |
| `Argv.DeleteInserted` | src/util/argv.c:445-549 | deleting what was inserted gives the vector back |
| `McaVar.FindSaved` | src/mca/base/mca_base_parse_paramfile.c:52-85 | saving a value keeps who is found first and replaces the value of that name only |
| `McaVar.SavedKeepsNoDuplicates` | src/mca/base/mca_base_parse_paramfile.c:52-85 | saving never gives a name two entries |
| `McaVar.FindSavedAll` | src/mca/base/mca_base_parse_paramfile.c:39-85 | after a run of assignments there are no duplicates and the found entry has the last value assigned to its name |
| `McaVar.FindAt` | src/mca/base/mca_base_var.c:1713-1717 | the entry found is the one at the least place with one of the two names |
| `McaVar.LastOfAt` | src/mca/base/mca_base_parse_paramfile.c:52-85 | the last assignment to a name is the one at the greatest place |
| `McaVar.ReadOrderLast` | src/mca/base/mca_base_var.c:1255-1262 | reading right to left makes the last assignment of the leftmost file that sets a name count |
| `McaVar.FilesRead` | src/mca/base/mca_base_var.c:1245-1270 | reading a list of files leaves no duplicates and gives each name that value |
| `McaVar.SetInFile` | src/mca/base/mca_base_var.c:1245-1270 | for a name and the files on disk: the last assignment to it in the leftmost file that has one counts |
| `McaVar.FileDecides` | src/mca/base/mca_base_var.c:1713-1717 | and its value is what the files give to a variable whose other name none of them sets |
| `McaVar.LeftmostCountsExactly` | src/mca/base/mca_base_var.c:1713-1717 | for a variable with two names the leftmost file that sets it counts exactly when it sets the name read first |
| `McaVar.RightmostCanCount` | src/mca/base/mca_base_var.c:1713-1717 | two files where the right one counts |
| `McaVar.FileValues.SaveValue` | src/mca/base/mca_base_parse_paramfile.c:52-85 | the search loop replaces the value of the name's node or appends one |
| `McaVar.FileValues.ParseParamfile` | src/mca/base/mca_base_parse_paramfile.c:39-45 | a file's assignments are saved in order and its exports collected |
| `McaVar.Keyval.AddExports` | src/util/keyval_parse.c:267-304 | the exported settings of a file are collected in order, separated by semicolons, in a buffer that a later setting may double |
| `McaVar.Keyval.AddToEnvStr` | src/util/keyval_parse.c:267-304 | one setting is appended, and the buffer doubled exactly when the wanted size reaches it |
| `McaVar.SettingsReadBack` | src/util/keyval_parse.c:286-301 | names and values without the separators can be read back from the collected text: cut at semicolons and equality signs it gives every export, in order |
| `McaVar.FitsUnlessOutgrown` | src/util/keyval_parse.c:276-301 | over every run of settings the text fits its buffer at every moment if and only if no first setting is as long as the buffer and no later one brings the text to twice its size |
| `McaVar.ReadsSafelyExactly` | src/util/keyval_parse.c:276-301 | while a list of files is read, with the settings forgotten when it ends, the text fits at every moment if and only if no setting of its files outgrows the buffer |
| `McaVar.ConfigSafeExactly` | src/mca/base/mca_base_var.c:545-557 | so it is over the reading of all three lists, from the first buffer on |
| `McaVar.OutgrowBuffer` | src/util/keyval_parse.c:290-301 | a first setting of 1024 characters outgrows it |
| `McaVar.FileValues.StoreInternal` | src/util/keyval_parse.c:186-194 | collected settings are stored under their own name and forgotten |
| `McaVar.InternalIsLeftmost` | src/mca/base/mca_base_var.c:1260-1267 | what is stored last counts like a file to the left of all |
| `McaVar.FileValues.ReadFiles` | src/mca/base/mca_base_var.c:1245-1270 | the files of the split list are read from right to left into the list, and then the collected settings are stored |
| `McaVar.Var.SetFromFile` | src/mca/base/mca_base_var.c:1701-1767 | a list of file values sets the variable exactly when it has one of its names and neither flag nor override forbids it |
| `McaVar.Var.GetEnv` | src/mca/base/mca_base_var.c:1580-1608 | value and companion of a name in the environment, the companion only with a value |
| `McaVar.EnvExactly` | src/mca/base/mca_base_var.c:1580-1628 | the environment gives the value of the long name before that of the full name, with the companion of the name that does |
| `McaVar.CompanionTable` | src/mca/base/mca_base_var.c:1652-1664 | which companions, letter by letter, name a file, the override file or the command line |
| `McaVar.Var.SetFromEnv` | src/mca/base/mca_base_var.c:1613-1696 | so does the environment, the long name first; a companion can pass the value off as that of a file, the override file or the command line |
| `McaVar.CandidateOrder` | src/mca/base/mca_base_var.c:1789-1811 | the order of the sources, with the masks of the two flags |
| `McaVar.Var.SetInitial` | src/mca/base/mca_base_var.c:1772-1812 | the first of override file, environment, environment files and parameter files decides source and value; its value is stored expanded, or NULL when it is NULL or empty, and without one the default stays; file value and source file are those of the decider; exactly an override from the file makes the variable read-only; a settable variable has the override as its source exactly when the environment claims it, unmasked and with no value in the override file |
| `McaVar.ClaimOverride` | src/mca/base/mca_base_var.c:1652-1660 | an environment with a companion that names the override file reaches it |
| `McaVar.FixupFiles` | src/mca/base/mca_base_var.c:1169-1243 | each name of a prefix list is looked up on its own, in the directory for relative names, or along the search path; all are found and joined in order, or there is no result |
| `McaVar.FoundExactly` | src/mca/base/mca_base_var.c:1169-1243 | all names are found exactly when every one is, in their order |
| `McaVar.SearchExactly` | src/mca/base/mca_base_var.c:1186-1207 | the three ways of looking up one name, the last in the first directory of the path that has the file |
| `McaVar.PathFind` | src/util/path.c:112-164 | the directories are tried in order, with an environment variable at the head of one replaced, until one has the file |
| `McaVar.DirectoryReplaced` | src/util/path.c:135-157 | a directory "$name" or "$name/..." is that of the environment variable, or none |
| `McaVar.InFirstDirectory` | src/util/path.c:133-163 | the file found is that of the first directory that has it, and none is found exactly when no directory has it |
| `McaVar.ResolveRelativePaths` | src/mca/base/mca_base_var.c:390-411 | the found files are put in front of the file list, and without them the list stays |
| `McaVar.PrefixIsLeftmost` | src/mca/base/mca_base_var.c:390-411 | the files of the prefix list are then the leftmost of the list that is read |
| `McaVar.ReadAndResolve` | src/mca/base/mca_base_var.c:545-557 | from prefix lists, file lists, exported settings and environment to the stored value in one statement |

## Left out

- Allocation failure and overflow of `size_t`: allocations succeed and sizes fit.
- Debugging checks, object classes, reference counts and magic numbers of list items and objects.
- HashTable.Table.Init2: requires factors that are not negative and denominators that are not zero; the source takes `int`s and would divide by zero.
- HashTable.Table.SetValue: requires a slot for the key, without which the probe or the rehash has nowhere to place an entry (`HashTable.FullTableTraps`, `HashTable.RehashGetsStuck`).
- HashTable.Run: goes on only while a slot is free, as every later probe for an absent key needs one (`HashTable.FullTableTraps`).
- Hash table: the table of type methods with its "not initialised" and "other key type" errors, and the stale key of a cleared slot. The hash of a key is a parameter, so one model stands for the uint32, uint64 and pointer families, and the probe loop they repeat in get, set and remove is one method, `HashTable.Table.Probe`. Copying of pointer keys is not modelled.
- Checksums: a word variable is its memory image with a byte order, the word size is a parameter (4 and 8 stand for the two families), source and destination do not overlap, and pointers that move are offsets.
- CopyChecksum.CopyToAligned: stands for two loops of the source, which differ only in whether they count words or count the length down.
- Csum16.Csum16: takes words in the byte order given as a parameter, because the source reads them in host order.
- CRC: a word is its string of bits, most significant first, since the code only shifts, masks and xors.
- List: `ww_list_sort`, whose sorting is done by a library function that is not part of this model, and the accessors that only read one link. Splice and join require what their comments ask for: `pos` outside the moved segment.
- List: a `size_t` length has 64 bits and wraps both ways; the `int` loop counter of an insertion does not overflow.
- Condition: waiting without threads, which spins on the progress engine; the clock, which is the free choice `expired`; the mutex is a holder variable. Signals from outside the mutex are not modelled.
- Atomics.Linearizable: leaves out memory ordering; reads, writes and compare-and-sets are single steps of one order. An addition that overflows is taken to wrap, where the C language leaves it undefined.
- PointerArray.Table.SetItem: requires that the index is not negative, which the source does not check, and not the one of `PointerArray.Table.OverrunExactly`, where the source writes past its storage.
- PointerArray.Table.TestAndSetItem: requires that the index is not that one either; a negative index is refused by the source's own assertion.
- PointerArray.Table.Init: requires a block size that is not negative when there is no initial allocation; the source would ask for more storage than there can be.
- PointerArray.Table.Add: requires a slot or no storage, which excludes the array of `PointerArray.ReachNoSlots`, that the source's own assertion refuses.
- Hotel: the eviction callback of the user is the returned occupant, and a timer is a pending flag. Room numbers are those of the hotel: a too large one is refused by the source's own assertions, a negative one is not checked there. Stored pointers are not NULL.
- Hotel: `ww_hotel_checkin_with_res`, which is checkin when a room is known to be free.
- RingBuffer.Run: requires at least one slot for pushing, as `RingBuffer.Ring.Push` does.
- RingBuffer.Ring.Push: requires at least one slot, without which the source writes past its storage, and a pointer that is not NULL.
- Argv: memory of the strings; for counting, splitting and joining, and as the source of an insertion, a NULL vector is the empty one; append-unique, prepend, copy, append of one string and the quoting helpers.
- McaVar: what storing a string does to a leading or inner `~/` is the parameter `expand` of a variable; synonyms, deprecation warnings, groups, types other than string, the lexer of parameter files, and the list of file names kept for messages. Whether a file exists is whether it is in the map of files.
- McaVar.PathFind: for an empty search path the source reads through a NULL list (src/util/path.c:133), where the model finds nothing.
- McaVar.FixupFiles: whether a name in a directory is a readable file is the parameter `access`.
- McaVar.Keyval.AddToEnvStr: says what the text is also where it outgrows its buffer, where the source writes past it.
- McaVar.ReadAndResolve: starts where the file lists are known, so the registration of the variables that hold them, and the value "none" that disables reading, come before it.
- `ww_basename`, timings, the printf length guess, output streams, help text, progress threads, framework reference counts and the flag enumerator.
