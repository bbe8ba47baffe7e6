# A model of libspill's POSIX store

libspill keeps a keyed byte store as a heap inside one file: extents handed out by a
coalescing free list, a memory tier under a budget, a table of contents written at close, and a
pool of workers for asynchronous requests. This project models that core and proves what the
library is for: whatever is spilled, evicted, split over holes, retried, reopened or interleaved,
a caller sees one map from keys to bytes with zero-filled gaps.

How the files fit together:

- `Disk.dfy`, `ShortTransfers.dfy`: the file and the transfer loops. Every system call takes its
  outcome (whole, short, interrupted, failed) from a script, so a contract that holds for every
  script holds whatever the operating system does. `Clean` scripts contain no failure; `Sane` ones no
  short transfer on an uncached file.
- `Extents.dfy`, `Holes.dfy`, `Allocator.dfy`: the logical-to-file address map, scatter I/O, and the
  free list. `Partition` says that holes and live extents are aligned, non-empty, disjoint, and
  cover `[4096, fileEnd)` exactly, with holes sorted, never adjacent, and none ending at `fileEnd`.
- `Spec.dfy`, `Laws.dfy`: the abstract store (`Spec.Apply`, `Spec.Run`), and what each of its operations
  does byte by byte, in terms of the operation and the map alone.
- `Records.dfy`, `Updates.dfy`, `Footprint.dfy`, `Store.dfy`, `Limits.dfy`: records and the class `Store`. `Store.Valid` holds the partition, the ownership of
  every extent by one entry of one record, zeroed capacity past every size, and the accounting of
  the memory tier; `Store.Abs` is the map the caller sees.
  `Limits.dfy` restates the invariants and bounds of both halves with their numbers written out.
- `Octets.dfy`, `Crc.dfy`, `Toc.dfy`, `Format.dfy`, `Rebuild.dfy`, `Persist.dfy`, `Stale.dfy`: the on-disk
  image, byte by byte in `Format.dfy`, and close and reopen.
- `Appends.dfy`, `ManyAppends.dfy`, `Pool.dfy`, `Shared.dfy`, `SharedWrites.dfy`, `SharedExact.dfy`: step
  models of concurrent appends to one key and to many, of the worker pool, and of several processes on
  one file. Their theorems are over every interleaving. `AppendsProgress.dfy` and `ManyProgress.dfy`, the
  last part of `Pool.dfy` and `Shared.AnySchedule` say which steps are possible in every reachable state,
  so that those theorems are about runs that there are.
- `HashTable.dfy`, `Lru.dfy`: the two pointer structures, against a set of keys and a sequence.

Three promises of the source turn out not to hold everywhere, and are stated with the exact
condition under which they do:

- The header says that short transfers are retried, so that the data calls are all-or-nothing
  (include/libspill.h:291-292). The plain loops do this (`Disk.File.PlainWrite`); the uncached ones
  count a whole chunk as done however few bytes moved. `ShortTransfers.WriteExactly` and
  `ShortTransfers.ReadExactly` say when that is harmless, and `ShortTransfers.LosingWrite` and
  `ShortTransfers.LosingRead` run the loops where it is not.
- Processes sharing a store may write disjoint ranges, but with `direct_io`, which `ls_open` accepts
  together with `LS_SHARED`, a byte can be lost when two ranges share a block.
  `SharedExact.AgreeExactly`; `SharedWrites.SharedAgreement` is the positive result.
- A store closed with no records loads back only if what lies past the end of its heap has the
  checksum of nothing, because a recorded length of 0 means "to the end of the file".
  `Toc.EmptyLoadsBack`; `Stale.EmptyStoreRefused` makes such a file by calls that all succeed.

## Model

| member | source | states |
|---|---|---|
| `Disk.WindowAt` | src/store.c:60-68 | the window of a bounce iteration is aligned, holds a non-empty part of what is left, and never exceeds the bounce buffer |
| `Disk.File.PlainWrite` | src/store.c:43-52 | under any short transfers and interruptions, cached or not, success means exactly the range was written; failure means a prefix of it was |
| `Disk.File.PlainRead` | src/store.c:43-52 | under any short transfers and interruptions success returns exactly the range, which then lies inside the file; with no failure a range inside the file is always read |
| `Disk.File.WriteWindow` | src/store.c:70-77 | the file becomes that of one read-modify-write iteration with the counts its two calls really moved; both are whole when no call is short |
| `Disk.File.BounceWrite` | src/store.c:54-88 | under every script the loop terminates and leaves the file that its iterations with their real counts give; while no call fails or is interrupted it reports success, however few bytes moved, and inside the file the counts are exactly those of the calls; when no call is short it changes exactly a prefix of `[off, off+n)`, all of it on success |
| `Disk.File.BounceRead` | src/store.c:54-88 | under every script the loop terminates and delivers what its windows with their real counts give; while no call fails or is interrupted it reports success, however few bytes moved; when no call is short it delivers the zero-extended contents |
| `Disk.File.WriteAll` | src/store.c:25-52 | when uncached calls are not short, both loops meet one contract, so the choice between them is invisible, and even a failure touches nothing outside the range; buffered, this holds for every script; the file never shrinks |
| `Disk.EnoughBounced` | src/store.c:54-88 | when every window moves enough, the bounce loop is the positional write, for every offset, length and skew |
| `Disk.File.ReadAll` | src/store.c:25-52 | when uncached calls are not short, and for every script when buffered, both loops return the range |
| `Disk.File.ZeroRange` | src/store.c:117-153 | when uncached calls are not short, and for every script when buffered, success leaves exactly the range zero and the file reaching its end, with or without the zeroing primitive, and nothing outside is touched either way |
| `Limits.ScriptLaw` | include/libspill.h:291-292 | the scripts the contracts speak of: without failures (`Clean`), without short uncached transfers (`Sane`), and with neither errors nor interruptions (`Moving`) |
| `ShortTransfers.BouncedInside` | src/store.c:59-85 | windows of one call are apart: each file byte ends as the one iteration whose window holds it would leave it |
| `ShortTransfers.WriteExactly` | src/store.c:59-85 | a finished uncached write is the positional write, for all bytes and all files long enough for the counts to come about, if and only if every window's read and write moved enough |
| `ShortTransfers.LosingWrite` | src/store.c:59-87 | for all counts that are not enough there is a file and a script on which the loop moves just those, loses bytes, and returns success |
| `ShortTransfers.LosingByte` | src/store.c:59-87 | one such run: a one-byte write whose last call moves nothing |
| `ShortTransfers.ReadExactly` | src/store.c:78-85 | a finished uncached read delivers the range, for all files long enough, if and only if the read of every window reached the end of its chunk; short of that it delivers zeros |
| `ShortTransfers.LosingRead` | src/store.c:78-87 | for all counts that do not reach there is a file and a script on which the loop moves just those, delivers wrong bytes, and returns success |
| `Extents.FileOffIn` | src/store.c:342-369 | extent `i` holds exactly the logical positions from the total of the earlier extents on |
| `Extents.FileOffInjective` | src/store.c:342-369 | two logical positions never share a file byte |
| `Extents.FileOffPrefix` | src/store.c:256-277 | growing an extent list does not move what it already addresses |
| `Extents.ScatterWrite` | src/store.c:342-375 | the scatter loop replaces exactly the logical range, in any list of disjoint extents, by exactly one positional write for each extent it crosses; a failure changes nothing outside it |
| `Extents.ScatterRead` | src/store.c:342-375 | the scatter loop returns the logical range byte for byte |
| `Holes.RoundUp` | src/alloc.c:18-21 | the least aligned size that is large enough |
| `Holes.CarvePartition` | src/alloc.c:97-108 | taking the front of a hole, or all of it, keeps the partition |
| `Holes.TailPartition` | src/alloc.c:135-143 | extending the file keeps the partition |
| `Holes.Coalesced` | src/alloc.c:42-63 | placing a freed extent and merging left and right gives sorted, non-adjacent holes covering exactly the old ones and the extent |
| `Holes.ReleasePartition` | src/alloc.c:37-77 | freeing one live extent, with the cut of a free tail, keeps the partition |
| `Holes.HolesUnique` | src/open.c:242-278 | a sorted list of non-adjacent holes is determined by the set of bytes it covers |
| `Holes.NothingLive` | src/alloc.c:65-75 | with nothing live the free list is empty and the heap has its initial end |
| `Allocator.ExtentHeap.constructor` | src/open.c:393 | a new heap is valid and empty |
| `Allocator.ExtentHeap.Best` | src/alloc.c:86-111 | finds a hole exactly when one suffices, takes a smallest sufficient one, keeps the partition |
| `Allocator.ExtentHeap.Largest` | src/alloc.c:114-132 | takes a largest hole whole, exactly when it is worth having, and keeps the partition |
| `Allocator.ExtentHeap.Tail` | src/alloc.c:135-143 | a fresh extent at the old end, and the partition kept |
| `Allocator.ExtentHeap.Allocate` | src/store.c:290-293 | a fresh live extent, never larger than needed, nor below the minimum unless it completes the record; a smallest sufficient hole if there is one, else the largest worth having, and the file grows only when there is neither |
| `Allocator.ExtentHeap.Coalesce` | src/alloc.c:42-63 | the in-place insertion and merges cover exactly the old holes and the new one, and stay sorted and non-adjacent |
| `Allocator.ExtentHeap.Insert` | src/alloc.c:37-77 | as `Coalesce`, then a tail hole becomes a lower end of file; the file loses nothing below the new end, and is cut to it exactly when the system call does not fail |
| `Allocator.ExtentHeap.Free` | src/alloc.c:145-157 | exactly one extent stops being live, the partition is kept, and a file end that moved is followed by the file exactly when the system call does not fail |
| `Allocator.ExtentHeap.FreeAll` | src/alloc.c:145-157 | freeing any extents in any order keeps the partition; freeing all of them restores the initial empty heap |
| `Allocator.ExtentHeap.Live` | src/alloc.c:159-167 | the end of the file less super block and holes is the sum of the live extents |
| `Records.OwnedApart` | src/internal.h:24-45 | one key's extents are disjoint, inside the heap, and never meet another key's |
| `Records.FreshInvisible` | src/store.c:295-299 | zeroing a fresh extent, completely or not, is invisible to every record |
| `Records.ScatterInvisible` | src/store.c:342-375 | a scatter write to one key is invisible to every other |
| `Records.CutInvisible` | src/alloc.c:65-75 | nothing outside the heap is visible to any record: not the cut of the tail, not a table of contents past it |
| `Records.PushRec` | src/store.c:295-299 | a zeroed extent added at the end grows the capacity and changes no content, and capacity past the size stays zero |
| `Records.SpillRec` | src/store.c:188-205 | once the buffer has landed, dropping it changes no content |
| `Records.TornRec` | src/store.c:188-199 | a spill that failed part way leaves the record, whose buffer is authoritative, as it was |
| `Spec.WritevIsFold` | src/store.c:666-670 | a vectored write is its segments written one after another, left to right |
| `Spec.RunSparesOtherKeys` | include/libspill.h:286-299 | whatever fails in a run, a key it does not name keeps its bytes |
| `Laws.SplitsLaw` | src/store.c:789-811 | what is asked of a reduction: it keeps lengths and may be applied 1048576 bytes at a time |
| `Spec.SplitMany` | src/store.c:789-811 | a reduction that splits at one chunk boundary splits at every one |
| `Laws.KeysRefused` | src/toc.c:8-14 | an operation is answered "invalid", and changes nothing, exactly when its key is empty, longer than 255 bytes or not a C string |
| `Laws.WriteLaw` | src/store.c:377-433 | a write ending at 2^64 or past it is refused, and in a shared store one that would create or grow; any other puts exactly its bytes, grows the record just enough, zeroes the gap and changes no other key |
| `Laws.ReadLaw` | src/store.c:377-433 | a read gives exactly the range, or refuses one that leaves the record or a key that is not there |
| `Laws.ReadAfterWrite` | include/libspill.h:286-289 | a read after a write sees the bytes written and, around them, what was there, zero in the gap |
| `Laws.WritevLaw` | src/store.c:604-678 | a vectored write is refused exactly when some segment ends at 2^64 or past it, or would grow a shared record; else each byte comes from the last segment over it, the others are kept or zero, and the record ends at the furthest segment or where it did |
| `Laws.ReadvLaw` | src/store.c:604-678 | a vectored read gives every range when all end within the record and refuses exactly when one does not |
| `Laws.ReserveLaw` | src/store.c:494-513 | a reservation grows a record with zeros and never shrinks it |
| `Laws.AppendLaw` | src/store.c:556-600 | an append puts its bytes at the end and returns where that was; one that would reach 2^64 creates the key and is refused |
| `Laws.EraseLaw` | src/store.c:481-492 | an erase removes exactly this key, or says that there is none |
| `Laws.FailureLaw` | include/libspill.h:291-294 | after a failure no other key has changed, a read has changed nothing, the record is as long as it was or as the operation would have made it, and only bytes the operation was about to write may differ from what was there or zero |
| `Laws.ReducedLaw` | src/store.c:754-819 | an accumulate changes the range it names, to what the reduction makes of it, and no other byte |
| `Laws.RunLaw` | include/libspill.h:286-359 | a run answers each operation from the state its predecessors left |
| `Updates.GrowStep` | src/store.c:281-300 | one allocation keeps the growth bound: exact rounded capacity at the end, small extents only to finish, a short list |
| `Updates.ReduceStep` | src/store.c:801-808 | combining one more chunk into the record is combining the longer prefix at once |
| `Limits.WindowLaw` | src/store.c:60-72 | in numbers: the window starts at the 4096-byte block of its first byte, moves what fits in 4194304 bytes, spans whole blocks and none too many, and is read first exactly when an end of its bytes is off a block boundary |
| `Limits.PartitionLaw` | src/alloc.c:31-77 | what `Partition` says, in numbers: every byte from 4096 to the end of the heap is in a hole or in a live extent and never in both, holes are whole blocks, sorted, with a gap between any two and before the end |
| `Limits.ChoiceLaw` | src/store.c:281-293 | where an allocation comes from, in numbers: the smallest hole that holds what is lacking, to the block; else, with fewer than seven extents, the largest hole if it has 65536 bytes or all that is lacking; else the end of the file |
| `Limits.GrowthLaw` | src/store.c:279-302 | what `EnsureExtents` leaves, in numbers: capacity to the block, added extents of 65536 bytes or more but for the last, and at most eight or one more than before |
| `Limits.BudgetLaw` | src/store.c:157-180 | what `Tier` says: the list has every resident record once, and its buffers stay within the budget |
| `Limits.EvictionLaw` | src/store.c:209-221 | an evicted record took with it every colder one that was neither kept nor busy, and what stays keeps its order |
| `Footprint.CostsAsked` | src/store.c:279-338 | the bound on the growth of the file in a run, from the number of its operations and the bytes they ask for |
| `Store.Store.GrowOnce` | src/store.c:281-299 | one turn adds a zeroed extent of good size, or gives it back and changes no record; the contents of the store are the same either way |
| `Store.Store.EnsureExtents` | src/store.c:279-302 | terminates; on success capacity is exactly the rounded need if it had to grow, no added extent but the last is below the minimum, and there are at most max(8, previous + 1) extents; no content changes, under any fault |
| `Store.Store.Spill` | src/store.c:182-207 | moves a record out of memory without changing any content; on failure the buffer and the recency order stay as they were |
| `Store.Store.EvictTo` | src/store.c:209-221 | terminates; ends within the target or with nothing evictable left; evicts from the cold end, nothing when already within the target, and never the kept record or a busy one; a record that stays resident is untouched, one that leaves only gains extents at its end; changes no content |
| `Store.Store.EnsureCap` | src/store.c:306-338 | room for the request in one tier or the other, resident bytes within the budget, no content changed; a record that already has room is left alone; given memory, one without extents that fits the budget is resident afterwards unless a fault or a busy record is in the way; the file grows by no more than was asked |
| `Store.Store.Prepare` | src/store.c:407-417 | the lock phase: the record exists and is zero-extended to the request, nothing else changes; a failure leaves the contents as they were |
| `Store.Store.WriteRange` | src/store.c:342-375 | in either tier, exactly the range of exactly this key is replaced; a failed write changes bytes only inside it |
| `Store.Store.ReadRange` | src/store.c:342-375 | in either tier, returns the range of the abstract contents |
| `Store.Store.DoWrite` | src/store.c:377-433 | write and writev refine the abstract store, errors included; a failure either changed nothing, or extended the record as the write would have and changed bytes only inside the written ranges |
| `Store.Store.DoRead` | src/store.c:377-433 | read and readv refine the abstract store and change no size, extent or attribute |
| `Store.Store.DoLayout` | src/store.c:481-513 | reserve, append and erase refine the abstract store, and are refused in a shared one; a failed reserve changes nothing but that the key exists, a failed append is as a failed write, an erase does not fail |
| `Store.Store.AppendTo` | src/store.c:556-600 | extends the record, appends exactly the payload and returns where it landed; a failure changed nothing, or extended the record by exactly the payload's length |
| `Store.Store.EraseKey` | src/store.c:481-492 | removes exactly this key and gives its extents back; every other key keeps its bytes though the file may be cut |
| `Store.Store.Do` | src/store.c:377-678 | every data operation refines the abstract store under every script of faults, with the exact aftermath of each failure; it keeps the invariant, leaves nothing in flight and no attribute changed; without faults the file grows by at most a fixed multiple of what was asked; in a shared store no table entry, extent, hole, or byte outside the heap changes |
| `Store.Store.Run` | src/store.c:377-678 | every run, with faults, is a trace of such steps; without faults replies and final contents are those of the abstract store, and the file and what is still to be spilled stay within a bound computed from the operations; in a shared store nothing has moved at the end |
| `Store.SameForEveryBudget` | include/libspill.h:286-359 | two stores that differ in budget, in how transfers are split and in caching answer every run alike |
| `Store.Store.Accumulate` | src/store.c:754-819 | the in-place call on a resident buffer and the chunked loop over extents give one result, the reduction applied once to the whole range; a failure is as a failed write; no other byte changes, and in a shared store nothing moves |
| `Store.Store.ReduceChunks` | src/store.c:793-811 | the read-reduce-write loop equals one application of the reduction |
| `Crc.Crc32Of` | src/open.c:40-50 | the bit loop computes the register of the specification function |
| `Crc.ConformsToRfc1952` | src/open.c:40-50 | that function is the CRC-32 of section 8 of RFC 1952, written there with a table |
| `Crc.BitLaw` | src/open.c:46-47 | the step of the bit loop, in numbers: shift right, and xor 0xedb88320 if the bit that fell out was 1 |
| `Crc.CheckValue` | src/open.c:40-50 | the checksum of "123456789" is 0xcbf43926 |
| `Crc.RegisterInjective` | src/open.c:44-48 | for every input the map from initial to final register is injective |
| `Crc.ByteDetected` | src/open.c:40-50 | changing one byte changes the checksum |
| `Crc.BurstDetected` | src/open.c:40-50 | changing anything within four consecutive bytes changes the checksum |
| `Toc.Unpacked` | src/open.c:31-38 | little-endian fields round-trip when the number fits |
| `Toc.RegUnpacked` | src/open.c:31-36 | the checksum field round-trips |
| `Format.LEByte` | src/open.c:31-34 | byte `i` of a field is the number over 256^i, modulo 256 |
| `Format.LEFour` | src/open.c:31-32 | the four bytes put32 writes, each in numbers |
| `Format.LEEight` | src/open.c:33-34 | the eight bytes put64 writes |
| `Format.ReadFour` | src/open.c:35-36 | the number get32 reads from four bytes |
| `Format.ReadEight` | src/open.c:37-38 | the number get64 reads from eight |
| `Format.Packed` | src/open.c:31-38 | any bytes are those of the number read from them, which fits their width |
| `Format.EightHeld` | src/open.c:37-38 | so any eight bytes hold some number below 2^64 |
| `Format.RegBytes` | src/open.c:31-32 | the four bytes the checksum is put as, by shifts and masks |
| `Format.RegHeld` | src/open.c:35-36 | any four bytes are those of the checksum read from them |
| `Toc.Put` | src/open.c:31-34 | the byte loop of put32 and put64 gives the little-endian field |
| `Toc.Get` | src/open.c:35-38 | the byte loop of get32 and get64, from the top down, gives the number |
| `Toc.PutEntry` | src/open.c:173-183 | the writes for one record give its entry |
| `Toc.TocSerialise` | src/open.c:156-189 | the writing loops, field by field and extent by extent, emit the serialised table |
| `Toc.LoadExtents` | src/open.c:215-231 | checking room for all extents first and then each against the heap accepts exactly what reading them one by one does |
| `Toc.LoadEntry` | src/open.c:201-231 | one turn of the loading loop gives or refuses an entry exactly as the specification parser |
| `Toc.TocLoad` | src/open.c:191-234 | the reading loops, with each bounds check where the source has it, accept and refuse exactly as the specification parser |
| `Toc.EntryBack` | src/open.c:172-184 | an entry reads back as itself, whatever follows it |
| `Toc.TocBack` | src/open.c:156-234 | loading a serialised table gives the table, whatever follows it in the buffer |
| `Toc.SuperBack` | src/open.c:513-528 | every field of the super block reads back |
| `Format.SuperBytes` | src/open.c:7-21 | every byte of the super block that is written, at its offset: "LIBSPILL", the number 2, the end of the heap twice, the count, the checksum, the length of the table, and zeros up to 4096 |
| `Format.RecordBytes` | src/open.c:173-183 | where each field of a record starts in the table and what its bytes are |
| `Format.OpensExactly` | src/open.c:395-426 | a file is taken if and only if it begins with "LIBSPILL" and the number 2, its table lies in it, the checksum matches and every record is taken; then it is loaded as those records and that end |
| `Format.LoadsExactly` | src/open.c:191-234 | the loading loop takes exactly the tables that the writing loop could have written, with keys of 1 to 255 bytes cut at a NUL, attributes of at most 256 bytes and extents from 4096 on whose end, modulo 2^64, is in the heap; whatever follows |
| `Toc.LoadsBack` | src/open.c:395-429 | a file with a closed store's super block and table loads back exactly |
| `Toc.EmptyLoadsBack` | src/open.c:413-418 | with no records, it loads if and only if what follows the heap has the checksum of nothing |
| `Toc.DamagedByteRefused` | src/open.c:423 | a file whose table was changed in one byte is refused |
| `Toc.DamagedBurstRefused` | src/open.c:423 | a file whose table was changed within four consecutive bytes is refused |
| `Rebuild.OffsetsOrdered` | src/open.c:264 | the sort orders by offset and is a permutation |
| `Rebuild.GapsAreHoles` | src/open.c:266-275 | a free list that covers exactly the gaps between live extents is the one the heap had |
| `Rebuild.RebuildFreeList` | src/open.c:242-278 | the gap loop rebuilds the free list hole for hole, without moving the end of the file or touching a byte |
| `Persist.CloseKeep` | src/open.c:505-539 | under every script of faults the store is intact, with the same contents, sizes and attributes, and the entries written are its table, each record once; a close that reports success has left an image of exactly this store; without faults it does report success, and the end of the file is within the bound of the run |
| `Persist.WriteImage` | src/open.c:512-530 | whatever fails, no byte of the heap changes; success leaves the table of contents past it and a super block that says so |
| `Persist.ModestFits` | src/open.c:156-189 | a store whose file and number of records are below 2^43 has numbers that all fit their fields |
| `Persist.ModestEnough` | src/open.c:156-189 | a run meets the bound of `AcrossReopen` if 4096 bytes and, for each operation, three times what all ask for together and a block make at most 2^43 |
| `Persist.ListsLaw` | src/open.c:164-186 | each record is listed once, with its key, size, attribute and extents |
| `Persist.ReadImage` | src/open.c:395-426 | the reads and checks of `ls_open` give what the specification loader gives |
| `Persist.Reopen` | src/open.c:395-430 | reopening such a file, under any budget, shared or not, gives the same table, free list and end of file, and a valid store; the file is not changed |
| `Persist.CloseThenReopen` | src/open.c:395-539 | keep-close then reopen is the identity for every store with at least one record whose numbers fit their fields: keys, bytes, sizes and attributes as before the close, extents, end of file, and the free list hole for hole |
| `Persist.AcrossReopen` | src/open.c:282-560 | a run, a close, a reopen under another budget and a second run answer as one run on one map, for every first run that leaves a record, of at most 2^43 operations that together reach no further than 2^43 bytes (each counted three times and rounded up to blocks) |
| `Stale.EmptyStoreRefused` | src/open.c:413-418 | reserving nothing under a key, closing, reopening, erasing the key and closing, each of which succeeds, leaves a file that is refused |
| `Appends.StepKeeps` | src/store.c:556-600 | every step of every thread keeps the invariant: partition, snapshots, tiling, and what each byte of the record reads as |
| `Appends.SnapshotStable` | src/store.c:242-277 | an array-and-count snapshot denotes the same extents through any later growth of the record |
| `Appends.AppendsInLockOrder` | src/store.c:556-600 | in every run the returned ranges are disjoint and tile the growth of the record, and when all writes have finished the record reads as the payloads in lock order |
| `Appends.StoreStarts` | src/store.c:556-600 | any record of a valid store without a memory tier is a starting point of that model |
| `AppendsProgress.CanAcquire` | src/store.c:571 | a free lock can be taken whatever transfers are still to be made |
| `AppendsProgress.CanRelease` | src/store.c:580-588 | with room for its bytes the holder takes its offset and lets go of the lock before any of them is written |
| `AppendsProgress.CanAlloc` | src/store.c:281-293 | short of room, any extent the allocator gives may be taken |
| `AppendsProgress.CanExtend` | src/store.c:281-293 | and in every reachable state there is one: fresh space at the end of the file |
| `AppendsProgress.CanZero` | src/store.c:295 | any part of the extent that is left can be zeroed next |
| `AppendsProgress.CanPush` | src/store.c:256-277 | a zeroed extent can be pushed |
| `AppendsProgress.CanWrite` | src/store.c:342-375 | in every reachable state an unfinished transfer can go on, whoever holds the lock, by any number of bytes that lie in one extent, and lands where the record has them |
| `AppendsProgress.OthersCan` | include/libspill.h:296-300 | nor are the threads of other keys held up |
| `AppendsProgress.AllInFlight` | src/store.c:571-599 | from any reachable state with a free lock, any number of appends can be in flight at once, each with its place and none of its bytes written |
| `AppendsProgress.AllFinish` | src/store.c:590-595 | and from any reachable state all that are in flight can finish, by transfers alone |
| `AppendsProgress.OpenThenDone` | src/store.c:556-600 | so there is a run in which all are in flight at once, from which there is one in which all finish and the record reads as it did with their payloads at its end |
| `ManyAppends.StepSeen` | include/libspill.h:296-300 | with any number of records sharing lock, allocator and file, each step of each thread is, seen from any one key, a step of the one-record model or none |
| `ManyAppends.StepKeeps` | include/libspill.h:296-300 | so every step keeps the invariant of every key at once |
| `ManyAppends.EveryKeyInLockOrder` | include/libspill.h:296-300 | distinct keys are safe from any number of threads: in every run, every key that is not erased has its appends' ranges tile its growth, and reads as their payloads in lock order once they have finished, whatever happened to the others |
| `ManyAppends.StoreStarts` | src/store.c:556-600 | a valid store without a memory tier is a starting point of that model |
| `ManyProgress.CanAcquire` | src/store.c:571 | with many keys too, a free lock can be taken whatever transfers are due |
| `ManyProgress.CanCreate` | src/store.c:573 | a key that is not there can be created |
| `ManyProgress.CanRelease` | src/store.c:580-588 | with room for its bytes the holder lets go before any is written |
| `ManyProgress.CanAlloc` | src/store.c:281-293 | short of room, any extent the allocator gives may be taken |
| `ManyProgress.CanExtend` | src/store.c:281-293 | and there is one |
| `ManyProgress.CanZero` | src/store.c:295 | any part of it that is left can be zeroed next |
| `ManyProgress.CanPush` | src/store.c:256-277 | and then pushed |
| `ManyProgress.CanWrite` | src/store.c:342-375 | an unfinished transfer of any key can go on, whoever holds the lock |
| `ManyProgress.CanErase` | src/store.c:481-492 | a record nothing is in flight on can be erased: freeing its extents one by one ends in a partition of what is left |
| `ManyProgress.AllInFlight` | src/store.c:571-599 | any number of appends, to one key or to many, can be in flight at once, and each key has exactly those asked for it, in order |
| `ManyProgress.KeysFinish` | src/store.c:590-595 | those to any set of keys can all finish, with every other key left as it was |
| `ManyProgress.OpenThenDone` | include/libspill.h:296-300 | so there is a run in which all are in flight at once, from which there is one in which all finish and each key reads as it did with its own payloads at its end |
| `Pool.StepKeeps` | src/async.c:27-178 | every step of submitters, workers, waiters and the closer keeps the pool invariant |
| `Pool.RunExtends` | src/async.c:64-84 | a pool of any number of workers starts a run, and any step that can be made lengthens one |
| `Pool.PoolDrains` | src/async.c:86-104 | when `ls_pool_stop` returns, every accepted request was executed exactly once, started in order, and is done; queue and live list are empty and nothing is in flight |
| `Pool.QueueServed` | src/async.c:34-57 | in every reachable state, stopping or not, while an accepted request is not done some worker can take, carry out, report or finish with one; while anything is queued some worker is neither asleep nor gone; after stop nobody sleeps |
| `Pool.NothingAfterStop` | src/async.c:130-137 | nothing is accepted after stop, and stop is never undone |
| `Pool.NoUseAfterFree` | src/async.c:18-61 | what a worker holds and what the queue's ends name is never a freed request, the tail never names a dequeued one, and every undone request is queued or held by exactly one worker |
| `Pool.DrainEnabled` | src/async.c:86-104 | while stopping, until all workers have left, some worker can move |
| `Pool.CanTake` | src/async.c:40-47 | an awake worker takes the oldest request queued, stopping or not |
| `Pool.CanServe` | src/async.c:49-61 | what a worker took it can carry out, report and finish with, waking every sleeper |
| `Pool.CanSubmit` | src/async.c:130-146 | until stop a request is accepted, goes to the end of the queue, and wakes a sleeping worker if there is one |
| `Pool.CanRest` | src/async.c:34-45 | a worker with nothing queued can sleep, or leave when stopping; a done request can be waited for; and the pool can be stopped, and released when all have left |
| `Pool.WorkEnabled` | src/async.c:34-57 | for each accepted request that is not done some worker has a step to make |
| `Pool.WorkAdvances` | src/async.c:34-57 | each worker step lowers a bound by one, submitting raises it by four, and nothing else moves it: so a drain ends |
| `Pool.AllServed` | src/async.c:34-57 | from every reachable state, without a stop, the workers alone can bring every accepted request to be done, in a number of steps known beforehand |
| `Pool.WorkBounded` | src/async.c:34-57 | in every run the worker steps made and still to be made are four for each request and one for each worker |
| `Shared.StepKeeps` | src/store.c:54-88 | while no process rewrites a byte another means to change, each process stays on the course it would take alone |
| `Shared.AnyInterleaving` | include/libspill.h:107-140 | then every interleaving of loads and stores ends with the file that running the processes one after another gives |
| `Shared.CanStep` | src/store.c:54-88 | a process with a transfer to make can always go on with it, whatever windows the others hold |
| `Shared.AnySchedule` | include/libspill.h:107-140 | every order in which the processes could take their turns is one of those interleavings, to the end |
| `Shared.ReadsOwn` | include/libspill.h:117-123 | at any point of any run a process finds every byte that no other writes as it would alone |
| `Shared.LosingRun` | src/store.c:70-77 | a process that reads a window, lets another do all its work, and then writes, puts back every byte of the window that it did not mean to change |
| `SharedWrites.StoreIsLayout` | src/open.c:243-278 | a valid store without a memory tier is a layout the following apply to |
| `SharedWrites.BlockStart` | src/alloc.c:18-21 | a block of a record is a block of the file, inside one extent |
| `SharedWrites.TransfersAreStrips` | src/store.c:358-374 | buffered, the transfers of a write in the model are the positional writes that the scatter loop issues |
| `SharedWrites.TransfersAreWindows` | src/store.c:59-85 | uncached, the transfers up to the end of the first extent are the windows of the bounce loop in turn |
| `SharedWrites.TransfersThenNext` | src/store.c:358-374 | and after the last of them come the transfers of the rest at the next extent |
| `SharedWrites.TransfersLocated` | src/store.c:342-375 | every transfer of a write inside a record lies where the layout puts it, and its window is a run of the record within the blocks the write touches |
| `SharedWrites.HullIsLogical` | src/store.c:342-375 | a file byte is in a transfer's window, or in its data, exactly when it is that logical byte of that key |
| `SharedWrites.TransfersSeen` | src/store.c:377-433 | the transfers of a write, carried out, are the abstract store's write |
| `SharedWrites.PlanSeen` | src/store.c:604-678 | the transfers of a write or a vectored write, carried out, are the operation of the abstract shared store, refusals included |
| `SharedWrites.SharedAgreement` | include/libspill.h:107-140 | any number of processes with any lists of writes and vectored writes, those of different processes sharing no byte (buffered) or no block (uncached), leave one content in every interleaving: that of the abstract store after all the writes |
| `SharedExact.ApartLaw` | include/libspill.h:117-123 | what "share" means there: two writes are apart when they are to different keys, or no byte of one is a byte of the other or, uncached, in the 4096-byte block of one |
| `SharedExact.ProcessesLaw` | include/libspill.h:117-123 | and processes are when every write of one is apart from every write of each other |
| `SharedExact.ReadsAlone` | src/store.c:754-819 | a read by one process, or the reading half of its accumulate, of bytes that no other process writes gets what it would get alone, at any point of any run |
| `SharedExact.FinalHolds` | src/store.c:400-406 | at every point of every such run the file holds the same store: super block, table and bytes past the heap as they were, and zero capacity still zero |
| `SharedExact.OpensTheSame` | src/open.c:395-430 | a process that opens the file at any point of such a run loads the table and end of file the others loaded, and after them sees all their writes |
| `SharedExact.OpenBeside` | src/open.c:395-430 | after any run of a shared store, faults included, another process can open the file and has the same table, free list and bytes |
| `SharedExact.AgreeExactly` | include/libspill.h:117-123 | two disjoint writes to a store that is in the file end alike in every interleaving, whatever its records hold: always when buffered, and uncached if and only if they share no 4096-byte block of a record |
| `SharedExact.UncachedNeighbours` | src/open.c:306-331 | in every store that a keep-close wrote, two neighbouring one-byte uncached writes to a record of at least two bytes, which a shared store accepts, do not |
| `HashTable.BucketLaw` | src/toc.c:27-33 | a key's bucket is what its hash leaves over the number of buckets |
| `HashTable.Table.Find` | src/toc.c:27-33 | finds the record of the key if there is one, and null means there is none |
| `HashTable.Table.Insert` | src/toc.c:57-75 | adds exactly one record, whether or not the key is there already, and doubles the table exactly when three quarters would be exceeded |
| `HashTable.Table.Grow` | src/toc.c:35-55 | moves every node to its chain in a table twice the size; chains stay acyclic and in the right bucket |
| `HashTable.Table.Unlink` | src/toc.c:77-83 | removes exactly the given record |
| `HashTable.Table.Run` | src/toc.c:27-83 | from a table with one record for each key, every run of lookups, get-or-create inserts and removals agrees with a finite set of keys, for any hash function, with the count and load bound kept |
| `HashTable.AnswersLaw` | src/toc.c:27-83 | and that set answers as the last addition or removal of the key says |
| `Lru.List.Drop` | src/store.c:157-164 | unlinks the record wherever it is; the list stays well-formed in both directions |
| `Lru.List.Touch` | src/store.c:166-174 | moves or adds the record to the front; the list stays well-formed in both directions |
| `Lru.List.Victim` | src/store.c:212-214 | walks back to the coldest record that is not pinned, or null when all are |
| `Lru.OmitKeys` | src/store.c:157-174 | dropping a node drops exactly its key from the order the store keeps |
| `Lru.List.Run` | src/store.c:157-174 | every run of touches and drops keeps both links well-formed and spells out the order that the store's own sequence operations give |

## Left out

- System calls (`src/os_posix.c`, `src/os_win32.c`): a call is atomic and takes its outcome from the script; the store above the transfer loops is proved for scripts without short uncached transfers (`File.Sane`), and `ShortTransfers` says what the loops do otherwise.
- `src/hdf5.c`, `LS_MAPPED`, `ls_map` and `ls_unmap`: foreign libraries and page mappings.
- Options, path building, rank lookup, `ls_strerror`, logging, `ls_size`, `ls_exists`, `ls_keys`, `ls_stat`, attribute calls: easy or environmental; the attribute blob is kept as part of the persisted record and no data operation changes it.
- Language bindings, benchmark, tests: wrappers and drivers.
- Integers are unbounded. A range ending at or past 2^64 is refused as in the source; the wrap of `round_up` for sizes above 2^64 - 4096 and of `file_end` is not modelled.
- Null pointers passed by a caller, and a null store.
- Failure of small allocations (a table node, an extent array, the free-list array whose error `src/alloc.c:155` ignores, the bounce, zero and accumulate buffers). Failure to get a resident buffer is modelled, as an arbitrary choice passed to `EnsureCap`.
- Which of the two transfer loops runs depends on the address of the caller's buffer; the model chooses arbitrarily.
- Floating-point reductions: a reduction is any length-preserving function that splits at 1 MiB boundaries.
- `Store` keeps its table as a map and its recency order as a sequence; the pointer structures are proved separately in `HashTable` and `Lru`. Masking with a power of two minus one is a remainder, and the hash is arbitrary: its offset basis is not the published one.
- `spill` repeats the scatter loop inline; the model calls `ScatterWrite` at offset 0.
- Concurrent growth of a resident record, and erasing a key with an operation in flight: the source does not guard either. `Appends` and `ManyAppends` have no memory tier and erase only idle keys.
- `Appends`, `ManyAppends` and `Shared` treat a transfer as bytes that land; failed transfers are covered by the sequential contracts of `Store`.
- `SharedAgreement`: has writes and vectored writes; an accumulate enters as the write of what it computed, which by `ReadsAlone` is what it would compute alone.
- `Reopen`: is proved for files that a keep-close wrote. `OpensExactly` and `LoadsExactly` say which byte strings the loader accepts, but not what a store on one that no close wrote would do.
- `CloseThenReopen`: reopens only a store whose numbers fit their fields (`Fits`: end of file, sizes and table length below 2^64, extents of a record below 2^32), as `ModestFits` shows for every store below 2^43 bytes and records; what truncated fields would load as is not modelled.
- `CloseKeep`: says nothing about the table and super block after a failed close, which still writes them when only the spill failed; `fsync` and teardown are not modelled.
- `TocSerialise`: takes the entries in any order; the order of the hash table's buckets is not modelled.
- That `ls_close` returns the first draining error: the source records it but never reads it.
- `ls_test`, and the priority of waiters on a request: they read `done` as `ls_wait` does.
