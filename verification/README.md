# dmanix, verified

dmanix is a small kernel for the i386. This project models its hardest parts in Dafny and proves what they are
for. Module by module:

- `ByteMemory`, `OrderedArrays`, `Tiling`, `HeapLaws`, `Heaps`, `HeapRuns`, `HeapClients`, `HeapRoom`: the boundary-tag heap. The state is what the code
  has: bytes of memory, the index array, the ends. A ghost map of blocks (address, size, hole or live) is tied to
  them; `Heap.Alloc` and `Heap.Free` are the code's branches over memory words and index positions. Where the code
  breaks its own invariant the contracts say exactly when: they are consistent if and only if a condition on the state
  before the call holds, and consistency means that *some* list of blocks with the right live blocks agrees with the bytes.
- `Bitsets`, `PageTables`, `AddressSpaces`, `FrameOrder`, `Paging`, `Boot`: frames, tables and directories as objects, the
  copying of page contents, clones, and start-up with its moving loop bound. `PageTables.View` holds the contents of all
  objects as values; `Sound` is what every step keeps, stated once about such a value. `FrameOrder` is about which frame
  goes to which page.
- `KernelHeap`: heap and page tables together, start-up and clones included.
- `Scheduling`: processes as a linked queue, fork and switch as steps, the two resume points of `read_eip`, and one stack
  that all processes share. `System` is the value that the objects stand for, `Next` its step.
- `InitrdImage`, `Initrd`: the tool that writes a ram disk, and the kernel's reader of it.
- `Preprocessor`: the snapshot stack of the vendored style tool.
- `Lines`: the horizontal branch of the line drawing.
- `Wrappers`: a result that may be missing.

A failed assertion or a panic of the source is a returned `None`, `false` or null; the contracts say when.

Findings, each a theorem: growing the heap widens the highest hole even when it does not touch the end
(`Heap.Grow`); an aligned request can leave a gap too small for tags (`Heap.Place`); freeing the last block above
HEAP_MIN_SIZE leaves a stale index entry (`Heap.Free`); `FreeFrame` divides a frame number by the page size,
so that it breaks the marks in every state of a run (`Memory.FreeFrame`); a cloned directory's `physicalAddress` is right only when its first two pages have consecutive frames, and straight after
start-up there is a place where they do not (`Memory.NewDirectory`, `Boot.BootRow`); process stacks lie in a table that all
directories share (`AddressSpaces.StackShared`), so that a forked child can take itself for its parent
(`Scheduling.UnguardedWork`); a file name of 64
bytes has no terminator (`Initrd.LongNameLost`); a read whose end wraps is not clipped (`Initrd.WrappedRead`); a steep line is
one step long (`Screen.Line`). Where names disagree the code was followed: `copy_page_physical` is declared with
the destination first (src/memory/paging.cc:13), but it is called with the source first and process.s reads it so.

To verify: `dafny verify dfyconfig.toml`.

## Model

| member | source | states |
|---|---|---|
| `ByteMemory.FieldsRoundTrip` | src/memory/heap.h:25-35 | a header or footer stored as bit fields and loaded again is the same, cut to 9, 1 and 22 bits |
| `ByteMemory.HeaderTagUnique` | src/memory/heap.cc:249-255 | a word in memory is the header of at most one size and kind, so headers decide the blocks |
| `ByteMemory.TagsNeverOverlap` | src/memory/heap.cc:97-111 | no memory whatever holds both tags of a block of fewer than 8 bytes |
| `OrderedArrays.OrderedArray.Insert` | src/ordered_array.h:42-62 | the shift loop puts the item before the first entry that is not smaller and moves the rest up by one, keeping their order; fails exactly when the array is then full |
| `OrderedArrays.OrderedArray.Lookup` | src/ordered_array.h:64-68 | the entry at a position |
| `OrderedArrays.OrderedArray.Remove` | src/ordered_array.h:70-77 | exactly the entry at a position goes, the others keep their order |
| `OrderedArrays.InsertedMembers` | src/ordered_array.h:42-62 | an insertion adds one member and keeps entries distinct |
| `OrderedArrays.RemovedMembers` | src/ordered_array.h:70-77 | a removal from distinct entries takes one member away and keeps them distinct |
| `Heaps.Heap.constructor` | src/memory/heap.cc:257-286 | a new heap is one hole from a page or more above the index to the end, properly tagged and indexed, and nothing outside is written; it is valid if and only if the word below it, which no code writes, does not look like a tag |
| `Heaps.Heap.FindSmallestHole` | src/memory/heap.cc:298-317 | -1 if and only if there is no hole for the request, whatever the index order: a plain one needs a hole of the size asked or more, an aligned one a hole with a page boundary behind its header and room for the block there; else the first such hole of the index, which is the smallest one when the index is sorted and no alignment is asked |
| `HeapLaws.FitsMeans` | src/memory/heap.cc:302-311 | the comparisons, the aligned one with its offset included, say just that |
| `Heaps.Heap.Expand` | src/memory/heap.cc:319-338 | the end moves up to the page boundary that comes next after the size asked, a page further at most, and exactly the pages from the old end to the new one are mapped besides; fails exactly when that passes the limit |
| `Heaps.Heap.HighestHole` | src/memory/heap.cc:48-57 | the position of the highest hole, or -1 if and only if there is no hole |
| `Heaps.Heap.AddTailHole` | src/memory/heap.cc:59-71 | with no hole left, the new space becomes a tagged, indexed hole and no live block changes |
| `Heaps.Heap.WidenHole` | src/memory/heap.cc:72-83 | the highest hole takes the new space if it touches the old end; if it does not, no block list with the same live blocks agrees with memory and index any more |
| `Heaps.Heap.Grow` | src/memory/heap.cc:40-83 | growth makes one longer hole of what ends the range and the new space, by more than is wanted but not by more than a page, with the same live blocks, and leaves a consistent heap if and only if the last block is a hole or there is none: for every heap, not for chosen ones |
| `Heaps.Heap.Place` | src/memory/heap.cc:86-145 | splitting a hole gives the block list with lead gap, block and rest carved out, other payloads untouched; if and only if both gaps are empty or hold two tags; an aligned payload starts on the first page boundary behind the start of the hole; with a sorted index what is left of the hole comes before the holes of its own size; it never fails for a plain request, and for an aligned one whose gaps hold their tags it fails if and only if something is left behind the block and the index is full |
| `Heaps.Heap.Alloc` | src/memory/heap.cc:36-145 | over all recursion: if some hole is large enough (for an aligned request: has a page boundary with room behind it) the end stays and such a hole is taken, with a sorted index a smallest one for a plain request, and only if there is none the range grows; the hole taken is decided by the state before the call (the first of the index that fits, or after growth the one at the end), and so is the whole block list afterwards; a fresh live block of the bytes asked plus tags and less than eight bytes more, on the first page boundary of the hole if asked, every other payload byte for byte as before, the index exactly the holes; consistent if and only if the gaps of that hole hold their tags, which a caller can tell before the call; the end moves by exactly the growth of 0, 1 or 2 retries, and a plain request needs one at most, with exactly the pages between mapped besides; an oversized request, which need not be one that can grow the heap, is refused and changes nothing; for every request whose gaps hold their tags it fails if and only if `Refused` holds before the call: oversized, past the limit, or an aligned one that leaves two holes with a full index; best fit and a sorted index without retry or alignment |
| `HeapLaws.FirstFitIs` | src/memory/heap.cc:298-317 | the entry before which none fits is the first that fits |
| `HeapLaws.FirstFitFits` | src/memory/heap.cc:298-317 | if some entry fits, the first that fits does |
| `HeapLaws.NoneFits` | src/memory/heap.cc:298-317 | when no entry of an index fits, no hole of the blocks it lists does |
| `HeapLaws.SmallestFits` | src/memory/heap.cc:298-317 | in an index sorted by size the first entry that fits is a smallest hole that fits |
| `HeapLaws.NeedsGrowth` | src/memory/heap.cc:39-40 | when no hole fits, at least one growth is needed, and what is needed covers it |
| `HeapLaws.GrowthHelps` | src/memory/heap.cc:83-85 | one growth leaves exactly one retry less to make, and neither the block list reached in the end nor the hole chosen depends on when one looks |
| `HeapLaws.TwiceIsEnough` | src/memory/heap.cc:40-83 | two growths make the last hole fit any request, aligned or not, and one is enough for a plain one |
| `HeapLaws.OnlyTailFits` | src/memory/heap.cc:40-83 | after growth the hole at the end is the only one that can fit |
| `Heaps.Heap.MergeLeft` | src/memory/heap.cc:161-176 | the tag read below the block is that of the block really below it, and the two are joined exactly when that is a hole |
| `HeapLaws.BelowByFooter` | src/memory/heap.cc:165-169 | through the word below a block, a hole that ends there is found at its own address; a live block below, or the gap below the range, is never taken for one |
| `Heaps.Heap.MergeRight` | src/memory/heap.cc:178-195 | the block above is joined exactly when it is a hole, and then leaves the index |
| `HeapLaws.AboveByHeader` | src/memory/heap.cc:179-181 | the word above a block is the header of the block really above it, also after the left merge has been written, and that block is indexed exactly when it is a hole |
| `Heaps.Heap.Contract` | src/memory/heap.cc:340-360 | where the end really moves to, with the mask as written: to the offset asked when that is at least HEAP_MIN_SIZE and has bit 12 clear, and else to HEAP_MIN_SIZE; exactly the pages strictly above the new end are unmapped |
| `Heaps.Heap.Shrink` | src/memory/heap.cc:197-216 | where the end goes when the freed hole reaches it, and what is written: a hole that starts low enough keeps its tags; one that starts above the new end gets a size that has wrapped round to 22 bits, with a footer to match; one that starts at it is left in the index, from which its former upper neighbour goes instead |
| `Heaps.Heap.Settle` | src/memory/heap.cc:197-219 | contraction and the last insertion leave the merged block list exactly when the end keeps the hole's tags, and an inconsistent heap otherwise |
| `Heaps.Heap.Free` | src/memory/heap.cc:147-220 | the block leaves the live blocks and nothing else does, both neighbours coalesced, index and tags exact, other payloads untouched; consistent if and only if the last hole starts low enough; where the end goes in either case, and that exactly the pages above it are unmapped; an assertion fails if and only if a false hole tag stands at the end or the index is full; without a left merge a sorted index stays sorted, the freed hole before those of its own size |
| `HeapLaws.DanglingEntry` | src/memory/heap.cc:207-214 | an index entry too close to the end, as the removal of the wrong entry leaves one, fits no list of blocks at all |
| `HeapLaws.SortedPlacement` | src/memory/heap.cc:112-142 | an unaligned split keeps the index sorted by size |
| `HeapLaws.SortedRelease` | src/memory/heap.cc:178-219 | a release that does not merge left keeps the index sorted, right merge and contraction included |
| `HeapLaws.SortedInsertion` | src/memory/heap.cc:235-237 | an insertion into a sorted index puts the hole before every other one of its size |
| `HeapLaws.NewestFirst` | src/memory/heap.cc:235-237 | a hole so placed is before any other of its size: the newest of equal ones is found first |
| `HeapLaws.PageUpExceeds` | src/memory/heap.cc:322-325 | the rounding goes to the next page boundary, from a boundary too |
| `Heaps.Heap.Verify` | src/memory/heap.cc:362-369 | the walk by header sizes visits every block once, in order, and its assertions hold in every valid state |
| `Tiling.Covering` | src/memory/heap.cc:362-369 | every address of the range lies in a block, which is found by going on from any block below it |
| `Tiling.PayloadsDisjoint` | src/memory/heap.cc:362-369 | live payloads have no byte in common |
| `Tiling.RepresentationUnique` | src/memory/heap.cc:249-255 | memory represents at most one list of blocks: the abstract state is a function of the bytes |
| `Tiling.CanonicalTiling` | src/memory/heap.cc:163-195 | without adjacent holes, the live blocks alone decide the whole tiling |
| `Tiling.OverreachingHeader` | src/memory/heap.cc:72-81 | a header that reaches over another block cannot be part of any tiling of that range with the same live blocks |
| `Tiling.LeadHoldsTags` | src/memory/heap.cc:97-111 | a consistent outcome forces the lead gap to have room for two tags |
| `Tiling.RestHoldsTags` | src/memory/heap.cc:127-142 | a consistent outcome forces what is left behind a block to be nothing or room for two tags |
| `Tiling.CarvedApart` | src/memory/heap.cc:86-142 | carving a block out of a hole puts no two holes side by side |
| `Tiling.CoalescedApart` | src/memory/heap.cc:163-195 | after coalescing both ways no two holes are adjacent |
| `HeapRuns.FreeUndoesAlloc` | src/memory/heap.cc:86-219 | freeing a block just carved, aligned or not, merges both gaps back: the very same block list |
| `HeapRuns.Undone` | src/memory/heap.cc:86-219 | what freeing a block just carved leaves, in every case, and when the end keeps its tags |
| `HeapRuns.Fullness` | src/memory/heap.cc:86-219 | the index has room for a block that comes back and joins nothing, since it took the place of a hole |
| `HeapRuns.AllocThenFree` | src/memory/heap.cc:36-220 | for every request that Alloc refuses for its size or can serve, growth included: Free of its pointer restores the very block list and the end unless the hole taken reached the end; then the range ends at the minimum length, in a hole, if that hole starts low enough, and no consistent heap is left if and only if it does not; the end and the mapped pages are stated in every case; the pair fails if and only if the request is refused, or the block reaches the end and the word there looks like a hole |
| `HeapRuns.StepKeeps` | src/memory/heap.cc:36-220 | each step keeps the tiling without adjacent holes and changes the live blocks by exactly one |
| `HeapRuns.RunKeeps` | src/memory/heap.cc:36-220 | over any run of steps the blocks tile the range, and a live block keeps place and size until its own release; heap objects make such runs (`HeapClients.Take`, `HeapClients.Give`) |
| `HeapRuns.AllocRuns` | src/memory/heap.cc:36-145 | what Alloc does to the blocks is one step, or a growth and one step, of such a run |
| `HeapClients.PayloadStays` | src/memory/heap.cc:36-220 | over any history of allocations, releases and client writes, a block keeps its size and every byte of its payload until its owner writes into it or gives it back |
| `HeapClients.RecordStarts` | src/memory/heap.cc:257-286 | every heap has a record that starts with its present, so the history and run results apply to any sequence of calls on one heap object |
| `HeapClients.Take` | src/memory/heap.cc:36-145 | a successful Alloc with room for its tags extends the record of a heap object: one more event for its clients, with a block of at least the bytes asked, and the steps that its blocks have made; it fails if and only if the request is refused, by a condition on the state before |
| `HeapClients.Give` | src/memory/heap.cc:147-220 | a successful Free that keeps the end's tags extends the record by one event and one step; it fails if and only if one of two conditions on the state before holds |
| `HeapClients.Store` | src/memory/heap.cc:362-369 | a client may write any byte into its own payload, even one that looks like a tag: the heap stays valid with the same blocks |
| `HeapRuns.GrowthOverLiveTail` | src/memory/heap.cc:72-81 | a run of three steps from a new heap to a state in which growth goes wrong, and a plain request of 9 bytes needs it |
| `HeapRuns.LeadGapTooSmall` | src/memory/heap.cc:97-111 | a run of one step from a new heap to a state in which an aligned request goes wrong, whatever the order of the index: it takes the one hole, and leaves four bytes in front |
| `HeapRuns.HighTailFreed` | src/memory/heap.cc:207-214 | a run of two steps from a new heap to a state in which freeing the last block goes wrong |
| `Bitsets.Bitset.constructor` | src/bitset.cc:10-13 | no bit set; bits past a multiple of 32 are dropped |
| `Bitsets.Bitset.Set` | src/bitset.cc:19-23 | the set of bits gains exactly one, through the shifts and masks of 32-bit words |
| `Bitsets.Bitset.Clear` | src/bitset.cc:25-29 | the set of bits loses exactly one |
| `Bitsets.Bitset.Test` | src/bitset.cc:31-35 | whether a bit is in the set |
| `Bitsets.Bitset.Next` | src/bitset.cc:37-48 | the least bit not in the set, NOT_FOUND if and only if the set is full |
| `Bitsets.BitUpdate` | src/bitset.cc:19-29 | or-ing and and-not-ing a one-bit mask changes that bit of a word and no other |
| `PageTables.FilledSound` | src/memory/paging.cc:101-113 | the next frame in an empty entry keeps everything that holds between directories, tables, frames and marks |
| `PageTables.NextIsLeast` | src/memory/paging.cc:101-113 | in every sound state the frames given out are the first ones, so the least clear bit is the number of frames given out |
| `PageTables.ClearingKeeps` | src/memory/paging.cc:115-123 | clearing an entry together with some mark keeps ownership exactly when the mark is nobody's and not that of frame 0 |
| `PageTables.ClearingBreaks` | src/memory/paging.cc:115-123 | in a sound state every frame given out but 0 is held by an entry, so clearing an entry together with the mark of a lower frame always breaks ownership |
| `PageTables.SameFrameSamePage` | src/memory/paging.cc:101-113 | the kernel maps no frame at two pages |
| `PageTables.NewTableSound` | src/memory/paging.cc:266-271 | a table in memory the heap grants keeps the state sound; its physical page is no other table's |
| `AddressSpaces.HardwareAgrees` | src/memory/paging.cc:262-275 | in every sound state the walk that 32-bit paging makes over `physical` (Intel SDM Volume 3A, sections 4.3 and 4.6) finds the entry that GetPage finds, with the very rights to write and for user mode that this one gives, and none where there is no table |
| `AddressSpaces.TableOpen` | src/memory/paging.cc:249-270 | in every sound state a directory's entry for a table is present, writable and open to user mode, has no other flag, and its address is the table's; and it is 0 where there is no table |
| `AddressSpaces.WalkAgrees` | src/memory/paging.cc:64-71 | the walk from cr3: the arrays that the hardware reads are in different physical pages, so a value of cr3 leads to one directory if and only if it is where that one's array is, and then the walk from it reads at every address what the kernel reads |
| `AddressSpaces.WindowShared` | src/memory/paging.cc:138-145 | every directory has the kernel's own entry at every address of both heap windows, for the kernel and for the hardware |
| `AddressSpaces.Isolation` | src/memory/paging.cc:243-257 | a frame seen at two addresses of any two directories is the same page, and if the directories differ its table is the kernel's: no private page is in two directories |
| `AddressSpaces.StackShared` | src/process/task.cc:70-76 | the stack pages below 0xE0000000 lie in the last table of the user heap's window, so every process maps the same ones, contrary to what Fork intends |
| `AddressSpaces.CloneAt` | src/memory/paging.cc:234-296 | at each address a clone has nothing where there was no table, the same entry where the table is the kernel's, else an empty entry for an unmapped page and a fresh frame with equal flags and equal 4096-byte contents for a mapped one; the original is untouched |
| `AddressSpaces.AttachedSound` | src/memory/paging.cc:266-271 | a new table put in an empty place keeps every directory sound, the kernel's included |
| `AddressSpaces.DirectoryAdded` | src/memory/paging.cc:234-260 | a directory of kernel tables and new tables of its own, in a place of its own, can join the others |
| `AddressSpaces.CloningDone` | src/memory/paging.cc:243-257 | the finished loop has built such a directory, and has changed only heap-window tables among the old ones |
| `AddressSpaces.TableKept` | src/memory/paging.cc:252-255 | a table already copied stays a faithful copy while later ones are copied and the heap's window grows |
| `Paging.Memory.constructor` | src/memory/paging.cc:125-136 | the state before anything is mapped; the directory lies behind the frame bitset, by a page at most, and the bump allocator stands behind the directory |
| `Paging.Memory.AllocFrame` | src/memory/paging.cc:101-113 | an entry with a frame is left alone; an empty one gets the least free frame and the flags; fails if and only if every frame is used; no frame gets a second owner |
| `Paging.Memory.FreeFrame` | src/memory/paging.cc:115-123 | as written: the mark cleared is that of frame/4096, the freed frame stays marked, and ownership survives if and only if that other mark is nobody's and not frame 0's; in a sound state, so in every state of a run from start-up, that condition never holds and ownership is always broken |
| `Paging.Memory.CopyPagePhysical` | src/process/process.s:1-31 | all 1024 words of the first argument's page go to the second's, and no other word changes |
| `Paging.Memory.GetPhysicalAddress` | src/memory/paging.cc:198-201 | the frame and offset of an address in the directory in force; fails if and only if there is no table |
| `Paging.Memory.GrowWindow` | src/memory/heap.cc:319-338 | every page of the kernel window up to the new end that had no frame gets the next one, in order, and every other page keeps what it had; among existing tables only the heap windows' gain entries; succeeds if and only if there are frames for the pages that have none |
| `FrameOrder.RowOfTwo` | src/memory/paging.cc:234-241 | that condition on the state before the growth decides, for every sound state, whether the two pages have two frames in a row after it |
| `FrameOrder.StraddlingFails` | src/memory/paging.cc:234-241 | once a frame has gone to any other entry, two pages over the end of the mapped window do not get two in a row, in whatever state |
| `FrameOrder.FewerBare` | src/memory/heap.cc:319-338 | the pages without a frame before one of them are fewer than those before any later page |
| `Paging.Memory.Kalloc` | src/memory/kalloc.cc:13-19 | the physical address reported is that of the kernel's mapping, whichever directory is in force; succeeds if and only if there are frames for the pages below the new end that have none |
| `Paging.Memory.NewTable` | src/memory/paging.cc:266-270 | a fresh, empty table at an address of its own, the state staying sound; null only when no frame is left |
| `Paging.Memory.GetPage` | src/memory/paging.cc:262-275 | the existing table, or a new empty one put in its place for the kernel and the hardware alike; its hardware entry is the physical address with the flags 7; other directories and mapped entries are untouched, and only tables of the heap windows gain entries; without `make` a missing table fails and changes nothing, with it only the want of frames does |
| `Paging.Memory.AllocLike` | src/memory/paging.cc:284-290 | a fresh frame with another entry's flags, soundness kept; fails only when no frame is left |
| `Paging.Memory.CopyEntry` | src/memory/paging.cc:284-293 | one mapped page copied to a fresh frame; no used frame is written; fails only when no frame is left, and then changes nothing |
| `Paging.Memory.CloneTable` | src/memory/paging.cc:277-296 | a new table in which every entry is a copy of the original's, all frames used before unchanged; null only when no frame is left |
| `Paging.Memory.CloneSlot` | src/memory/paging.cc:244-256 | one place of a directory: absent, shared or copied, with the hardware's entry to match; fails only when no frame is left or a private table has no grant |
| `Paging.Memory.CloneOwn` | src/memory/paging.cc:252-255 | a table of the directory's own is copied and put in the place, with the physical address and the flags 7 as the hardware's entry, and what was copied before stays a copy; fails only when no frame is left |
| `Paging.Memory.CloneSlots` | src/memory/paging.cc:243-257 | the loop over all 1024 places copies, shares or leaves each, and keeps what is in use within what was granted |
| `Paging.Memory.NewDirectory` | src/memory/paging.cc:234-241 | an empty directory in a place of its own; the address noted for cr3 is that of its second page if and only if, before the call, the two pages are mapped to two frames in a row, or neither is mapped, or the first has the last frame given out and no page before the second is to be mapped; null if and only if there are too few frames for the pages below the new end that have none |
| `Paging.Memory.Clone` | src/memory/paging.cc:234-260 | a copy in the sense of `Cloned` joins the directories, and the state stays sound: any run of clones, GetPage and AllocFrame keeps isolation and sharing; what it uses of its grants, and how far the window reaches, is stated; cr3 is told where it is under the condition of `NewDirectory`; null only when the directory's own pages find too few frames, or for a private table no frame is left or there is no grant |
| `Paging.Memory.MapPage` | src/memory/paging.cc:210-211 | a page of the current directory gets a frame, to write and for user mode, and no other entry changes, heap windows apart; fails only when no frame is left |
| `Paging.Memory.AllocateRange` | src/memory/paging.cc:203-216 | every page touched is mapped, the page after the end too when it ends on a boundary, those that had no frame to write and for user mode, and no other entry of the directory changes, heap windows apart; fails only when no frame is left or a table of the range is missing and has no grant |
| `AddressSpaces.OpenedMeans` | src/memory/paging.cc:203-216 | what that is at each address, entry by entry |
| `Boot.BumpAligned` | src/memory/kalloc.cc:22-29 | the next page boundary, even from a boundary, and where the allocator stands afterwards |
| `Boot.BootPage` | src/memory/paging.cc:262-275 | before there is a heap: an existing table changes nothing, a new one takes the next page from the bump allocator and its physical address is its own |
| `Boot.MakeTables` | src/memory/paging.cc:141-145 | there is a table for every address of the range, and none is lost |
| `Boot.MapIdentity` | src/memory/paging.cc:152-153 | the loop whose bound its own body raises terminates (missing tables, then distance), and on exit every page below base_address + 4096 has the frame of its own number; it stops earlier only when no frame is left |
| `Boot.MapWindow` | src/memory/paging.cc:156-164 | the first pages of a window get the frames that follow, one after another; it stops earlier only when no frame is left |
| `Boot.IdentityMapped` | src/memory/paging.cc:147-164 | every address below the end of the identity mapping is present and maps to itself; both windows have consecutive frames after it |
| `Boot.BootSound` | src/memory/paging.cc:134-164 | start-up ends in a sound state: tables where their physical addresses say, the kernel window mapped, one owner a frame |
| `Boot.MapAll` | src/memory/paging.cc:134-164 | the whole mapping ends in a valid state with the identity mapping complete, or stops with every frame given out, which it does not when `Enough` frames are there for where the bump allocator can get to |
| `Boot.Initialize` | src/memory/paging.cc:125-179 | after the copy of the kernel directory is in force, identity and window frames are still as laid out; cr3 finds the kernel's directory, and the copy if and only if that does not lie over the end of the initial window; only the user heap's window is writable, all is open to user mode; the directory and the tables are in places of their own; fails only when no frame is left, and never with enough frames and a copy within the initial window |
| `Boot.Start` | src/memory/paging.cc:125-179 | the same from a memory size and the end of the kernel image, with the directory behind the frame bitset that lies there: start-up succeeds when `EnoughMemory` holds of these two |
| `Boot.RightsLaid` | src/memory/paging.cc:152-164 | identity and kernel heap pages are present, read-only and open to user mode, the user heap's also writable |
| `Boot.BootedApart` | src/memory/kalloc.cc:22-32 | no two tables made at start-up overlap, and none the directory |
| `Boot.BaseBound` | src/memory/paging.cc:147-153 | how far the bump allocator has got when only tables of the windows and of the pages below some page have been made |
| `Boot.TooFew` | src/memory/paging.cc:147-164 | when start-up runs out of frames, there were not enough |
| `Boot.SixteenMegabytes` | src/memory/paging.cc:125-179 | sixteen megabytes are enough for every image that ends in the first eight |
| `Boot.BootRow` | src/memory/paging.cc:155-164 | straight after start-up, two pages of the kernel window get two frames in a row if and only if they are not the last of its initial part and the one after: the user window's frames come between |
| `Boot.NextFrame` | src/memory/paging.cc:156-159 | in the initial kernel window the page after a page has the frame after its frame |
| `KernelHeap.GrantPages` | src/memory/kalloc.cc:13-19 | what `Heap.Alloc` gives for an aligned request is a grant: memory in the window, mapped up to the end that the heap then has, with no page of any other live block; none if and only if the request is refused |
| `KernelHeap.PagesApart` | src/memory/heap.cc:36-145 | no page boundary lies in two live payloads, and a new block adds its own to those in use |
| `KernelHeap.GrantsInTurn` | src/memory/paging.cc:243-257 | grants made one after another meet what copying a directory asks of them, whichever table each is for |
| `KernelHeap.GrantTables` | src/memory/kalloc.cc:13-19 | a loop of aligned Allocs on the heap object makes such grants, as many as asked |
| `KernelHeap.Gather` | src/memory/paging.cc:234-257 | all the memory that the copy of a directory takes, from the heap object: a grant for the directory and one for each table of its own and for no other; when it is used up, what the page tables have in use is in use in the heap, and the window reaches the heap's end |
| `KernelHeap.CloneFromHeap` | src/memory/paging.cc:234-260 | a directory copied with memory from the heap object: the copy is one in the sense of `Cloned`, and heap and page tables are in agreement afterwards; null only when no frame is left |
| `HeapRoom.RoomServes` | src/memory/heap.cc:36-145 | a heap that ends in a long enough hole, and has no other of a page or more, serves any sequence of aligned requests of at least a page without growing, whatever the order of its index |
| `KernelHeap.StartServes` | src/memory/paging.cc:169-177 | the heap that start-up makes serves the copy of a directory with up to sixty tables of its own |
| `KernelHeap.TableFromHeap` | src/memory/paging.cc:266-270 | with the heap object and the page tables together: after an aligned Alloc and the new table, both are valid and agree on the window and on what is in use; null only for the heap's reasons or for want of frames |
| `KernelHeap.DirectoryFromHeap` | src/memory/paging.cc:234-241 | the same for a directory |
| `KernelHeap.ObjectChosen` | src/memory/paging.cc:169-177 | on a new kernel heap the user heap's object takes the front of the one hole |
| `KernelHeap.DirectoryChosen` | src/memory/paging.cc:169-177 | the first directory, allocated after it, is at 0xC0082000, on the next page of what is left |
| `KernelHeap.FirstGrant` | src/memory/paging.cc:169-177 | the kernel's heap as start-up makes it, with the user heap's object allocated and live in it, and then the grant for that directory |
| `KernelHeap.StartInHeap` | src/memory/paging.cc:125-179 | start-up with its heap: it ends with heap and page tables in agreement and cr3 finding both directories, or with every frame given out; the former whenever there are enough frames |
| `Scheduling.Scheduler.constructor` | src/process/task.cc:64-68 | no process, the first pid to be 1 |
| `Scheduling.Scheduler.Initialize` | src/process/task.cc:126-130 | one process, queued and current, in the directory in force |
| `Scheduling.Scheduler.Last` | src/process/task.cc:164-167 | the walk along `next` ends, at the last of the queue |
| `Scheduling.Scheduler.Append` | src/process/task.cc:164-167 | the queue stays a finite list without repetition, in which pids count up, with the new process last |
| `Scheduling.Scheduler.Fork` | src/process/task.cc:148-186 | the parent gets the child's non-zero pid; the child is last in the queue with the parent's registers and the resume point in Fork; in the one stack there is, the frame of the call names both, and the calls it makes leave anything elsewhere; nothing else changes |
| `Scheduling.Scheduler.BackInFork` | src/process/task.cc:169-186 | whoever comes back from read_eip in Fork returns 0 and changes nothing unless the frame at its base pointer names it as the parent; else it saves the registers, with what read_eip returned, for whatever process the frame names as the child |
| `Scheduling.Scheduler.Switch` | src/process/task.cc:188-247 | the outgoing process is saved at the resume point in Switch with its registers; the next round the queue runs with exactly the registers last saved for it, its directory and its kernel stack; where it comes back, and that it returns 0 from Fork if and only if the frame there does not name it as the parent, is stated for whatever the calls on the way leave in the stack; before initialisation nothing happens |
| `Scheduling.Scheduler.BackInSwitch` | src/process/task.cc:205-246 | seen with the dummy in eax, a resumed Switch returns at once and changes neither `current` nor any saved context |
| `Scheduling.Scheduler.Jump` | src/process/task.cc:219-246 | a jump to the saved address ends in Switch, in Fork, or at an address where the kernel has no code |
| `Scheduling.Scheduler.Work` | src/process/task.cc:70-76 | a running process may do anything to the registers and to the stack pages that all processes use |
| `Scheduling.Scheduler.Run` | src/process/task.cc:148-247 | over any interleaving of forks, switches and other work the queue, `current` and current_directory stay in agreement, and every saved context, register and stack frame is what the step system says |
| `Scheduling.FaithfulKept` | src/process/task.cc:148-247 | a fork, a switch or other work leaves every waiting process fit to be resumed, and the one that a switch resumes comes back from Switch or with 0 from Fork, if and only if what the step leaves in the shared stack writes no process that waits in Fork into that one's own frame as the parent |
| `Scheduling.ContextStays` | src/process/task.cc:188-247 | over any run under that guard, what is saved for a waiting process stays until its turn |
| `Scheduling.TurnComes` | src/process/task.cc:214-246 | under that guard the process whose turn is next comes back with the registers saved for it, from Switch or with 0 from Fork as it waits in one or the other, and nothing but the outgoing process's context is saved |
| `Scheduling.SwitchedAlone` | src/process/task.cc:214-246 | a process that is alone gives way to itself, with its own registers, whatever is left in the stack |
| `Scheduling.SwitchedBack` | src/process/task.cc:188-247 | a process that gives way gets its own registers back in its next turn, and Switch returns there, over any run under that guard |
| `Scheduling.ChildReturnsZero` | src/process/task.cc:148-186 | a new process has its first turn in the Fork that made it, with the registers of that call, and Fork returns 0 there, over any run under that guard, the fork itself and the switch included |
| `Scheduling.LeavingFramesIsGuarded` | src/process/task.cc:148-186 | a step that leaves the frames of the waiting processes alone meets the guard |
| `Scheduling.UnguardedWork` | src/process/task.cc:148-186 | without it: a fork, a parent that uses its stack again and one switch, and Fork returns the parent's pid in the child; the next switch jumps to the dummy |
| `Scheduling.WaitIsBounded` | src/process/task.cc:214-217 | a queued process waits fewer switches than its distance round the queue plus the forks made while it waits |
| `Scheduling.OneTurnEach` | src/process/task.cc:214-217 | meanwhile every other process, even one forked meanwhile, has at most one turn |
| `Scheduling.NotYet` | src/process/task.cc:214-217 | one that comes later round the queue has no turn before one that comes earlier |
| `Scheduling.TurnsMean` | src/process/task.cc:214-217 | what having no turn, or one at most, is: at no step, or at no two, does a switch hand over to that process |
| `Scheduling.ForksMean` | src/process/task.cc:148-167 | every fork makes one process, and no other step does |
| `InitrdImage.FirstSpace` | tools/initrd_build.cc:29-35 | a line splits at its first space |
| `InitrdImage.Build` | tools/initrd_build.cc:19-66 | the two streams make the image of the files that the lines call for; fails if and only if a line cannot be used |
| `InitrdImage.LineMeans` | tools/initrd_build.cc:23-45 | a line of an input's name, a space and a name adds a file so named with the input's contents; an empty line adds none, and one without a space or without its input cannot be used |
| `Initrd.ImageLayout` | common/initrd_build.h:8-31 | the format byte by byte: count and start of the contents; for every file size, offset and 64 bytes of name, padded with zeros; then the contents; numbers have their low byte first |
| `InitrdImage.InImage` | common/initrd_build.h:8-31 | the header and the contents of every file are where the image's own fields say |
| `Initrd.StringIs` | src/string.cc:80-88 | the bytes copied are a given string if and only if they are in memory, without a zero, and a zero follows |
| `Initrd.Copy` | src/string.cc:80-88 | the loop copies exactly the bytes up to the first zero |
| `Initrd.Compare` | src/string.cc:70-78 | true if and only if the strings are equal |
| `Initrd.Ramdisk.constructor` | src/fs/initrd.cc:66-104 | one node a file with its size, index and name; every offset becomes absolute and no other byte changes |
| `Initrd.Ramdisk.Read` | src/fs/initrd.cc:29-37 | the bytes from the absolute offset, as many as the 32-bit comparison lets through |
| `Initrd.ReadClips` | src/fs/initrd.cc:31-34 | a read is clipped to the file's end if and only if its end is a 32-bit number or its start is past the file |
| `Initrd.WrappedRead` | src/fs/initrd.cc:31-34 | in every file, from every offset after the first byte, there is a size with which the read is not clipped |
| `Initrd.Ramdisk.ReadDir` | src/fs/initrd.cc:39-52 | entry 0 of the root is the device directory, entry i the i-1st file, and nothing after that, with the wrap-around of index 0 elsewhere |
| `Initrd.Ramdisk.FindDir` | src/fs/initrd.cc:54-62 | the device directory, or the first file of the name, null if and only if there is none |
| `Initrd.Ramdisk.Traverse` | src/fs/fs.cc:12-25 | the first file of the name; null if and only if no file has it or it is the device directory's |
| `Initrd.FieldName` | common/initrd_build.h:19-25 | a node has its file's name if and only if the name is shorter than 64 bytes or happens to go on and end in the bytes that follow its field |
| `Initrd.LongNameLost` | common/initrd_build.h:19-25 | an image of one file on which that fails: a name of 64 letters and one byte of contents, loaded anywhere |
| `Initrd.LoadedName` | src/fs/initrd.cc:91-94 | names shorter than 64 bytes come back, though neighbouring headers are rewritten meanwhile |
| `Initrd.LoadedBytes` | src/fs/initrd.cc:91-92 | after relocation a header's size and offset lead to the file's contents, wherever the image lies |
| `Initrd.Mount` | src/fs/initrd.cc:66-104 | mounting a built image gives a disk that holds those files: names, sizes, contents |
| `Initrd.Ramdisk.ReadFile` | src/fs/initrd.cc:29-37 | a read yields exactly the slice of the contents asked for, clipped to the end |
| `Initrd.Ramdisk.ReadAll` | src/fs/initrd.cc:29-37 | consecutive reads of any size concatenate to the whole file |
| `Initrd.Ramdisk.Fetch` | src/fs/fs.cc:12-25 | with distinct names: the contents of the file of that name, or none if and only if there is none |
| `Initrd.BuildAndFetch` | src/fs/initrd.cc:29-104 | build, load anywhere, mount, look up, read: the contents that went in come out |
| `Preprocessor.NestingState.UpdatePreprocessor` | scripts/cpplint.py:1500-1555 | snapshots pushed, swapped and restored as the directive demands; what that is for is in the rows below |
| `Preprocessor.KindMeans` | scripts/cpplint.py:1522-1541 | a line is of a kind if and only if it is blanks, a hash sign, blanks, one of the kind's words, and a rest that does not go on with it |
| `Preprocessor.BranchStarts` | scripts/cpplint.py:1526-1538 | after any lines, a conditional and any of its branches, nested or not: an else begins with the stack that there was before the conditional |
| `Preprocessor.PrunedFolds` | scripts/cpplint.py:1500-1555 | with else-branches left out, lines act on the stack one after another as if there were no directives, stray ones included |
| `Preprocessor.NestingState.Update` | scripts/cpplint.py:1557-1569 | the directive first, then whatever the line does to the stack |
| `Preprocessor.NestingState.Process` | scripts/cpplint.py:1557-1569 | a text line by line reaches the state that the lemmas are about |
| `Preprocessor.PruningKeeps` | scripts/cpplint.py:1500-1555 | for any sequence of lines, nested or not, and any effect of a line on the stack: outside else-branches the state is that of the text with the else-branches left out, inside one it still has that stack in store |
| `Preprocessor.TextPruned` | scripts/cpplint.py:1511-1517 | for well-nested text, leaving out by counting directives is deleting every branch but the first |
| `Preprocessor.NestedIsText` | scripts/cpplint.py:1519-1555 | lines are a text of the grammar if and only if, counted one by one, every conditional is closed and every else and end belongs to one |
| `Preprocessor.ElseBranchesDoNotMatter` | scripts/cpplint.py:1511-1517 | well-nested text ends with the same stack as with every #else and #elif branch deleted, which is that of the remaining lines acting one after another, and no conditional open |
| `Preprocessor.FlagsAfter` | scripts/cpplint.py:1526-1552 | which open conditionals have seen an else is decided by the directives alone |
| `Preprocessor.DepthIsOpen` | scripts/cpplint.py:1522-1552 | pp_stack is as deep as conditionals are open |
| `Lines.Screen.Pixel` | src/screen.cc:250-253 | one byte of video memory, at an index cut to 16 bits |
| `Lines.OnScreen` | src/screen.cc:250-253 | on the screen a byte is at row * 320 + column, so its index gives both |
| `Lines.Screen.Line` | src/screen.cc:256-294 | for |dy| <= |dx| <= 32767: one pixel in each of |dx|+1 columns from start to end, none more than half a row off, and half a row only ahead of the line, which leaves one choice; no other byte changes; a steeper line is two pixels and reaches its end if and only if |dy| is 1 |
| `Lines.Screen.Along` | src/screen.cc:275-283 | the loop paints one pixel a column and keeps the error term equal to what its rows say |
| `Lines.Screen.Steep` | src/screen.cc:286-292 | a steep line's only step: the next row, in the nearer column |
| `Lines.PaintedAt` | src/screen.cc:250-253 | after some pixels a byte has the colour if and only if one of them is there |
| `Lines.Nearest` | src/screen.cc:276-280 | no other row is nearer to the ideal line in that column |
| `Lines.OneRow` | src/screen.cc:276-281 | two pixels that may stand in a column of a line are the same |
| `Lines.InRange` | src/screen.cc:276-281 | no 16-bit sum overflows |
| `Lines.LastRow` | src/screen.cc:275-283 | half a row off in the last column means the end point itself |

## Left out

- Heaps.Heap.Alloc: the range stays below 2^22 bytes (a size field has 22 bits); this is part of `Valid` and of the growth precondition `CanGrow`, because past it the code stores a truncated size. `CanGrow` also asks that, when no hole fits, the last block is a hole or there is none: without that `Heap.Grow` proves the state after the growth inconsistent, and Alloc recurses on it. An oversized request need not meet it. That an aligned request whose gaps do not hold their tags fails is stated in one direction only, since what it leaves is no heap.
- Heaps.Heap.constructor: the index array is an array object and not bytes of the same memory.
- Heaps.Heap.Free: the word at the end of the range is read as if it were mapped; the page fault that an unmapped one would cause is not modelled.
- Heaps.Heap.Expand: which pages are mapped is a set of addresses here; the same loop over page tables is `Paging.Memory.GrowWindow`. The two heaps are modelled one at a time.
- HeapRuns.AllocThenFree: asks what `Heap.Alloc` asks to grow (`CanGrow`), and that the hole it chooses has room for its tags, because otherwise `Heap.Alloc` has left no consistent heap; neither is asked of an oversized request (`Served`).
- HeapRuns.RunKeeps: the steps of a run are those whose guards hold; what the others leave is stated by `Heap.Alloc` and `Heap.Free` one call at a time.
- Paging.Memory.Kalloc: the heap enters as a grant, an address and a new end. `KernelHeap.GrantPages` gets one from the heap object; `KernelHeap.CloneFromHeap` makes the calls of Alloc that a clone makes, in their order, but before its steps and not between them.
- Paging.Memory.GetPage: with the heap in place; the same function before there is a heap is `Boot.BootPage`.
- Paging.Memory.AllocateRange: a range that ends in the last page of the address space is excluded, because the loop's 32-bit comparison then never fails; the TLB flush has no state here.
- Paging.Memory.FreeFrame: it breaks every state of a run from start-up, and runs are not continued past it; the heap's contraction, its only caller, is modelled with `Heap.Contract`'s set of pages.
- Boot.Initialize: the page fault handler is not created; the kernel's heap and the memory of the user heap's object are, in `KernelHeap.StartInHeap`, but not the user heap's index and tags in its own window; the end of the kernel image is between 4 KB and 0xBF000000, and memory below 4 GB.
- Scheduling.Scheduler.Fork: pids are unbounded numbers, since 2^32 processes do not fit in memory, and stand for the pointers in stack frames; the cloned directory is a new object, and its pages are `Paging.Memory.Clone`'s business. A stack frame is the two locals of a Fork; what the calls that a Fork or a Switch makes leave in the stack is an argument of the step.
- Scheduling.Scheduler.Switch: after a write through a pointer that is no process's, or a jump to where there is no code, the model goes on with the state it had; the machine would not. General registers are neither saved by the code nor modelled.
- Initrd.Ramdisk.constructor: node names are not cut at their 128-byte buffers.
- InitrdImage.Build: a line longer than the tool's buffer, and an input file that cannot be read, which here counts as a line that cannot be used.
- Preprocessor.NestingState.Update: what a line does to the stack is any function of stack and line, and stack entries are values, so the deep copies of the source cannot go wrong by aliasing.
- Lines.Screen.Line: differences above 32767, where the 16-bit subtraction changes sign, get no guarantee beyond what is painted.
- Destructors, `Shutdown`, `ExecVE`, the ELF parser and the dynamic linker.
- Port I/O, descriptor tables, interrupts, text mode, printing, multiboot and system call registration.
- `MoveStack` and the switch to user mode.
- `string::printf`, `string::find`, `vector.h` and the rest of the style tool.
