# Verified model of the LSD kernel core

A Dafny model of the parts of the LSD kernel (a small RISC-V kernel) that carry invariants: page tables on top of the
frame allocator, the heap, the VirtIO split virtqueue, the round-robin scheduler and the tick-to-duration conversion.
`dafny verify dfyconfig.toml` checks everything.

## How it is modelled

**One memory.** `PhysicalMemory.Ram` maps frame numbers to 512 64-bit words. A kernel pointer is
`hhdm + 4096 * frame`; the direct map is a bijection between frames and page-aligned pointers. The frame allocator keeps
pointers, as the source does, and stores its `prev`/`next` words inside the free frames. The page table code works on
frame numbers, reads and writes the same words, and decodes them by `PageEntries`, which is proved to lose no bit.
Words are integers below 2^64; bit fields are lists of bits. Arithmetic that can wrap is written with an explicit
remainder (the release profile, no overflow checks).

**Address spaces.** The state of all address spaces is the memory, the free list, the roots, and one map from tree paths
`[root, index, index, ...]` to table frames (`PageTables.Forest`). A forest has one parent per table, no shared table, no
branch below level 1, and every invalid entry has R, W, X, U, A and D clear, so that setting PPN and V makes a branch.
`Spaces.Separate` says that tables, free frames, claimed frames and orphaned tables (those whose entry `map` overwrote with
a leaf) are disjoint; `State.Pool` is all of them. `Vmm.AddressSpaces.Valid` is both, and every method keeps it, so it
holds over every run. What an address space means is a partial function from addresses to leaves, `State.Find`; the
contracts of `Map`, `Unmap`, cloning, allocation and loading are updates of that function, with everything else unchanged.

**Ownership.** `Ownership.Owned` ties the two together: no address of any space leads to a free frame, a table or an
orphan, only to claimed frames or memory that is not under management. The kernel does not keep this by itself; each
operation keeps it exactly under a condition on the call (`Runs.Safe`), which is proved for every run.

**Runs.** `Runs.Op` is one call of `map`, `unmap`, a claim, a give-back, a clone, or one word stored in a claimed frame,
on any space; the methods of `Vmm.AddressSpaces` each make one `Runs.Step`, and a run is any sequence of them. What a space
finds after a run is `FoundAfter` of its own operations.

**Routes.** `Routes.RouteOf` is the way `map` takes through the tables: the table whose entry it writes, whether a larger
page stops it, and how many tables it makes. It includes the odd case of a valid entry that is neither leaf nor branch,
where the source goes a level down and stays in the same table.

**Free list.** `Pmm.FreeList.free` is the sequence of frames that head, tail, length and both link directions describe.
Searches are specified by `FirstRun`: the earliest list-consecutive run of ascending adjacent frames with an aligned base.

**Heap.** `HeapModel` is the allocator on lists of regions and live blocks, with the invariant and the run theorems;
`Heap` is the linked list in memory and refines it call by call. What a request finds is said once more from addresses
and sizes alone (`Room`, `FirstFitted`).

**Virtqueue.** `VirtQueue` is the two-party protocol with unbounded histories of what was pushed, fetched, used and got,
and who holds each descriptor; `SplitQueue` is the driver's code on arrays, each method equal to the driver step.

**Scheduler.** `TaskModel` has one record for the scheduler and one step per kernel entry; `Own` is the register file of
each task as the task sees it. `Tasks` is the code: the loop of `advance`, the search by id, the input handler, the
system calls and the trap handler, each proved to make exactly its step.

**Clock.** `Timing` follows the arithmetic of `checked_duration_since`, with the exact frequencies at which it is exact.

## Where the source falls short of what it promises

- Frames that are still mapped can be freed or overwritten. `map` keeps ownership if and only if the page given to it is
  claimed or foreign memory (`LeafOwned`); `free` keeps it if and only if no other address of any space leads to the frames
  (`FreeOwned`). It unmaps in the current space only, so a page cloned into another space stays mapped there after its
  frame is free (`FreeAfterClone`). Over runs: `RunOwned`.
- A new space takes the frame at the head of the free list for its root and does not clear the lower half. The spaces stay
  in order if and only if the frame holds clean entries there that lead to no table, and the new space finds nothing there
  if and only if it holds no leaf either (`NewWithUpperhalf`, `NothingBelowIff`). Ownership also needs every such leaf to
  lead to claimed or foreign memory (`AddedOwned`). A frame that was written, given back and claimed again is the failing
  case (`StaleRoot`): with the right word in it the new space maps its own root.
- `map` sets the page it is asked for if and only if no valid entry on the way is neither a leaf nor a branch (`Map`); a
  mapping with the user flag alone makes such an entry, and the next mapping below it lands on a page of the wrong size
  (`MapBelowDeadEntry`).
- A segment is found at the addresses it was loaded for if and only if its address is page aligned (`LoadedByte`);
  otherwise every byte is found too early by the offset of the address in its page (`LoadedAt`).
- The memory part of a segment behind its file part is not cleared: it is zero if and only if there is no file part or the
  frames held zeros (`LoadSegment`, `MemoryPart`). With a file part of at most 8 bytes, bytes 8 to 15 are a kernel pointer,
  never null (`LinkStays`).
- The heap stays in order if and only if the region a request is served from does not round up past the address space
  (`AllocKeeps`; over runs `RunSafe`; `OverflowExample` is such a request).
- `claim` on a list of one frame makes the frame behind the head the new head, free or not, and ends with length 0:
  `Pmm.FreeList.Claim` states that the list stays valid exactly if it had two frames or more.
- A contiguous claim whose first run ends with the last free frame writes through a null pointer: exactly then
  (`NullWrite` in `ClaimContinuous` and `ClaimAligned`; `TailClaim` is such a claim). One frame asked from
  `claim_aligned` is not aligned.
- `unmap` gives back what `map` did if and only if nothing was found in the page before (`UnmapUndoesMap`); a page mapped
  without R, W and X is written and can never be found (`InaccessiblePage`).
- A task that reads a character, or meets a breakpoint, while no other task is runnable never gets out of the kernel: the
  handler spins with its own lock held, so that no input can be handled (`Progress`, in both directions).
- The wakeup of a waiting task is lost if and only if an earlier task has its id (`InputWakes`); after that it waits
  forever (`SharedIdWaitsForever`), and a spawned thread gets there (`LostWakeupExample`).
- The elapsed time is exact to the microsecond only at the frequencies of `ExactFrequencies`; at others it runs slow,
  never fast.

## Model

| member | source | states |
|---|---|---|
| PageEntries.DecodeEncode | LSD/src/memory/vmm.rs:631-650 | every entry whose fields fit is one 64-bit word, and decoding it gives all fields back |
| PageEntries.EncodeDecode | LSD/src/memory/vmm.rs:631-650 | decoding loses no bit: encoding the fields of any word gives the word |
| PageEntries.EntryNumber | LSD/src/memory/vmm.rs:631-650 | the word of an entry as a number: the weight of every field |
| PageEntries.DecodedBits | LSD/src/memory/vmm.rs:631-650 | of any word: V, R, W, X, U, G, A and D are bits 0 to 7, and the page number is bits 10 to 53 |
| PageEntries.WordKinds | LSD/src/memory/vmm.rs:652-666 | which words are branches and which are leaves, by their bits |
| PageEntries.PointerIsClean | LSD/src/memory/pmm.rs:245-250 | a page-aligned link of the free list, read as an entry, is invalid and has R, W, X, U, A, D clear |
| PhysicalMemory.FrameOfPtr | LSD/src/memory/mod.rs:182-188 | taking the frame of a direct-map pointer undoes making it |
| PhysicalMemory.PtrOfFrame | LSD/src/memory/mod.rs:182-188 | the converse, for page-aligned pointers above the direct map's start |
| PhysicalMemory.ByteDigit | LSD/src/userspace.rs:56-60 | byte j of a word is its digit of weight 256^j: lowest byte first |
| PhysicalMemory.PokeByteEffect | LSD/src/userspace.rs:56-60 | a byte store into a frame changes that byte and no other |
| Addresses.SamePageNumber | LSD/src/memory/mod.rs:155-166 | two addresses agree on all indices from a level up exactly if their page numbers are equal |
| Addresses.PageNumberArith | LSD/src/memory/mod.rs:95-109 | the indices are the digits of the address divided by the page size, less the ignored top bits |
| Addresses.SpanPowers | LSD/src/memory/mod.rs:155-166 | page sizes grow by 512 from 4 KiB, and an index is the digit above the page size |
| Addresses.LeafAddressParts | LSD/src/memory/vmm.rs:720-741 | the address a leaf gives lies in the page of its frame, of whatever size, as far into it as `va` lies into its own |
| Addresses.LeafAddressOf | LSD/src/memory/vmm.rs:720-741 | so the quotient by the page size is that of the physical address mapped |
| Addresses.PagesIn | LSD/src/memory/vmm.rs:39-44 | the frame count is the least that covers the size |
| PageTables.Descend | LSD/src/memory/vmm.rs:712-749 | a walk that has come down to a table of the forest continues exactly from there |
| PageTables.NeverFaults | LSD/src/memory/vmm.rs:712-749 | no walk leaves memory or passes level 1 |
| PageTables.Child | LSD/src/memory/vmm.rs:668-673 | a branch leads to the table the forest has at the longer path |
| PageTables.WriteEnd | LSD/src/memory/vmm.rs:431-442 | writing a leaf or an empty entry keeps a forest, less the tables below the entry |
| PageTables.WriteBranch | LSD/src/memory/vmm.rs:452-468 | entering a cleared, unused frame keeps a forest, with one table more |
| PageTables.EndEffect | LSD/src/memory/vmm.rs:431-442 | after it, exactly the walks that pass the entry end there; all others are unchanged |
| PageTables.BranchEffect | LSD/src/memory/vmm.rs:452-468 | hanging a cleared table under an invalid entry changes no walk |
| PageTables.WalkFrame | LSD/src/memory/vmm.rs:712-749 | walks depend on the tables of the forest only |
| PageTables.PassesSamePage | LSD/src/memory/mod.rs:155-166 | a walk passes the entry on the way to `virt` exactly if the addresses agree on all indices from the target up |
| Routes.RouteClear | LSD/src/memory/vmm.rs:427-473 | with nothing in the way the route of `map` is that of the walk |
| Routes.RouteObstructed | LSD/src/memory/vmm.rs:447-472 | a larger page stops the route; with a valid entry that is neither leaf nor branch it ends in a table higher up |
| Routes.ObstacleFromFind | LSD/src/memory/vmm.rs:443-469 | without such entries, what stands in the way of `map` shows in what a walk finds |
| Routes.LeafFound | LSD/src/memory/vmm.rs:447-451 | `map` meets a larger page exactly if the walk finds one |
| Pmm.LinksPush | LSD/src/memory/pmm.rs:79-88 | the three stores of an append make the links of the longer sequence |
| Pmm.LinksPull | LSD/src/memory/pmm.rs:104-113 | the three stores of a prepend make the links of the longer sequence |
| Pmm.LinksCut | LSD/src/memory/pmm.rs:153-166 | stitching the neighbours of a run takes exactly that run out, in both link directions |
| Pmm.NextLink | LSD/src/memory/pmm.rs:247-250 | a free frame other than the last holds a pointer to another free frame, never null |
| Pmm.RunBroken | LSD/src/memory/pmm.rs:173-180 | restarting behind a broken run skips no run |
| Pmm.GoodRunMeans | LSD/src/memory/pmm.rs:173-180 | a run that serves is one of frames that follow each other, the first at an aligned address |
| Pmm.FreeList.Init | LSD/src/memory/pmm.rs:56-64 | the list is the one frame; no other frame is written |
| Pmm.FreeList.Push | LSD/src/memory/pmm.rs:69-89 | appends the frame, or panics exactly on a low or unaligned pointer; no frame off the list is written |
| Pmm.FreeList.Pull | LSD/src/memory/pmm.rs:94-114 | prepends the frame, or panics exactly on a low or unaligned pointer; no frame off the list is written |
| Pmm.FreeList.Claim | LSD/src/memory/pmm.rs:116-137 | takes the head; the list stays valid exactly if it had two frames or more, else the next frame is invented; the frames left keep all but their links |
| Pmm.FreeList.FindRun | LSD/src/memory/pmm.rs:149-183 | finds the earliest run, and none exactly if there is none |
| Pmm.FreeList.Unlink | LSD/src/memory/pmm.rs:153-168 | takes out exactly the run and keeps the order of the rest; fails exactly if the run reaches the tail |
| Pmm.FreeList.ClaimContinuous | LSD/src/memory/pmm.rs:140-187 | error with everything unchanged exactly if no run exists; else the earliest run, and exactly it leaves the list; the list stays valid exactly if the run does not reach the tail |
| Pmm.FreeList.ClaimAligned | LSD/src/memory/pmm.rs:189-239 | the same with an aligned base: the pointer is a multiple of the page size asked for and the frames follow each other; one frame is taken from the head without alignment |
| Pmm.TailClaim | LSD/src/memory/pmm.rs:149-168 | a list and a claim whose first run ends with the last free frame: the write through a null pointer |
| Pmm.UsableMeans | LSD/src/memory/pmm.rs:16-36 | the usable frames are those whose first byte lies in a usable entry, counted from the page the entry starts in |
| Pmm.InitFromMap | LSD/src/memory/pmm.rs:16-36 | the list holds the frames of all usable entries in map order; every other frame keeps all it held, and these all but their links |
| Clones.CopiedWalk | LSD/src/memory/vmm.rs:323-345 | below the copied range a walk from a copy finds what the walk from its source finds |
| Clones.CopiedTree | LSD/src/memory/vmm.rs:323-345 | a complete copy is a forest of its own |
| Clones.OnlyIfChildless | LSD/src/memory/vmm.rs:194-202 | only if the entries outside the copied range are clean and lead to no table |
| Clones.ForestUnion | LSD/src/memory/vmm.rs:323-345 | two forests without common tables are one forest |
| Spaces.LeafEntryKind | LSD/src/memory/vmm.rs:435-439 | the entry `map` writes fits, has the frame of `phys`, and is a leaf exactly with R, W or X |
| Spaces.LeafFields | LSD/src/memory/vmm.rs:434-439 | and it has V, exactly the permission and memory-type bits of the flags, the frame, and nothing else |
| Spaces.LeafNumber | LSD/src/memory/vmm.rs:434-439 | its word as a number, from the flags and the frame |
| Spaces.LeafWord | LSD/src/memory/vmm.rs:434-439 | its word bit by bit: V, then R, W, X, U and G as the flags say, the page number from bit 10, the memory types at bits 61 and 62, all others clear |
| Spaces.SlotWritten | LSD/src/memory/vmm.rs:431-442 | overwriting an entry keeps ownership; tables it led to become orphans, no frame is lost |
| Spaces.UnmapUndoesMap | LSD/src/memory/vmm.rs:360-474 | `map` then `unmap` returns the mapped frame and restores every translation, exactly if the page was unmapped before |
| Spaces.InaccessiblePage | LSD/src/memory/vmm.rs:435-441 | the mapped page is found exactly with R, W or X, at `phys` with the page-size bits cleared plus the offset: the quotient by the page size is that of `phys`, the remainder that of `virt` |
| Spaces.WayKinds | LSD/src/memory/vmm.rs:427-473 | each kind of obstacle determines where the route ends and what the walk finds |
| Spaces.DeadRoute | LSD/src/memory/vmm.rs:447-472 | below an entry that is neither leaf nor branch, a page one size smaller ends up in the same table |
| Spaces.PageNotSet | LSD/src/memory/vmm.rs:430-442 | a leaf written in a table too high up is not the page asked for |
| Vmm.HeadEmpty | LSD/src/memory/vmm.rs:194-199 | the links in a claimed frame never matter to what its lower half reads as |
| Vmm.AddressSpaces.Map | LSD/src/memory/vmm.rs:414-474 | panics exactly if the route is blocked, stops exactly if it wants more tables than there are spare frames, else writes exactly the entry at its end; that sets `virt`'s page and nothing else if and only if no entry on the way is neither leaf nor branch; other spaces never change; the 64-bit word stored at the end of the route is, bit for bit, the one the flags and `phys` ask for |
| Vmm.MapBelowDeadEntry | LSD/src/memory/vmm.rs:444-472 | the failing case: a user-only mapping, then one below it; `virt` is found at a page of the wrong size or not at all |
| Vmm.AddressSpaces.HangNewTable | LSD/src/memory/vmm.rs:452-468 | claiming and entering a table between copying the parent and writing it back changes no translation |
| Vmm.AddressSpaces.WriteSlot | LSD/src/memory/vmm.rs:431-442 | writing back a whole table with one entry changed has the effect of that entry alone |
| Vmm.AddressSpaces.Unmap | LSD/src/memory/vmm.rs:360-410 | succeeds exactly on a leaf at the target level, returns its frame, and removes exactly that page; a panic changes nothing |
| Vmm.AddressSpaces.VirtToPhys | LSD/src/memory/vmm.rs:712-749 | the address is that of the leaf the flat map has, or an error if it has none; it lies in the page of the frame found, as far into it as the virtual address into its page |
| Vmm.AddressSpaces.CloneTableRange | LSD/src/memory/vmm.rs:323-345 | `dest` becomes a copy whose tables all come from the free list; only those and `dest` are written, no translation changes; terminates on depth |
| Vmm.AddressSpaces.CopyBranch | LSD/src/memory/vmm.rs:328-334 | the copied branch differs from the original in the table frame only |
| Vmm.AddressSpaces.NewWithUpperhalf | LSD/src/memory/vmm.rs:194-202 | a new space that translates the upper half as the current one does and the lower half as the claimed frame says; in order, and empty below, each exactly under its condition on that frame |
| Vmm.StaleRoot | LSD/src/memory/vmm.rs:194-202 | the failing case: an entry stored in a frame that becomes the next root is found in the new space, or puts the spaces out of order |
| Runs.Isolation | LSD/src/memory/vmm.rs:360-474 | over every run of operations on any mix of spaces, a space finds what it would find after its own operations alone |
| Runs.CloneIsolation | LSD/src/memory/vmm.rs:320-345 | so do the copy, from what it found when it was made, and its source |
| Runs.RunStraight | LSD/src/memory/vmm.rs:444-472 | with accessible pages only, and roots without such entries, no entry that is neither leaf nor branch ever comes about |
| Runs.RunOwned | LSD/src/memory/vmm.rs:28-202 | over every run: the spaces stay in order and no address ever leads to a free frame or a table, if and only if every call was safe, clones included |
| Runs.RunPool | LSD/src/memory/vmm.rs:28-202 | over every run free, claimed, table and lost frames are together the same set |
| Runs.StepOwned | LSD/src/memory/vmm.rs:194-474 | each single call keeps that exactly if it is safe |
| Ownership.LeafOwned | LSD/src/memory/vmm.rs:435-441 | a mapping keeps it exactly if every frame of the page is claimed or not under management |
| Ownership.SmallPageHeld | LSD/src/memory/vmm.rs:725-728 | for a 4 KiB page that is its one frame |
| Ownership.ClearedOwned | LSD/src/memory/vmm.rs:381-386 | clearing an entry keeps it |
| Ownership.SameOwned | LSD/src/memory/vmm.rs:323-345 | claiming frames, adding tables and copying tables keep it |
| Ownership.AddedOwned | LSD/src/memory/vmm.rs:194-202 | a new space keeps it exactly if the leaves in the lower half of the claimed frame lead to held pages |
| Ownership.GivenOwned | LSD/src/memory/pmm.rs:94-114 | giving frames up keeps it exactly if no address leads to them |
| Ownership.AllocOwned | LSD/src/memory/vmm.rs:28-85 | backing a range with claimed frames keeps it |
| Ownership.FreeOwned | LSD/src/memory/vmm.rs:92-108 | freeing a range keeps it exactly if no other address of any space leads to its frames |
| Ownership.AllocFreeOwned | LSD/src/memory/vmm.rs:28-108 | a range just allocated can be freed |
| Ownership.AddressOn | LSD/src/memory/mod.rs:155-166 | every entry of a table is on the walk of some address, with every offset |
| SpaceClones.NewSpace | LSD/src/memory/vmm.rs:194-202 | taking the copy up as a space, whatever the claimed frame held: old spaces are unchanged, the frames under management are the same, and what the new space finds |
| SpaceClones.AdoptCopy | LSD/src/memory/vmm.rs:194-202 | the spaces are in order exactly if the rest of the new root is clean and leads to no table |
| SpaceClones.AdoptFinds | LSD/src/memory/vmm.rs:194-202 | what the new root finds in and outside the copied range |
| SpaceClones.NothingBelowIff | LSD/src/memory/vmm.rs:194-202 | the new space is in order and finds nothing below exactly if the claimed frame held no branch, no leaf and no unclean entry there |
| SpaceClones.CloneBranch | LSD/src/memory/vmm.rs:328-338 | a copied branch and the recursive copy below it extend the copy by one entry |
| SpaceClones.CloneFlat | LSD/src/memory/vmm.rs:339-343 | a copied leaf or a cleared entry extends the copy by one entry |
| Vmm.AddressSpaces.ClaimFrames | LSD/src/memory/vmm.rs:47-51 | the frames claimed are consecutive, were free, and no translation changes; fails exactly without a run, and breaks the list exactly if the run reaches its tail |
| Vmm.AddressSpaces.GiveBack | LSD/src/memory/vmm.rs:102-104 | the frame returns to the front of the free list with all it held but its links, and no translation changes |
| Vmm.AddressSpaces.WriteData | LSD/src/userspace.rs:48-60 | a word stored in a claimed frame changes that word alone and no translation |
| Vmm.AddressSpaces.MapNext | LSD/src/memory/vmm.rs:63-75 | one page more of the range is mapped, the earlier ones stay, or the allocator is exhausted |
| VirtualAlloc.VmmArena.Alloc | LSD/src/memory/vmm.rs:28-85 | page k of the range is at the k-th claimed frame, consecutive ones if asked for; all other addresses unchanged; each failure with its cause; ownership is kept |
| VirtualAlloc.VmmArena.Free | LSD/src/memory/vmm.rs:92-108 | panics exactly at the first page that is not found, with those before it freed; no freed page is found any more, all others unchanged; the frames are back in reverse order, with all they held but their links; ownership is kept exactly if no other address leads to them |
| VirtualAlloc.FreeAfterClone | LSD/src/memory/vmm.rs:92-108 | the failing case: a page cloned into another space is still found there when its frame is at the head of the free list |
| Ranges.MappedFound | LSD/src/memory/vmm.rs:28-85 | what `alloc` maps is what `free` needs to find |
| Ranges.AllocThenFree | LSD/src/memory/vmm.rs:28-108 | after both, every translation is as before, and the free frames are those before less exactly the tables made |
| Ranges.DistinctPages | LSD/src/memory/vmm.rs:53-63 | the pages of a range within the address space are different pages |
| Userspace.SegmentAccessible | LSD/src/userspace.rs:189-205 | a segment with any of the three flags gives accessible pages |
| Userspace.CopyIn | LSD/src/userspace.rs:48-60 | the frames hold the bytes of the file, and behind them what they held; a short file is the only failure; no translation changes |
| FrameBytes.KeptSince | LSD/src/userspace.rs:46-60 | what a free frame held stays behind the bytes written, but for its links |
| Userspace.LoadSegment | LSD/src/userspace.rs:40-85 | claims, fills and maps one segment; the memory part behind the file part is zero exactly if there is no file part or the frames held zeros; each failure with its cause |
| Userspace.MemoryPart | LSD/src/userspace.rs:48-60 | the same for the bytes alone |
| Userspace.LinkStays | LSD/src/userspace.rs:56-60 | behind a file part of at most 8 bytes the first frame still holds the pointer to the next free frame |
| Userspace.LoadSegments | LSD/src/userspace.rs:38-86 | all segments are placed, later ones disturb no earlier one, and nothing else is mapped; behind its bytes every segment holds what its frames held before loading, but for their links; a failure has its cause in the segment it stops at; every address of a loaded segment executes, writes and reads as bits 0, 1 and 2 of its flags say, for user mode; no segment without pages or longer than the file is ever loaded |
| Userspace.LoadingOwned | LSD/src/userspace.rs:38-86 | loading keeps every address on claimed memory |
| Userspace.Load | LSD/src/userspace.rs:35-86 | the same from `new_with_upperhalf` on: an empty lower half and the program's segments in it |
| Userspace.LoadedByte | LSD/src/userspace.rs:62-83 | every byte of the file part is found at the address it was loaded for if and only if the segment is page aligned |
| Userspace.LoadedAt | LSD/src/userspace.rs:62-83 | what each address of a placed segment translates to, aligned or not; the entry executes, writes and reads exactly as bits 0, 1 and 2 of the segment's flags say, and is for user mode |
| Userspace.LoadedAccess | LSD/src/userspace.rs:180-205 | the same for all addresses of all loadable segments of a program at once |
| Userspace.ByteInPlace | LSD/src/userspace.rs:56-60 | the file's byte i lies at byte i of the frames |
| HeapModel.AlignUpIs | LSD/src/memory/mod.rs:206-208 | the next multiple without overflow, and 0 with overflow |
| HeapModel.StartInside | LSD/src/memory/linked_list.rs:86-104 | a passing region has its start inside exactly if rounding up does not overflow |
| HeapModel.OverflowExample | LSD/src/memory/linked_list.rs:86-104 | a request for which it does overflow: address 0, and a free region never owned |
| HeapModel.SizeAlignCovers | LSD/src/memory/linked_list.rs:110-117 | the adjusted request covers the original, is a multiple of 8 and at least a node |
| HeapModel.SizeAlignExact | LSD/src/memory/linked_list.rs:110-117 | the adjusted size is the next multiple of the alignment, at least 16; refused exactly if that does not fit |
| HeapModel.FirstFit | LSD/src/memory/linked_list.rs:62-81 | the first region that passes, and none exactly if none passes |
| HeapModel.AllocExact | LSD/src/memory/linked_list.rs:86-136 | a region has room if its first aligned address and the size end with it or 16 bytes before its end at the latest: the first region with room is cut there, and without wrap-around the pointer is null exactly if there is none |
| HeapModel.ExactFit | LSD/src/memory/linked_list.rs:87-104 | a region is used for a request that leaves nothing or at least a node, and for no other |
| HeapModel.AllocGives | LSD/src/memory/linked_list.rs:121-136 | first fit by addresses and sizes: the pointer is null exactly if no region has room or the region rounds up past the address space; else the block is aligned, long enough, inside the heap and overlaps nothing |
| HeapModel.AllocKeeps | LSD/src/memory/linked_list.rs:121-136 | allocation keeps the invariant if and only if the region found does not round up past the address space; alignment 8 loses no byte |
| HeapModel.ServesLow | LSD/src/memory/linked_list.rs:86-104 | alignments that end with the heap below the end of the address space never do |
| HeapModel.DeallocKeeps | LSD/src/memory/linked_list.rs:138-143 | freeing a live block keeps the invariant and loses no byte |
| HeapModel.RunSafe | LSD/src/memory/linked_list.rs:121-143 | over every run: blocks and regions disjoint, inside, 8-aligned, and free + live + gaps bytes equal the heap, all the way if and only if no request rounds up past the address space |
| HeapModel.RunSmall | LSD/src/memory/linked_list.rs:121-143 | with alignments of at most 8 the invariant holds over every run and no byte is lost |
| Heap.ChainPush | LSD/src/memory/linked_list.rs:51-55 | a node written in front makes the longer chain |
| Heap.ChainUnlink | LSD/src/memory/linked_list.rs:68-72 | relinking the predecessor takes out exactly that node |
| Heap.LinkedListAllocator.AddFreeRegion | LSD/src/memory/linked_list.rs:45-56 | the region is in front, or an assertion fails exactly on a bad address or size |
| Heap.LinkedListAllocator.FindRegion | LSD/src/memory/linked_list.rs:62-81 | unlinks exactly the first region that passes and keeps the order of the rest |
| Heap.LinkedListAllocator.Alloc | LSD/src/memory/linked_list.rs:121-136 | makes the model's step and returns its pointer, null exactly in the same two cases; the list stays in order exactly if the request does not round up past the address space; a refused layout is the only panic; from addresses and sizes alone: the pointer is the first room there is, and the region, the rest of it and the block are accounted for |
| Heap.LinkedListAllocator.Dealloc | LSD/src/memory/linked_list.rs:138-143 | the block is the front region and no longer live, all else stays; the assertions never fail |
| VirtQueue.Outstanding | LSD/src/drivers/virtio/splitqueue/mod.rs:53-59 | neither ring ever holds more waiting entries than the queue has slots |
| VirtQueue.SlotOf | LSD/src/drivers/virtio/splitqueue/mod.rs:20-25 | the slot a 16-bit index names is that of the unbounded count, by the size check in `new` |
| VirtQueue.PushKeeps | LSD/src/drivers/virtio/splitqueue/mod.rs:167-183 | pushing an allocated descriptor overwrites no waiting entry and keeps the order |
| VirtQueue.PopKeeps | LSD/src/drivers/virtio/splitqueue/mod.rs:203-217 | popping keeps the invariant |
| VirtQueue.AllocKeeps | LSD/src/drivers/virtio/splitqueue/mod.rs:53-55 | an allocated descriptor is in no other place |
| VirtQueue.AllocAdds | LSD/src/drivers/virtio/splitqueue/mod.rs:53-55 | a descriptor is allocated exactly as long as fewer than the queue size are held, waiting, at the device or returned; it is in none of these places |
| VirtQueue.FreeKeeps | LSD/src/drivers/virtio/splitqueue/mod.rs:57-59 | freeing a popped descriptor keeps the partition |
| VirtQueue.PopInOrder | LSD/src/drivers/virtio/splitqueue/mod.rs:203-217 | `pop` gives the next used element not yet got, and `None` exactly when caught up |
| VirtQueue.DrainInOrder | LSD/src/drivers/virtio/splitqueue/mod.rs:219-222 | the entries between the two indices are exactly the elements not yet got, in order, across wrap-around |
| VirtQueue.RunKeeps | LSD/src/drivers/virtio/splitqueue/mod.rs:20-59 | over every interleaving: descriptors are partitioned, fetched and got are prefixes of pushed and used, no waiting slot is overwritten |
| SplitQueue.AvailableQueue.Push | LSD/src/drivers/virtio/splitqueue/mod.rs:167-183 | writes the slot of the index and nothing else; the index counts modulo 65536 |
| SplitQueue.UsedQueue.Pop | LSD/src/drivers/virtio/splitqueue/mod.rs:203-217 | the element at the driver's own index, or `None` at the device's index |
| SplitQueue.UsedQueue.Drain | LSD/src/drivers/virtio/splitqueue/mod.rs:219-222 | all elements between the indices, in ring order, however the indices wrap; terminates |
| SplitQueue.SplitVirtqueue.Create | LSD/src/drivers/virtio/splitqueue/mod.rs:20-51 | each refusal exactly for its sizes; else the initial state of the protocol |
| SplitQueue.SplitVirtqueue.AllocDescriptor | LSD/src/drivers/virtio/splitqueue/mod.rs:53-55 | gives the last free descriptor, and none exactly if the free list is empty; the driver step of the protocol |
| SplitQueue.SplitVirtqueue.FreeDescriptor | LSD/src/drivers/virtio/splitqueue/mod.rs:57-59 | the descriptor goes to the end of the free list; the driver step of the protocol |
| SplitQueue.SplitVirtqueue.WriteDescriptor | LSD/src/drivers/virtio/splitqueue/mod.rs:129-131 | the descriptor written is the one read later, no other changes |
| TaskModel.NextExists | LSD/src/traps/task.rs:150-181 | a next task exists whenever any task is runnable |
| TaskModel.NextUnique | LSD/src/traps/task.rs:150-181 | and it is one task |
| TaskModel.Closer | LSD/src/traps/task.rs:150-181 | each switch brings a runnable task strictly closer |
| TaskModel.Fair | LSD/src/traps/task.rs:150-181 | in any run a task that stays runnable runs within as many switches as it is away from its turn, and one for every task spawned meanwhile |
| TaskModel.ContextPreserved | LSD/src/traps/task.rs:13-34 | each entry has on every task's own registers the effect it has without any saving, restoring or switching, spawn included |
| TaskModel.StepKeeps | LSD/src/traps/mod.rs:295-357 | every entry keeps: the running task is runnable, every waiter a search by id finds is listed, every listed id is some task's |
| TaskModel.RunKeeps | LSD/src/traps/mod.rs:295-357 | the same over every run; ids never change |
| TaskModel.StepDeterministic | LSD/src/traps/mod.rs:295-357 | an entry leads to one state |
| TaskModel.Progress | LSD/src/traps/task.rs:150-181 | a switching entry has a successor if and only if it does not block or another task is runnable |
| TaskModel.ResumesUnchanged | LSD/src/traps/task.rs:13-34 | over any run a runnable task that was switched away from runs again with exactly its saved registers |
| TaskModel.ReadCharReturns | LSD/src/arch/riscv/syscalls.rs:42-50 | the reader runs again only after an input, with its registers at the call, `sepc` four bytes on, and the first character in `a0` |
| TaskModel.WakesOnInput | LSD/src/uart.rs:49-66 | the same from any moment of the wait |
| TaskModel.InputWakes | LSD/src/uart.rs:49-66 | an input wakes a waiting task if and only if no earlier task has its id, with the character in `a0`; no other task changes and the list is empty afterwards |
| TaskModel.NoLostWakeup | LSD/src/uart.rs:49-66 | with distinct ids no task waits for a character after an input |
| TaskModel.SharedIdWaitsForever | LSD/src/traps/task.rs:199-201 | a waiting thread that shares an earlier task's id is never woken in any run |
| TaskModel.LostWakeupExample | LSD/src/arch/riscv/syscalls.rs:113-127 | a run in which a spawned thread gets into that state |
| TaskModel.SpawnGives | LSD/src/arch/riscv/syscalls.rs:113-127 | a spawned thread is a runnable copy of its parent with its own thread id; it finds the two ids, the parent 0, and both go on behind the call |
| Tasks.TaskQueue.Advance | LSD/src/traps/task.rs:150-181 | stops at the first runnable task after the current one, itself last; terminates |
| Tasks.TaskQueue.FindTask | LSD/src/traps/task.rs:199-201 | the first task with the id, or none |
| Tasks.OneMoreInput | LSD/src/uart.rs:53-63 | handling one more listed id wakes the first task with it if that still waits |
| Tasks.Kernel.AdvanceTask | LSD/src/traps/task.rs:13-34 | the running task's registers are saved, the next one's restored, nothing else changes |
| Tasks.Kernel.UartHandler | LSD/src/uart.rs:49-66 | the loop over the list wakes exactly the tasks of the specification, whatever the list repeats |
| Tasks.Kernel.KernelIo | LSD/src/arch/riscv/syscalls.rs:26-53 | reading a character lists the task, blocks it and switches |
| Tasks.Kernel.KernelTask | LSD/src/arch/riscv/syscalls.rs:55-159 | forfeit switches; spawn appends a clone with the ids in `a0` and `a1` and gives the caller 0 |
| Tasks.Kernel.SyscallCore | LSD/src/arch/riscv/syscalls.rs:15-21 | each call makes its step or panics |
| Tasks.Kernel.TrapHandler | LSD/src/traps/mod.rs:258-357 | cause by cause and call by call: the timer switches, the external interrupt wakes readers, a breakpoint blocks, the four calls (0,1), (0,2), (1,0), (1,2) print, read, forfeit and spawn, unknown calls panic and unknown causes halt; the invariant is kept |
| Timing.PanicsOnlyIfUnusable | LSD/src/timing.rs:110-121 | divides by zero exactly for frequency 0 and frequencies whose rounding up overflows; `None` exactly for an earlier instant |
| Timing.NanosBelowSecond | LSD/src/timing.rs:116-120 | the nanosecond part stays below a second |
| Timing.NeverExceedsElapsed | LSD/src/timing.rs:110-121 | the measured time never exceeds the elapsed time |
| Timing.Monotone | LSD/src/timing.rs:110-121 | a later instant never measures less |
| Timing.ExpiredInTime | LSD/src/timing.rs:146-148 | a timeout does not fire early, and stays fired |
| Timing.ExpiredExact | LSD/src/timing.rs:146-148 | a timeout has fired exactly if the measured nanoseconds have reached the wanted ones |
| Timing.ExactFrequencies | LSD/src/timing.rs:110-121 | for all differences the time is the elapsed time cut to the microsecond, if and only if the frequency is 1, or 0 or 999999 modulo 10^6 |

## Left out

- Vmm.AddressSpaces.Map: stops when a table is needed and the free list is down to one frame, where the source takes the frame `claim` invents. Flags with none of R, W, X and U are excluded, since the source then writes a branch to the caller's frame.
- Vmm.AddressSpaces.CloneTableRange: stops at one free frame, like `Map`.
- Vmm.AddressSpaces.NewWithUpperhalf: needs two free frames, like `Map`, and once a branch or an unclean entry in the claimed frame has put the spaces out of order nothing more is said about them.
- Vmm.AddressSpaces.GiveBack: requires a claimed frame, as the source's callers have it from `unmap`; a frame that is still mapped is described by ownership.
- VirtualAlloc.VmmArena.Alloc: the range that the `vmem` crate hands out is a parameter, within the address space and not mapped; pages must be accessible and no table may hold a valid entry that is neither leaf nor branch.
- VirtualAlloc.VmmArena.Free: the frames behind the pages that are found are assumed to be claimed and different, as `alloc` leaves them.
- Userspace.Load: the claimed root is assumed to read as empty behind its links, which `new_with_upperhalf` does not see to. Segments are a parameter (no ELF parsing), in the lower half, with different pages and file size at most memory size; the stack, the task record and the entry point are not part of this model.
- Userspace.LoadSegment: a file part longer than the memory part is excluded; the source then writes behind the frames it claimed.
- Userspace.LoadSegments: over several segments the links at the start of each frame are not described, since later claims move them; `LoadSegment` describes them for its own start.
- Pmm.InitFromMap: the usable entries are page aligned and do not overlap.
- Pmm.FreeList.ClaimContinuous: after the write through a null pointer nothing is said about the list.
- Pmm.FreeList.ClaimAligned: shares one search, `FindRun`, with `claim_continuous`, whose loops differ in the alignment test only.
- Heap.LinkedListAllocator.Alloc: the list of live blocks and the byte count of the gaps are ghost; after an overflow only the lists are described, not the foreign memory the source overwrites.
- Heap.LinkedListAllocator.Dealloc: the caller frees a live block with the layout it was allocated with.
- Tasks.Kernel.KernelIo: printing only moves `sepc`; the panic on an address that does not translate is not part of this model.
- Tasks.Kernel.KernelTask: the heap-extension call and the two drop calls return `NotModelled`.
- Tasks.Kernel.SyscallCore: the same calls return `NotModelled`.
- Tasks.Kernel.TrapHandler: a task blocks only while another is runnable, since otherwise the source loops with interrupts enabled and its own lock held. The page fault that remaps the UART returns `NotModelled`, and the external interrupt is taken to be the UART's.
- Tasks.TaskQueue.Advance: requires a runnable task; the interrupt window of the loop is only reached without one, and the loop then does not end.
- `Unit::ticks` and `Unit::set`: a table of constants and a hardware timer.
- Locks and real concurrency: each method is one atomic step. TLB flushes, CSRs, PLIC, SBI, FDT, assembly and UART output are hardware.
- `alloc_constrained`, `free_constrained`, `drop_task`, `set_index`, the PCI, NVMe, RTC and input drivers, the DMA wrapper and `xtask`.
- The DMA fences between ring and index writes: a push is one step, so orderings weaker than that are not described.
