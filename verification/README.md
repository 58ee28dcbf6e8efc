# Verified model of the ShawnOS kernel memory stack

This project models how ShawnOS manages memory on i386 and proves what its parts promise each other:

- the bit vector that everything else is built on (`kernel/include/kernel/bitset.h`);
- the frame allocator and the early placement allocator (`kernel/arch/i386/mem.c`);
- two-level paging, whose tables live in physical memory and are edited through one movable window page
  (`kernel/arch/i386/paging.c`), on a processor with a translation look-aside buffer;
- the address space allocator (`kernel/mm/asa.c`);
- the kernel heap (`kernel/mm/heap.c`);
- the order in which they are brought up (`kernel/kernel/kernel.c`).

`dafny verify dfyconfig.toml` checks the whole project.

## How the model is built

| file | contents |
|---|---|
| `Words.dfy`, `Runs.dfy`, `Layout.dfy` | 32-bit words with `\|`, `&`, `~` as operations on binary digits; runs of free entries; constants |
| `Bitset.dfy` | the bit vector as an array of words, and the sequence of booleans it stands for |
| `Asa.dfy`, `Frames.dfy`, `EarlyHeap.dfy` | the three simple allocators |
| `PageTables.dfy`, `Ownership.dfy` | translation as a function of physical memory; who owns which frame |
| `Memory.dfy` | words and bytes of mapped memory; what a store changes |
| `Cpu.dfy`, `Mmu.dfy` | the processor, and the paging code as methods that load and store through it |
| `HeapModel.dfy`, `HeapRuns.dfy` | a heap block as a value; runs of add, malloc and free |
| `Sizing.dfy` | how many pages an expansion asks for, and what fits the block it adds |
| `KernelPages.dfy` | heap, reservations and page tables together |
| `HeapSearch.dfy` | what a call of `kheap_malloc` comes to: blocks passed by, expansions, success and failure |
| `HeapAccounts.dfy` | what calls of `kheap_malloc` take from the rest of the kernel |
| `HeapImage.dfy`, `HeapMemory.dfy` | headers and bit vectors as words of the blocks' own pages |
| `HeapExamples.dfy` | concrete runs in which the heap falls short |
| `KheapBlock.dfy`, `Kheap.dfy`, `Boot.dfy` | the heap's blocks and the heap itself as objects; initialisation |
| `Guard.dfy` | a way to delay the unfolding of a definition |

Code that changes state is a class with the same fields and loops; each method is proved against a function or
predicate on values, and the theorems are lemmas about those. Long functions are split into several methods, one per
part of the body. Where the C code asserts, the model has a proof obligation. Page tables are words of `Cpu.mem`, and
every access to them goes through `Cpu.Load` and `Cpu.Store`, which translate the address they are given and may use a
cached translation; so a window that was not invalidated, or a table reached through the wrong page, fails to verify.
The same memory holds the pages that programs use. Paging operations never change what those pages contain. The heap
keeps its headers and bit vectors there too: they are stored word by word through the same processor, and the theorems
say that these stores reach no byte of a live allocation.
Page-table reads and writes before paging is switched on go through the same two methods, with addresses equal to
physical ones; `get_virt_ptr` and `allocate_page_table`, which test for this, become two methods each.

Some predicates (`Kheap.Valid`, `Mmu.Valid`, `KheapBlock.Is`, `Sound`, `Success` and a few more) wrap their definition
in a quantifier, `forall key :: Open(key) && key == K ==> ...`. `Open` is always true, so this changes nothing except
that a proof has to mention `Open(K)` before the definition is unfolded.

## What turned out not to hold

Each of these is modelled as written, with the exact condition under which the code does what it is for.

- `asa_free` loops from `start` up to `n_pages` instead of `start + n_pages`: it releases its range exactly when the
  range starts at page 0 (`FreeReleasesRangeIff`). In general it releases the part of the range below page number
  `n_pages`, and nothing exactly when `start >= n_pages` (`FreeReleasesBelow`); it never reaches another reservation,
  which is why reservations stay disjoint. So most released pages are lost, while some of a range that is longer than its
  start are handed out again (`FreedPagesComeBack`). `Lost` is the number of pages a refused expansion loses.
- `kheap_add_block` divides by `section_size * 32` in 32 bits, so it divides by zero exactly for multiples of 2^27
  (`DividesIff`). Other products that wrap only make the bit vectors longer than needed (`BitsetCovers`).
- `kheap_malloc` looks at the sections before the cursor only when no section from the cursor on is free
  (`NextFitSucceedsIff`). `RunBeforeCursorIsMissed` is a run of six calls after which a fitting run is missed.
- The sizing loop of `kheap_expand` computes in 32 bits: it ends if and only if the request is at most 0xFC000FD8 bytes
  (`SizingEndsIff`). No block can serve a larger one, so that is also when `kheap_malloc` returns (`MallocReturnsIff`).
- `kheap_expand` allows for the bit vectors of one page less than it asks for, and always for 16-byte sections: a fresh
  block can be too small for the request it was made for (`SizingShortfall`, `ShortfallWitness`; `FitsFreshIff` is the
  exact condition, for every section size that can be used). `kheap_malloc` then expands again until address space or
  frames run out: such a request is never served by a new block (`NeverFitsNeverServed`), and one of 0 bytes is never
  served at all (`EmptyRequestNeverServed`).
- `size += align` can wrap, and then a run that is too short is handed out: a run served has room for size and alignment
  if and only if the sum does not wrap (`PaddingCoversIff`, `Served`). `WrappedRequestIsServed` is such a request, and
  the address returned for it lies behind the run (`WrappedAddressIsOutside`).
- When the section size does not divide the block size, the last section of a block reaches past its end. Allocations
  stay inside their block if and only if it does divide, or the block has no section to give away
  (`AllocationsStayInsideIff`). `RegionsOverlap` allocates, in a page of 24-byte sections, bytes of the next block's header.
- Alignment equal to the section size is left to the sections: their addresses are aligned if and only if the block's
  start is (`SectionAlignedIff`), so for all section sizes that divide the page size.
- The guard of the early allocator can wrap too: a region it accepts lies in the early heap exactly when it does not
  (`FitsIffNoOverflow`, `OverflowWitness`).
- `i386_allocate_page` over a present page loses the old frame and leaves a stale translation possible; every invariant
  holds afterwards exactly when the page was absent (`AllocatePage`, `OverwritingLeaks`), and only then no translation
  can be stale (`NoInvlpgNeededIff`).
- `i386_free_page` of an absent page whose table exists clears frame 0, the allocator's out-of-memory result; every
  invariant holds afterwards exactly when the page was present or had no table (`FreePage`).
- `i386_paging_init` asserts `highest_page + PAGE_SIZE <= KVIRT_RESERVED`. The window page is protected from
  `asa_alloc` exactly when the inequality is strict; with equality the first reservation starts at the window
  (`WindowIsProtectedIff`).
- `i386_identity_map_page` returns the code `K_OOM`, which is 2, as if it were an entry, and `i386_paging_init` does
  not look at it: paging is in order afterwards exactly when the early heap had room for the table (`PagingInit`).
- Freeing an aligned allocation leaks the sections in front of the address that was returned (`ReleaseUndoesAllocate`).
- `__kheap_kalloc_malloc_real` reports the physical address of the page, not of the allocation (`KallocMallocReal`).

The comment in `kernel/include/mm/heap.h:41-44` says that a delimiter marks the first or last section of an allocation;
the code marks only the last, and so does the model. The comment on `MIN_BLOCK_SIZE_DEFAULT` gives 0x10000; the
constant is 0x100000.

## Model

| member | source | states |
|---|---|---|
| Words.RoundedUp | kernel/include/kernel/kernel.h:39 | `DIV_ROUND_UP(a, b)` is the least `r` with `r * b >= a`, except that 0 counts as 2^32 |
| Words.AndHigh32 | kernel/arch/i386/paging.c:216 | masking a word with 0xFFFFF000 clears exactly its low 12 bits |
| Bitsets.SetTouchesOneBit | kernel/include/kernel/bitset.h:36 | or-ing the shifted mask into a word sets bit `n` of the vector and no other |
| Bitsets.ClearTouchesOneBit | kernel/include/kernel/bitset.h:59 | and-ing the complement mask clears bit `n` and no other |
| Bitsets.FullWordFills | kernel/mm/heap.c:275 | storing 0xFFFFFFFF in a word sets its 32 bits and no other |
| Bitsets.Bitset.Init | kernel/include/kernel/bitset.h:22-26 | all bits clear, words behind the vector untouched |
| Bitsets.Bitset.SetBit | kernel/include/kernel/bitset.h:33-37 | the abstract sequence changes at `n` only |
| Bitsets.Bitset.GetBit | kernel/include/kernel/bitset.h:45-49 | reads entry `n` of the abstract sequence |
| Bitsets.Bitset.ClearBit | kernel/include/kernel/bitset.h:56-60 | the abstract sequence changes at `n` only |
| Bitsets.Bitset.SetRange | kernel/mm/heap.c:272-281 | the loop that mixes word stores and single bits sets exactly the bits of the range |
| Bitsets.Bitset.ClearRange | kernel/mm/heap.c:368-370 | clears exactly the bits of the range |
| AddressSpace.Asa.Init | kernel/mm/asa.c:22-41 | exactly the pages below KVIRT_RESERVED are marked |
| AddressSpace.Asa.Alloc | kernel/mm/asa.c:46-72 | takes the lowest run of `n` clear pages, or changes nothing and returns NULL |
| AddressSpace.FirstFitIsCorrectAndComplete | kernel/mm/asa.c:46-72 | NULL if and only if `n` is 0 or no run exists; otherwise the run is the lowest, it was free, and exactly its pages change |
| AddressSpace.Asa.Free | kernel/mm/asa.c:74-83 | clears what the loop as written clears |
| AddressSpace.FreeReleasesRangeIff | kernel/mm/asa.c:79-81 | a marked range is released if and only if it starts at page 0 or is empty |
| AddressSpace.FreeReleasesBelow | kernel/mm/asa.c:74-83 | of a marked range exactly the part below page number `n` is released: how many pages that is, nothing if and only if the range starts at `n` or above, never a page of another range |
| AddressSpace.FreedPagesComeBack | kernel/mm/asa.c:46-83 | after `asa_init`, 1000 pages are reserved at 380 and released: the next request for 620 pages gets page 380 again |
| AddressSpace.FreeLeaksOnePage | kernel/mm/asa.c:79-81 | releasing one page above the reserved area changes nothing |
| AddressSpace.StepKeepsInv | kernel/mm/asa.c:46-83 | every call keeps outstanding reservations marked, disjoint and above the reserved pages |
| AddressSpace.NoPageOwnedTwice | kernel/mm/asa.c:46-83 | over every run of calls no page belongs to two outstanding reservations |
| FrameAllocator.Frames.GetNextFreeFrame | kernel/arch/i386/mem.c:125-148 | the word-skipping search returns the least free frame, which lies below 32 * (frames / 32), or 0 when all frames below that are taken (or frame 0 itself is free) |
| FrameAllocator.Frames.AllocateFrame | kernel/arch/i386/mem.c:105-111 | marks exactly the frame it returns; nothing when it returns 0 |
| FrameAllocator.Frames.FreeFrame | kernel/arch/i386/mem.c:117-119 | clears exactly that frame |
| FrameAllocator.ZeroMeansExhausted | kernel/arch/i386/mem.c:105-148 | with frame 0 marked, 0 is returned if and only if every frame below 32 * (frames / 32) is taken |
| FrameAllocator.AvailableIsCount | kernel/arch/i386/mem.c:125-148 | the number of frames that can still be had is that of the clear bits below 32 * (frames / 32) |
| EarlyPlacement.EarlyHeap.Kmalloc | kernel/arch/i386/mem.c:319-355 | when it refuses, where the region starts and where the pointer ends up, in 32-bit arithmetic |
| EarlyPlacement.AcceptedRegion | kernel/arch/i386/mem.c:329-354 | an accepted region starts at the next multiple of 4096 or 8 and ends inside the heap thanks to the page of slack |
| EarlyPlacement.AcceptedIff | kernel/arch/i386/mem.c:320-333 | where nothing wraps, a request is accepted if and only if it is critical and leaves a page of slack behind it; a refused one moves nothing |
| EarlyPlacement.FitsIffNoOverflow | kernel/arch/i386/mem.c:329-333 | an accepted region lies in the heap if and only if the guard did not wrap |
| EarlyPlacement.OverflowWitness | kernel/arch/i386/mem.c:329-333 | a request near 2^32 bytes passes the guard |
| EarlyPlacement.RegionsNeverOverlap | kernel/arch/i386/mem.c:319-355 | over every sequence of requests regions are increasing, disjoint and inside the heap |
| PageTables.EntryMasks | kernel/arch/i386/paging.c:204-216 | the present test and the mask that drops the flags, in terms of an entry's frame and low bit |
| PageTables.StorePte | kernel/arch/i386/paging.c:260-261 | storing one entry changes the translation of exactly one page |
| PageTables.StoreElsewhere | kernel/arch/i386/paging.c:185 | writing to a frame that is neither directory nor table changes no translation |
| PageTables.InstallTable | kernel/arch/i386/paging.c:252-253 | entering an empty table into the directory changes no translation |
| Ownership.AccountMap | kernel/arch/i386/paging.c:236-261 | mapping an absent page to a free frame keeps frame accounting exact |
| Ownership.AccountTable | kernel/arch/i386/paging.c:244-254 | so does a new table in a free frame |
| Ownership.AccountUnmap | kernel/arch/i386/paging.c:287-291 | and so does unmapping a page and clearing its frame |
| Ownership.OwnersAreMarked | kernel/arch/i386/paging.c:168-337 | frame 0 is marked; frames of pages and tables are marked, were free at boot and lie above the identity map |
| Ownership.WindowMoves | kernel/arch/i386/paging.c:147-160 | re-targeting the window changes the translation of the window page only |
| Ownership.OverwritingLeaks | kernel/arch/i386/paging.c:260-261 | mapping over a present page leaves its frame marked and without an owner |
| Ownership.FreeFramesAreUnused | kernel/arch/i386/paging.c:171-185 | a free frame holds no paging structure, so filling it as a table is safe |
| Ownership.KeptIsDataKept | kernel/arch/i386/paging.c:140-297 | writing only to paging structures and to free frames leaves the contents of every page that stays mapped as they were |
| Ownership.StoreIsLocal | kernel/arch/i386/paging.c:140-297 | a store to a mapped page changes one word of that page, no other page, no translation and no invariant |
| Ownership.IdentityIsValid | kernel/arch/i386/paging.c:84-97 | the identity map of the reserved area satisfies every invariant |
| Processor.Cpu.Load | kernel/arch/i386/paging.c:203-210 | with coherent cached translations a load reads the frame that the tables say |
| Processor.Cpu.Store | kernel/arch/i386/paging.c:253-261 | a store changes one word of that frame; cached translations still agree with the tables before it |
| Processor.Cpu.Invlpg | kernel/arch/i386/paging.c:158 | after invalidating the one stale page all cached translations agree with the tables |
| Processor.NoInvlpgNeededIff | kernel/arch/i386/paging.c:260-261 | when one page's translation changes, no cached translation can be stale if and only if the page was absent: mapping an absent page needs no `invlpg`, mapping over a present one does |
| Memory.StoreWord | kernel/arch/i386/paging.c:140-297 | a store to a mapped word changes that word only: every other byte keeps its physical address and its word, and every invariant of paging holds |
| Paging.Mmu.GetVirtPtr | kernel/arch/i386/paging.c:140-161 | the window shows the requested frame, no other translation changed, the look-aside buffer is coherent |
| Paging.Mmu.AllocatePageTable | kernel/arch/i386/paging.c:168-190 | a free frame becomes an empty table; with no frame left nothing changes |
| Paging.Mmu.EarlyPageTable | kernel/arch/i386/paging.c:178-189 | before paging: the table comes from the early heap, or nothing changes |
| Paging.Mmu.MmuDataInit | kernel/arch/i386/paging.c:58-70 | the directory is a page of the early heap with no present entry, or K_OOM without room |
| Paging.Mmu.IdentityMapPage | kernel/arch/i386/paging.c:306-337 | before paging: exactly this page is mapped to the frame of its number, which is marked, with these flags, and a new table is entered with its own; without room for a table nothing changes and 2 is returned |
| Paging.Mmu.MapReserved | kernel/arch/i386/paging.c:84-90 | the loop maps exactly the reserved area, page and table writable, and marks exactly its frames, or nothing |
| Paging.Mmu.PagingInit | kernel/arch/i386/paging.c:73-126 | panics if and only if there is no room for the directory; otherwise every invariant holds if and only if there was room for the table too |
| Paging.Mmu.AllocatePage | kernel/arch/i386/paging.c:227-266 | the flat map changes at exactly the requested page, to the lowest free frame, and a missing table gets the next one; succeeds if and only if enough frames are free; on K_OOM map, tables and frame bits are unchanged; pages that stay mapped keep their contents; all invariants hold if and only if the page was absent or K_OOM was returned, and then the look-aside buffer is coherent |
| Paging.Mmu.FreePage | kernel/arch/i386/paging.c:273-297 | the flat map loses exactly this page and its frame is free; K_INVALOP if and only if there is no table; pages that stay mapped keep their contents; invariants hold if and only if the page was present or had no table |
| Paging.Mmu.PageGetPhys | kernel/arch/i386/paging.c:197-217 | returns what the flat map holds, 0 when absent, for every page, and changes nothing but the window; the contents of mapped pages stay |
| Paging.Mmu.KpageAllocate | kernel/arch/i386/paging.c:342-344 | the same as a step of the running system |
| Paging.Mmu.KpageFree | kernel/arch/i386/paging.c:346-348 | the same as a step of the running system |
| Paging.Mmu.WriteWords | kernel/mm/heap.c:150-174 | stores through the processor put consecutive words at a mapped address and change no other byte and no translation |
| HeapModel.NextFitSucceedsIff | kernel/mm/heap.c:252-305 | the circular scan succeeds if and only if there is a run from the cursor on, or none of those sections is free and there is a run before the cursor; it takes the lowest of that part |
| HeapExamples.RunBeforeCursorIsMissed | kernel/mm/heap.c:257-264 | a new block, three allocations at the runs that the search finds and two frees, after which two adjacent free sections before the cursor are not found |
| HeapModel.SearchStep | kernel/mm/heap.c:257-304 | what one iteration does to `first_free` and `continuous_pages`, and what follows for the search |
| HeapModel.AllocateKeepsInv | kernel/mm/heap.c:269-300 | an allocation keeps exact ownership of sections and delimiters |
| HeapModel.ReleaseKeepsInv | kernel/mm/heap.c:342-378 | a release keeps it too, whatever was leaked before |
| HeapModel.ScanFindsTheEnd | kernel/mm/heap.c:344-365 | the forward scan over the delimiters stops at the true end of the allocation |
| HeapModel.AllocateCount | kernel/mm/heap.c:292-293 | an allocation takes exactly `n_sec` sections from the free count |
| HeapModel.ReleaseCount | kernel/mm/heap.c:376-377 | a release adds exactly the sections from the address to the end |
| HeapModel.NextIsBehind | kernel/mm/heap.c:255-296 | the search after an allocation takes what is free right behind it |
| HeapModel.NextIsAtFront | kernel/mm/heap.c:255-296 | after an allocation at the end of the block the next search starts at the front |
| HeapModel.FreedIsNext | kernel/mm/heap.c:255-257 | the sections that a free has released, from the address on, are the first to be taken again |
| HeapModel.ReleaseUndoesAllocate | kernel/mm/heap.c:269-378 | free after malloc restores both bit vectors, except for the sections in front of an aligned address, which are leaked |
| HeapModel.RegionIsUsable | kernel/mm/heap.c:218-299 | the address is aligned, the requested bytes lie in the marked sections, and a free leaks pad / section_size sections with pad < align |
| HeapModel.SectionAlignedIff | kernel/mm/heap.c:220 | section addresses are multiples of the section size if and only if the block's start is |
| HeapModel.PaddingCoversIff | kernel/mm/heap.c:221 | the padded size covers the request if and only if the sum does not wrap; when it wraps it is below the request itself |
| HeapExamples.WrappedRequestIsServed | kernel/mm/heap.c:218-305 | 0xFFFFF800 bytes aligned to a page are found in the first block of the default heap, in a run 2^32 bytes too short |
| HeapExamples.WrappedAddressIsOutside | kernel/mm/heap.c:287-299 | the address returned for it lies behind the sections marked for it |
| HeapModel.NoWrapInGuard | kernel/mm/heap.c:243-244 | the guard's space estimate does not wrap: it is the size less 40 and less 8 bytes for every 32 sections, at least what the metadata leave |
| HeapModel.GuardIsSound | kernel/mm/heap.c:243-250 | in blocks of whole sections the guard never skips a block that holds a fitting run |
| HeapModel.LastSectionInsideIff | kernel/mm/heap.c:140 | a block's sections end inside it if and only if the section size divides its size |
| HeapModel.AllocationsStayInsideIff | kernel/mm/heap.c:140-300 | all possible allocations lie inside the block if and only if the section size divides its size or it has no section to give away |
| HeapExamples.RegionsOverlap | kernel/mm/heap.c:140-300 | a page of 24-byte sections gives out bytes that belong to whatever block lies behind it: ownership holds, regions overlap |
| HeapModel.DividesIff | kernel/mm/heap.c:137-138 | the divisor `section_size * 32` is 0 in 32 bits if and only if the section size is a multiple of 2^27, and otherwise at least 32 |
| HeapModel.BitsetCovers | kernel/mm/heap.c:137-140 | each bit vector has a bit for every section, also when the divisor has wrapped |
| HeapRuns.NewBlockInv | kernel/mm/heap.c:137-174 | a new block satisfies ownership, and its free count is what the code computes |
| HeapRuns.StepKeepsHeapInv | kernel/mm/heap.c:129-384 | add, malloc and free keep ownership in every block and keep blocks apart |
| HeapRuns.EveryRunIsSafe | kernel/mm/heap.c:129-384 | in every state of every run ownership is exact; live allocations overlap neither each other nor any header or bit vector |
| HeapRuns.FreeIsExactInEveryRun | kernel/mm/heap.c:342-378 | in every run a free clears exactly the sections from the address to the end and that one delimiter |
| HeapRuns.LiveAddress | kernel/mm/heap.c:340-342 | the address of an allocation lies behind its block's metadata, and before the end of a block of whole sections, so kheap_free finds the block |
| HeapRuns.OnlyOneLive | kernel/mm/heap.c:340-342 | an address inside a block is that of one live allocation of the whole heap at most |
| Sizing.SizingEndsIff | kernel/mm/heap.c:83-98 | the sizing loop ends if and only if the request is at most 0xFC000FD8 bytes |
| Sizing.SizedMeans | kernel/mm/heap.c:83-98 | the page count it ends with, in closed form: the first guess, or the least larger count whose space, with the bit vectors of one page less, covers the request |
| Sizing.FreshBlockCapacity | kernel/mm/heap.c:137-172 | a fresh block of p pages of 16-byte sections has exactly 252p - 3 free sections |
| Sizing.SizingShortfall | kernel/mm/heap.c:83-99 | with 16-byte sections the block is short by at most 8 bytes if the loop body never ran and by at most 72 otherwise |
| Sizing.ShortfallWitness | kernel/mm/heap.c:90-98 | a request of 1209624 bytes gets 300 pages, which hold 72 bytes less: the bound is reached |
| Sizing.DefaultBlockFits | kernel/mm/heap.c:83-99 | with the default minimum every request of up to 0x100000 bytes fits the new block |
| Sizing.FitsFreshIff | kernel/mm/heap.c:243-305 | for every section size that can be used, a request is served from a fresh block, at its first free section, if and only if it is not 0, its sections are free there and the guard sees them; otherwise the block is not searched |
| Sizing.FitsDefaultIff | kernel/mm/heap.c:243-305 | with 16-byte sections that is: 0 < size <= 4032p - 48 |
| Sizing.PagesHoldMetadata | kernel/mm/heap.c:148 | the assertion in kheap_add_block holds for every block that kheap_expand adds |
| Sizing.DefaultHeapFits | kernel/mm/heap.c:318 | in the default heap every fresh block has room for the request of up to 0x100000 bytes it was made for |
| HeapSearches.DemandMeans | kernel/mm/heap.c:218-232 | the size looked for is size + align, in 32 bits, when align is neither 0 nor the section size, and otherwise size; an expansion is asked for the larger of that and the minimum |
| HeapSearches.RefusedMeans | kernel/mm/heap.c:82-122 | an expansion is refused if and only if no run of the pages it asks for exists or their frames and missing tables are not free |
| HeapSearches.PassedByIff | kernel/mm/heap.c:240-324 | in blocks of whole sections a block is passed by if and only if the scan of its sections finds nothing |
| HeapSearches.ReachedMeans | kernel/mm/heap.c:230-324 | the list only grows at the front, by blocks sized for the request |
| HeapSearches.ReachedAfterAll | kernel/mm/heap.c:230-324 | and a block is added only after every block listed had been passed by |
| HeapSearches.AtMostOneExpansion | kernel/mm/heap.c:230-324 | a request that fresh blocks have room for expands the heap at most once, and not at all when it fails |
| HeapSearches.SuccessMeans | kernel/mm/heap.c:209-328 | success serves the request from the first block that has a run the scan accepts, at that run, with the least number of sections that holds size and alignment; the caller gets the first aligned address of the run, and the allocation is live under it; the heap was expanded only if all its blocks had been passed by; the address is aligned for both kinds of alignment when the section size divides the page and the padding did not wrap |
| HeapSearches.FailureMeans | kernel/mm/heap.c:209-328 | failure means that every block was passed by and that an expansion was refused; a request that fresh blocks have room for fails only if the first expansion is refused, and changes no block |
| HeapSearches.NeverFitsNeverServed | kernel/mm/heap.c:240-324 | a request that no fresh block has room for, such as one of 0 bytes, is not served unless a block listed at the call has a run for it |
| HeapSearches.EmptyRequestNeverServed | kernel/mm/heap.c:247-322 | a request of 0 bytes without padding, or one padded to 2^32, is never served, whatever the heap holds |
| HeapSearches.ReturnsIff | kernel/mm/heap.c:90-322 | a listed block serves the request or the sizing loop ends for it, if and only if it is at most 0xFC000FD8 bytes after padding in 32 bits |
| HeapSearches.ServePlaced | kernel/mm/heap.c:218-299 | in a run of the padded size: the bytes asked for, aligned, inside the run if and only if the padding did not wrap |
| HeapSearches.ResultIsMapped | kernel/mm/heap.c:198-202 | the address returned is mapped |
| HeapAccounts.ReachedAccounts | kernel/mm/heap.c:230-324 | however often the heap is expanded, reservations and mapped pages grow by exactly the pages of the new blocks, and every frame taken holds one of those pages or a new page table |
| HeapAccounts.RolledBackAccounts | kernel/mm/heap.c:114-120 | a refused expansion leaves no page mapped, takes frames only for page tables of its run, and loses the smaller of its start and its length in pages of address space |
| HeapAccounts.CallAccounts | kernel/mm/heap.c:209-328 | the same for a whole call, from the state before it to the state after it, successful or not |
| HeapImages.SectionInMemory | kernel/mm/heap.c:143-170 | from the words at a block's start every section's used bit and delimiter bit can be read, at word 10 and behind the used bits, bit `i % 32` of word `i / 32` |
| HeapMemory.ImagedUpdate | kernel/mm/heap.c:272-296 | writing the header and bit vectors of one block leaves those of all others in memory as they were |
| HeapMemory.LiveBytesAreKept | kernel/mm/heap.c:143-377 | when only bytes outside the blocks' metadata are kept, every byte of every live allocation is: it keeps its physical address and its word |
| HeapMemory.LiveThroughMalloc | kernel/mm/heap.c:209-328 | so a call of kheap_malloc, successful or not, keeps the bytes of all allocations that were live |
| HeapMemory.LiveThroughFree | kernel/mm/heap.c:337-384 | and a call of kheap_free keeps those of all that are live afterwards |
| HeapMemory.ImagedThroughStore | kernel/mm/heap.c:143-162 | a store to a word of a live allocation touches no header and no bit vector |
| HeapBlocks.KheapBlock.Words | kernel/include/mm/heap.h:22-46 | header and bit vectors as words: link, sizes, cursor, free count and address, length and address of each vector, then the used bits, then the delimiters |
| HeapBlocks.KheapBlock.MakeBitsets | kernel/mm/heap.c:137-172 | the bit vectors of a new block with exactly the metadata sections marked |
| HeapBlocks.KheapBlock.constructor | kernel/mm/heap.c:129-182 | the new block's fields are those of the specified value |
| HeapBlocks.KheapBlock.Search | kernel/mm/heap.c:252-305 | the loop computes the next-fit search |
| HeapBlocks.KheapBlock.Find | kernel/mm/heap.c:243-305 | guard and search: found if and only if the block is not skipped and the scan accepts a run |
| HeapBlocks.KheapBlock.Take | kernel/mm/heap.c:269-296 | sections, delimiter, free count and cursor after an allocation |
| HeapBlocks.KheapBlock.FindDelimiter | kernel/mm/heap.c:354-361 | the first delimiter from a section on, or 0 |
| HeapBlocks.KheapBlock.Give | kernel/mm/heap.c:343-376 | sections, delimiter, free count and cursor after a free; both assertions hold |
| KernelPages.FreeRunIsUntouched | kernel/mm/heap.c:102-122 | a run the address space allocator can hand out is unmapped and no block lies on it |
| KernelPages.RollbackKeepsInv | kernel/mm/heap.c:114-120 | releasing and unmapping a failed range keeps every other reservation and mapping in order |
| KernelPages.MappedRunKeepsInv | kernel/mm/heap.c:102-125 | so does mapping a reserved run, which can then hold a block |
| KernelPages.OnlyNewTaken | kernel/mm/heap.c:111-120 | when pages and tables have only been added, the frames taken were free and are exactly those of the new pages and tables; so after a failed expansion those of new tables |
| KernelPages.NeededNext | kernel/mm/heap.c:111-113 | one more page needs one more frame, or two when no page before it brought its table |
| KernelPages.ProgressStep | kernel/mm/heap.c:111-113 | each page mapped takes one frame, or two when its table was missing |
| KernelPages.ProgressDecides | kernel/mm/heap.c:111-121 | the loop has taken exactly the frames that the pages so far and their tables need, and stops if and only if one page more needs too many |
| KernelPages.LiveBytesAreMapped | kernel/mm/heap.c:101-125 | every byte of every live allocation is mapped |
| KernelPages.LiveBytesHaveTheirOwnMemory | kernel/mm/heap.c:81-384 | different bytes of live allocations have different physical addresses, in frames that hold no paging structure and nothing reserved at boot |
| KernelHeap.Kheap.constructor | kernel/mm/heap.c:38-46 | an empty heap on a sound system is sound |
| KernelHeap.Kheap.CountPages | kernel/mm/heap.c:82-98 | for every request for which the sizing loop can end it does, with the page count specified |
| KernelHeap.Kheap.MapRange | kernel/mm/heap.c:111-113 | maps exactly the longest prefix of the range that there are frames for, writable, and adds exactly its tables; memory mapped before keeps its frames and contents |
| KernelHeap.Kheap.UnmapRange | kernel/mm/heap.c:116-118 | puts the flat map back; page tables created meanwhile stay |
| KernelHeap.Kheap.Expand | kernel/mm/heap.c:81-127 | succeeds if and only if a run of pages and enough frames exist; then exactly one fresh block is added, its run is reserved and mapped writable, and frames are taken for its pages and missing tables only; otherwise block list, counters and flat map are unchanged, frames are taken exactly for the tables of as many pages as there were frames for, and reservations are what asa_free leaves of the run, or untouched when there was none; either way memory mapped before keeps its frames and contents |
| KernelHeap.Kheap.AddBlock | kernel/mm/heap.c:129-182 | the new block is in front, totals are updated, ownership holds |
| KernelHeap.Kheap.WriteBack | kernel/mm/heap.c:150-174 | the memory at a block's start holds its header, field by field, the link to the next block, the used bits and the delimiters, and no byte behind them has changed |
| KernelHeap.Kheap.Malloc | kernel/mm/heap.c:209-328 | terminates and keeps every invariant; its result is the success or failure that `SuccessMeans` and `FailureMeans` spell out; reservations, page tables, mapped pages and frame bits on return are those that its expansions left, after a failure with the roll-back of the last; memory changes only in headers and bit vectors, so every live allocation keeps its physical addresses and its bytes |
| KernelHeap.Kheap.MallocReturnsIff | kernel/mm/heap.c:90-322 | the calls that `Malloc` covers are exactly those that return |
| KernelHeap.Kheap.ClientStore | kernel/mm/heap.c:296-300 | a program that writes a word of its own allocation keeps every invariant of the running system, and changes nothing else |
| KernelHeap.Kheap.Free | kernel/mm/heap.c:337-384 | frees the live allocation with that address, and no other; false if and only if the address lies in no block, strictly between its first byte and its end |
| KernelHeap.Kheap.FindBlock | kernel/mm/heap.c:340-381 | the first block with start < address < start + size, or none |
| KernelHeap.Kheap.KallocFree | kernel/mm/heap.c:205-207 | when the section size divides the page, the address of any live allocation is found and exactly that allocation is freed; every invariant of the whole system and all mappings are kept, and memory changes only in headers and bit vectors: every allocation still live keeps its physical addresses and its bytes |
| KernelHeap.Kheap.KallocMallocReal | kernel/mm/heap.c:187-203 | panics exactly when kheap_malloc fails, and leaves what that leaves; unless the padding wrapped, the address returned is mapped, and the physical address reported plus the offset in the page is its translation |
| KernelHeap.Kheap.LiveMemory | kernel/mm/heap.c:81-384 | in every state of the running system live allocations are disjoint and each byte has physical memory of its own |
| Boot.KernelEarly | kernel/kernel/kernel.c:58-68 | bringing up the three layers in this order establishes every invariant, over an empty heap of 16-byte sections and a minimum block of 0x100000 bytes |
| Boot.FirstRequestSucceedsIff | kernel/mm/heap.c:209-328 | the first request after that, of up to 0x100000 bytes with alignment, succeeds if and only if 261 frames can be found, and is served from section 1047 of a block of 261 pages at KVIRT_RESERVED |
| Boot.WindowIsProtectedIff | kernel/arch/i386/paging.c:115-117 | the window page is protected from reservation if and only if the asserted inequality is strict; otherwise the first reservation takes it |

## Left out

- KernelHeap.Kheap.Malloc: requests above 0xFC000FD8 bytes after padding are excluded: a call for them never returns
  (`MallocReturnsIff`). Requests of 0 bytes and requests whose padding wraps are included.
- KernelHeap.Kheap.constructor: section sizes below 4 or divisible by 2^27, and minimum block sizes above 0xFC000FD8, are
  excluded: `kheap_init` accepts them, but the first expansion then fails an assertion, divides by zero or never returns.
- KernelHeap.Kheap.Free: the address is the one that a live allocation returned, or lies in no block, as kheap_free
  itself takes for granted. A request whose padding wrapped is recorded at the start of its run, so the address that was
  returned for it is not covered when it lies elsewhere in the block.
- KernelHeap.Kheap.KallocFree: as `Free`.
- KernelPages.LiveBytesAreMapped: for blocks of whole sections only, like `LiveMemory`.
- KernelPages.LiveBytesHaveTheirOwnMemory: the same.
- HeapRuns.EveryRunIsSafe: ownership for all section sizes, disjoint regions for blocks of whole sections only.
- KernelHeap.Kheap.LiveMemory: assumes that the section size divides the page size, as the default of 16 does; that this
  cannot be dropped is `AllocationsStayInsideIff` and `RegionsOverlap`. The same holds for the clauses about live
  allocations in `Malloc` and `KallocFree`; that only metadata are written is stated for all section sizes.
- Paging.Mmu.AllocatePage: `pt_flags` and `pd_flags` contain the present bit, as in every call of the kernel; pages below
  KVIRT_RESERVED and the window page are not remapped.
- Paging.Mmu.FreePage: pages below KVIRT_RESERVED and the window page are not freed; nothing in the kernel does so.
- Paging.Mmu.KpageAllocate: as `AllocatePage`.
- Paging.Mmu.KpageFree: as `FreePage`.
- Boot.KernelEarly: the early heap has room for the reservation bit vector, the directory and the first table; what
  happens without room for the directory or the table is stated by `PagingInit`.
- Paging.Mmu.IdentityMapPage: only before paging is switched on; nothing in the kernel calls it later.
- AddressSpace.Asa.Init: `page_size` is the kernel's only value, PAGE_SIZE, and storage has been obtained; the K_OOM path
  is a failed request to the early heap.
- AddressSpace.Asa.Free: the range may not reach past the bit vector, which the bit operations assert.
- HeapBlocks.KheapBlock.constructor: the object is a copy of the header and bit vectors in memory. The code stores each
  word when it changes; the model stores all of a block's metadata when the operation on it is done, and reads the copy.
- The bit vectors of the address space allocator and of the frame allocator, which lie in the early heap below
  KVIRT_RESERVED, are objects of their own rather than words of `Cpu.mem`.
- Caches of page-directory entries and other paging-structure caches, access rights, accessed and dirty bits.
- Detection of memory and of the kernel's extent (`i386_mem_init`, multiboot and ELF tables): frame bits and the bounds
  of the early heap are parameters of `KernelEarly`.
- `heap->effective_size`, which is never read, `heap->flags`, `KHEAP_DEBUG` checks and debug output.
- `kernel/mm/alloc.c` and `kernel/mm/paging.c`, which only dispatch; the page fault handler; `i386_mem_kfree`, which does
  nothing.
- Interrupts and concurrency: the code takes no locks and is modelled as sequential.
- Drivers, terminal, interrupt tables, the C library and the unbuilt `ordered_array.c`.
