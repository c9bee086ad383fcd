# BaMFos: a Dafny model of the i686 memory subsystem, the terminal and printf

BaMFos is a small operating system in C. This project models, and proves properties of, the part of it
that keeps state: physical frames and page tables, the boot allocator, the kernel heap, the VGA text
terminal, and the libc formatter that prints through it. `dafny verify dfyconfig.toml` checks everything.

## How it is laid out

| files | what they hold |
|---|---|
| `LittleEndian.dfy` | bytes and little-endian fields, the raw memory under the heap |
| `HeapBlocks.dfy`, `HeapRuns.dfy`, `HeapTraces.dfy` | the heap as a sequence of blocks; all runs of calls; all runs with their memory |
| `Heap.dfy` | `KernelHeap`: khalloc and khfree on bytes, proved to perform the block operations |
| `HeapAsWritten.dfy` | where alloc.c departs from its intent, and exactly when that does harm |
| `FrameBits.dfy`, `PageTables.dfy`, `FrameOwnership.dfy` | the bitmap as a set of frames; entries, tables and translation; who owns which frame |
| `BootMap.dfy`, `SharedBitmap.dfy`, `Paging.dfy` | what the boot loops keep and where they end; what happens where bitmap and directory share memory; `BootMemory`: the code of paging.c and mem.c |
| `Kernel.dfy` | boot, kmalloc and kfree across all layers |
| `Transcript.dfy`, `Terminal.dfy` | what a text means on an unbounded page; `Screen`: the 80x25 buffer |
| `Digits.dfy`, `Printf.dfy`, `Memmove.dfy`, `Console.dfy` | numerals, printf, memmove, and printf arriving on the screen |

A block operation, a page table operation or a terminal step is a function on values; the method that
models the C code is proved to perform that function on its object; and what the code is for is proved of
the functions, over all inputs and all runs. Addresses are numbers, 0 is NULL, PANIC is a failure result.

The heap is modelled for pointers of `w` bytes: headers have 5 + w bytes and footers 4 + w (packed structs),
so 9 and 8 on i686, 13 and 12 on x86_64, whose alloc.c is the same code.

## Main results

- **Heap.** In every reachable state the blocks tile the region, footers repeat headers, no link is set, the
  first block is free, and no two neighbours are free. Two such heaps with the same live blocks are equal
  (`LiveDeterminesHeap`), so freeing everything, in any order, after any run gives the heap create_heap made.
  Over any run of calls and of stores by callers into their own payloads, the bytes of a block stay as they
  are until its owner stores or frees (`PayloadSurvives`).
- **Boot.** For every memory size below 4 GiB and every content of the bitmap's memory, boot ends with every
  address below the heap's end mapped to itself exactly when the bitmap reaches that far, no uncleared bit is
  in the way, and no bit needed lies in the page directory, although most pages merely get the first free
  frame (`InitializePaging`, `Boot`). With the bitmap allocated and cleared in full, that it reaches far enough
  is all. With the sizes as written its later words are the directory's, and the model follows the code to
  the page that needs the first of them and, for an image that ends on a word, to the loss of the identity
  there (`LeavingLosesIdentity`). The first loop, whose bound moves while it runs, ends on page
  n + (n - 2) / 1023 where n is the page its bound starts at. The hardware walk agrees with map_to_physical.
- **Frames.** Over every run of alloc_frame, free_frame and get_page from there on, distinct pages own distinct
  frames and the bitmap marks just the owned and the reserved ones (`RunKeepsExclusive`).
- **Terminal.** The buffer is always the last 25 rows of an unbounded transcript whose history never changes.
- **printf.** The scanning loop prints what a character-by-character rendering says, for every format and
  argument list; numerals are in bijection with numbers.

## Where the code departs from its intent

Where following the code would leave nothing to prove, the evident intent is modelled and the code as
written gets its own statement of exactly when it meets the property.

| code | modelled as | what holds as written |
|---|---|---|
| `src/kernel/arch/i686/mem/alloc.c:80` puts a split H bytes too high | `head + size_h - size - H - 2F` | `PayloadAsWrittenIff`, `OverlapIsHeaderSize`, `TinyRequestExtent`, `LowFooterAsWrittenIff` |
| `src/kernel/arch/i686/mem/alloc.c:68` and `:75` leave no room for the rest's own records, and wrap | H + F bytes stay in the first block, sums do not wrap | `FitsAsWrittenIff`, `RestHasRecordsIff`; inputs: `TightFitLeavesNoRecords`, `HugeRequestFits` |
| `src/kernel/arch/i686/mem/alloc.c:169` looks for the previous footer at `head - H - F` | `head - F` | `PrevContigAsWrittenRightIff`; input: `PrevContigAsWrittenOverZeros`, `MergedWithItselfDoubles` |
| `src/kernel/arch/i686/mem/paging.c:114` passes a frame number as an address | the address of the frame | `FreeAsWrittenIff`, `FreeAsWrittenReleasesFrameZero` |
| `src/kernel/arch/i686/mem/paging.c:122` and `:127` size and clear the bitmap in bytes | both sizes: `bitmapBytes` is a parameter | `BootsToIdentityIff`, `LeavingLosesIdentity`; inputs: `StaleBitAt640MiB`, `SharedWordAt256MiB` |
| `src/libc/string/strlen.c:6` counts the terminator | both: the parameter `tail` is what is printed after a string | `Strlen`: one more than the length, for every string |

The rest follows the code, also where it surprises: tabs never stop on a tab stop (`TabSpaces`), ESC ESC
swallows the next character, so that a text can be written in two parts exactly when its first part is complete
(`CompleteIff`), a new table changes map_to_physical on its pages (`GetPageKeepsAddressIff`), a freed page stays
present (`FreedPageIsFrameZero`), printi reflects the digits of negative numbers below '0'
(`PrintedParsesIff`), and set_frame's guard wraps at 4 GiB (`FoundFrameIsMarkedIff`).

## Model

| member | source | states |
|---|---|---|
| HeapBlocks.PayloadsDisjoint | src/kernel/arch/i686/mem/alloc.c:80-96 | in any tiling two different blocks share no byte and every block lies inside the heap |
| HeapBlocks.Conservation | src/kernel/arch/i686/mem/alloc.c:29-40 | block sizes always sum to the size create_heap wrote |
| HeapBlocks.AllocateKeeps | src/kernel/arch/i686/mem/alloc.c:80-96 | an allocation keeps tiling, coalescing and the free first block, and adds exactly one new live block |
| HeapBlocks.ReleaseKeeps | src/kernel/arch/i686/mem/alloc.c:111-141 | a free keeps the same invariant, removes exactly the freed block from the live ones and moves no other |
| HeapBlocks.LiveDeterminesHeap | src/kernel/arch/i686/mem/alloc.c:99-142 | two coalesced tilings of one region with the same live blocks are equal: past calls leave no trace |
| HeapBlocks.ReleaseUndoesAllocate | src/kernel/arch/i686/mem/alloc.c:80-141 | freeing what was just allocated restores the heap |
| HeapRuns.StepKeeps | src/kernel/arch/i686/mem/alloc.c:44-142 | one call keeps the invariant: a request that fits adds exactly its own block, any other changes nothing, a free removes exactly its own block, and freeing a free block changes nothing |
| HeapRuns.StaysLive | src/kernel/arch/i686/mem/alloc.c:44-142 | over any run a live block keeps its place and size until its own pointer is freed |
| HeapRuns.HoleStays | src/kernel/arch/i686/mem/alloc.c:44-142 | over any run a free block other than the first stays as it is, and is given to nobody, until a neighbour is freed |
| HeapRuns.FreesRemove | src/kernel/arch/i686/mem/alloc.c:99-142 | distinct live pointers can be freed in any order, which removes just their blocks |
| HeapRuns.FreeOrderIrrelevant | src/kernel/arch/i686/mem/alloc.c:99-142 | two orders of freeing the same pointers leave equal heaps |
| HeapRuns.FreeingAllRestoresCreatedHeap | src/kernel/arch/i686/mem/alloc.c:29-142 | after any legal run, freeing all live pointers in any order gives back the single free block |
| HeapTraces.StoreKeepsGood | src/kernel/arch/i686/mem/alloc.c:96 | a caller that stores only into its payload cannot damage the heap |
| HeapTraces.PayloadSurvives | src/kernel/arch/i686/mem/alloc.c:44-142 | over any run of calls and stores no byte of a block changes until its owner stores into it or frees it |
| Heap.KernelHeap.constructor | src/kernel/arch/i686/mem/alloc.c:23-42 | create_heap writes one free block over the whole region and touches nothing outside it |
| Heap.KernelHeap.NextContigIsNext | src/kernel/arch/i686/mem/alloc.c:150-155 | next_contig_block gives the block behind, NULL for the last |
| Heap.KernelHeap.PrevContigIsPrev | src/kernel/arch/i686/mem/alloc.c:166-172 | prev_contig_block gives the block before, through its footer, NULL for the first |
| Heap.KernelHeap.LastLinked | src/kernel/arch/i686/mem/alloc.c:56-61 | the loop up the next links ends on a block; without links on the first |
| Heap.KernelHeap.LastFree | src/kernel/arch/i686/mem/alloc.c:62-67 | the loop down the contiguous blocks ends on a free block or off the start |
| Heap.KernelHeap.LastFit | src/kernel/arch/i686/mem/alloc.c:68-78 | the loop down the prev links ends on a free block that is large enough or with the panic |
| Heap.KernelHeap.FindFit | src/kernel/arch/i686/mem/alloc.c:53-78 | in reachable heaps the whole search finds the first block when it fits and panics otherwise |
| Heap.KernelHeap.Carve | src/kernel/arch/i686/mem/alloc.c:80-96 | the stores of a split give both halves complete records and touch no byte outside the block |
| Heap.KernelHeap.Khalloc | src/kernel/arch/i686/mem/alloc.c:44-97 | khalloc panics exactly when the first block is smaller than the request with two pairs of records; else it adds one live block, which ends where the first block ended, returns its payload, and changes no byte of a live block |
| Heap.KernelHeap.Absorb | src/kernel/arch/i686/mem/alloc.c:117-125 | the stores of a merge give the joint block complete records and touch no live block |
| Heap.KernelHeap.CoalesceNext | src/kernel/arch/i686/mem/alloc.c:114-126 | the freed block swallows the next one exactly when that is free |
| Heap.KernelHeap.CoalescePrev | src/kernel/arch/i686/mem/alloc.c:128-140 | the previous block swallows the freed one exactly when it is free |
| Heap.KernelHeap.Khfree | src/kernel/arch/i686/mem/alloc.c:99-142 | khfree performs the release of its block: exactly that block leaves the live ones; NULL or a free block changes nothing; no byte of a block that stays live changes |
| HeapAsWritten.HugeRequestFits | src/kernel/arch/i686/mem/alloc.c:68 | sizes within H + F of the top wrap, and every block is taken to fit them |
| HeapAsWritten.TightFitLeavesNoRecords | src/kernel/arch/i686/mem/alloc.c:75 | an accepted request that leaves fewer than H + F bytes leaves a block no memory has records for |
| HeapAsWritten.RestHasRecordsIff | src/kernel/arch/i686/mem/alloc.c:75-94 | there is a memory with records for the rest of a split block exactly when H + F bytes are left |
| HeapAsWritten.FitsIffRestHasRecords | src/kernel/arch/i686/mem/alloc.c:68-77 | the repaired fit test grants a request exactly when the first block covers it and some memory has records for the rest |
| HeapAsWritten.FitsAsWrittenIff | src/kernel/arch/i686/mem/alloc.c:68-76 | the fit test accepts only requests that leave that room exactly when the sum does not wrap and the size is not one of the tight ones |
| HeapAsWritten.PayloadAsWrittenIff | src/kernel/arch/i686/mem/alloc.c:68-96 | as written the payload of every granted request, also one whose sum wraps, ends H - F bytes past its block, modulo the address width: it never keeps off the footer |
| HeapAsWritten.OverlapIsHeaderSize | src/kernel/arch/i686/mem/alloc.c:80-84 | as written the new block's recorded extent passes the old block's end by exactly H bytes, for every accepted request of four bytes or more |
| HeapAsWritten.TinyRequestExtent | src/kernel/arch/i686/mem/alloc.c:80-94 | for one to three bytes the last footer is stored over the new size, which then reads (1 + 256^size) times too large |
| HeapAsWritten.LowFooterAsWrittenIff | src/kernel/arch/i686/mem/alloc.c:88-91 | as written the remaining block has records exactly when H + F bytes are left and stale bytes already spelled its size |
| HeapAsWritten.PrevContigAsWrittenIff | src/kernel/arch/i686/mem/alloc.c:166-172 | in one memory the lookup finds the previous block exactly when the four bytes it reads spell its size |
| HeapAsWritten.PrevContigAsWrittenRightIff | src/kernel/arch/i686/mem/alloc.c:166-172 | whatever the payloads hold it finds the previous block exactly when that block has no more than its records |
| HeapAsWritten.PrevContigAsWrittenOverZeros | src/kernel/arch/i686/mem/alloc.c:166-172 | over zeroed bytes a block is taken for its own predecessor |
| HeapAsWritten.MergedWithItselfDoubles | src/kernel/arch/i686/mem/alloc.c:128-140 | a free then merges the block with itself: every block that has records at its place ends twice as far |
| FrameBits.FullWord | src/kernel/arch/i686/mem/paging.c:55-64 | a word is 0xFFFFFFFF exactly when all 32 bits are set, so any other has a bit to find |
| FrameBits.SetMarks | src/kernel/arch/i686/mem/paging.c:28-31 | or-ing one bit adds exactly that frame to the marked set |
| FrameBits.ClearUnmarks | src/kernel/arch/i686/mem/paging.c:37-40 | and-ing with its complement removes exactly that frame |
| PageTables.LeastFreeIsLeast | src/kernel/arch/i686/mem/paging.c:51-68 | the scan finds the least unmarked frame, and nothing exactly when all are marked |
| PageTables.FoundFrameIsMarkedIff | src/kernel/arch/i686/mem/paging.c:24-33 | marking the found frame takes effect exactly when it is below nframes modulo 2^20 |
| PageTables.FoundFrameIsMarked | src/kernel/arch/i686/mem/paging.c:81-86 | below 4 GiB the wrapping guard never stops a found frame from being marked |
| PageTables.GetPageKeeps | src/kernel/arch/i686/mem/paging.c:186-206 | a new table changes no page's entry, and a second call creates none |
| PageTables.GetPageKeepsAddressIff | src/kernel/arch/i686/mem/paging.c:186-206 | map_to_physical of an address survives get_page exactly when the table existed, the address is under another table, or its page offset is 0; the hardware walk always survives |
| PageTables.NewTableMovesAddress | src/kernel/arch/i686/mem/mem.c:46-61 | at address 0x400001 and get_page(0x401000) it goes from NULL to 1 |
| PageTables.SetEntryKeeps | src/kernel/arch/i686/mem/paging.c:186-206 | changing one entry leaves the entry of every other page as it was |
| PageTables.SetEntryKeepsAddress | src/kernel/arch/i686/mem/mem.c:46-61 | and map_to_physical and the hardware walk of every address on another page |
| PageTables.FreedPageIsFrameZero | src/kernel/arch/i686/mem/paging.c:105-117 | free_frame leaves the page present: the processor then takes it to frame 0 |
| PageTables.WalkAgrees | src/kernel/arch/i686/mem/paging.c:186-206 | the hardware walk over tables_physical gives map_to_physical's address for present pages and faults otherwise |
| PageTables.FlagsKeepAddressIff | src/kernel/arch/i686/mem/paging.c:199 | masking the flags 0x7 off gives the table address back exactly when it is page-aligned |
| PageTables.WordIsInjective | include/kernel/arch/i686/mem/paging.h:6-16 | the bit fields of an entry can all be read back from its word |
| PageTables.WordBits | include/kernel/arch/i686/mem/paging.h:6-16 | present, writeable, user, accessed and dirty are bits 0 to 4 of the word, the frame bits 12 and up |
| PageTables.AllocGrants | src/kernel/arch/i686/mem/paging.c:70-93 | alloc_frame leaves the entry present with the access asked for; a page that has a frame keeps it, another gets the first free one, and it panics exactly when there is none; other pages keep their entries |
| PageTables.DirectGrants | src/kernel/arch/i686/mem/paging.c:95-103 | direct_frame leaves the entry present with the access and frame asked for and marks that frame, if below nframes |
| PageTables.FreeReleases | src/kernel/arch/i686/mem/paging.c:105-117 | free_frame clears the frame of the entry and its bit, and nothing else |
| FrameOwnership.AllocKeeps | src/kernel/arch/i686/mem/paging.c:70-93 | alloc_frame keeps exclusive ownership of frames |
| FrameOwnership.FreeKeeps | src/kernel/arch/i686/mem/paging.c:105-117 | free_frame keeps it too |
| FrameOwnership.MakeTableKeeps | src/kernel/arch/i686/mem/paging.c:186-206 | so does get_page |
| FrameOwnership.RunKeepsExclusive | src/kernel/arch/i686/mem/paging.c:70-206 | over every run of the three calls distinct pages own distinct frames and the marked frames are the reserved plus the owned ones |
| FrameOwnership.FreeUndoesAlloc | src/kernel/arch/i686/mem/paging.c:70-117 | freeing a frame just allocated restores the bitmap |
| FrameOwnership.FreeAsWrittenIff | src/kernel/arch/i686/mem/paging.c:105-117 | free_frame as written keeps ownership exactly when the page has no frame |
| FrameOwnership.FreeAsWrittenReleasesFrameZero | src/kernel/arch/i686/mem/paging.c:114 | as written it releases frame 0 instead, which the next scan hands out |
| BootMap.TableStep | src/kernel/arch/i686/mem/paging.c:138-168 | get_page in page order carves the next table and disturbs no mapping |
| BootMap.DirectStep | src/kernel/arch/i686/mem/paging.c:143 | direct_frame extends the mapped prefix by one page with its own frame, stale bit or not |
| BootMap.AllocStep | src/kernel/arch/i686/mem/paging.c:155-168 | alloc_frame gives the next page the first frame without a stale bit behind the frames in use; it panics exactly when there is none |
| BootMap.PlannedFrame | src/kernel/arch/i686/mem/paging.c:51-68 | that frame has no stale bit and every frame passed over has one |
| BootMap.PlannedIncrease | src/kernel/arch/i686/mem/paging.c:155-168 | later pages get later frames, so no two pages share one |
| BootMap.FramesSuffice | src/kernel/arch/i686/mem/paging.c:79-85 | all pages up to one get frames exactly when the bitmap has that many free ones behind the direct pages |
| BootMap.PlanIsIdentityIff | src/kernel/arch/i686/mem/paging.c:155-168 | every page gets the frame of its own number exactly when the bitmap's own words reach that far and have no stale bit there |
| BootMap.MappedAddresses | src/kernel/arch/i686/mem/paging.c:134-168 | after boot map_to_physical takes every address into the frame of its page, the hardware walk agrees from 0x1000 on, page 0 and all pages above fault |
| BootMap.MappedAccess | src/kernel/arch/i686/mem/paging.c:134-168 | boot leaves all pages but page 0 present, none writeable, and those of the heap open to user mode |
| BootMap.IdentityIff | src/kernel/arch/i686/mem/paging.c:134-168 | all addresses below the mapped end map to themselves exactly when all pages got their own frames |
| BootMap.BootsToIdentityIff | src/kernel/arch/i686/mem/paging.c:121-168 | with either size that is so exactly when the bitmap reaches the heap's end in front of the directory and no uncleared bit is set for a frame from the later of the cleared and the direct ones up to there |
| BootMap.OneStaleBitShifts | src/kernel/arch/i686/mem/paging.c:127 | one uncleared bit behind the direct pages moves its own page and all later ones by one frame |
| BootMap.StaleBitAt640MiB | src/kernel/arch/i686/mem/paging.c:119-168 | for instance at 640 MiB and an image that ends at 1 MiB, where boot succeeds and no directory word is involved |
| BootMap.BitmapBelowDirectoryIff | src/kernel/arch/i686/mem/paging.c:122-130 | the words of all frames up to a given one lie in front of the directory exactly when the padding there is enough, and then they are the bitmap's own |
| BootMap.PlanAt256MiB | src/kernel/arch/i686/mem/paging.c:121-131 | for instance at 256 MiB the bitmap is long enough and nothing is stale, but pages get their own frames only up to 32767 |
| SharedBitmap.FirstSharedFrame | src/kernel/arch/i686/mem/paging.c:51-86 | the first page behind the direct ones that needs a shared word gets the frame of bit 3 of the directory word of table 0, which is not its own, and the mark changes that word |
| SharedBitmap.WordFills | src/kernel/arch/i686/mem/paging.c:138-168 | when direct pages reach the shared word, pages that keep their own frames fill it bit by bit |
| SharedBitmap.FullWordFaults | src/kernel/arch/i686/mem/paging.c:199 | with all its bits set the processor faults on the first 4 MiB |
| SharedBitmap.DirectPagesLoseIdentity | src/kernel/arch/i686/mem/paging.c:138-168 | so the identity is lost within the 32 pages of the shared word |
| SharedBitmap.LeavingLosesIdentity | src/kernel/arch/i686/mem/paging.c:119-168 | from every state in which boot leaves the bitmap's own words for the directory, the identity is lost or boot panics |
| SharedBitmap.SharedWordAt256MiB | src/kernel/arch/i686/mem/paging.c:119-168 | at 256 MiB page 32768 gets frame 32771 and the directory word of table 0 is changed |
| BootMap.DirectBound | src/kernel/arch/i686/mem/paging.c:138 | the moving bound of the first loop is met exactly at the closed-form page |
| BootMap.TablesEndBelowHeap | src/kernel/arch/i686/mem/paging.c:148-175 | all tables and the heap descriptor end below heap_start in both branches of its choice |
| BootMap.HeapStartIs | src/kernel/arch/i686/mem/paging.c:148-160 | the heap starts at 0xC000000, or 0xFD000 bytes behind direct pages that reach so far, and has 0x100000 bytes |
| BootMap.AfterTableZeroIs | src/kernel/arch/i686/mem/paging.c:129-134 | directory and table 0 take four pages from the first page boundary behind the bitmap |
| BootMap.DirectMarksInBoundsIff | src/kernel/arch/i686/mem/paging.c:24-33 | the first loop marks only inside a given number of words exactly when these hold all frames or the loop ends inside them |
| Paging.BootMemory.Kmalloc | src/kernel/arch/i686/mem/mem.c:27-38 | boot allocation hands out fresh, on request page-aligned, memory whose physical address is its own |
| Paging.BootMemory.SetFrame | src/kernel/arch/i686/mem/paging.c:24-33 | set_frame marks one frame below the wrapping guard and no other |
| Paging.BootMemory.ClearFrame | src/kernel/arch/i686/mem/paging.c:35-41 | clear_frame unmarks exactly one frame |
| Paging.BootMemory.TestFrame | src/kernel/arch/i686/mem/paging.c:43-49 | test_frame tells whether the frame is marked |
| Paging.BootMemory.FirstFrame | src/kernel/arch/i686/mem/paging.c:51-68 | first_frame returns the least free frame of the bitmap's own words or 0xFFFFFFFF |
| Paging.BootMemory.GetPage | src/kernel/arch/i686/mem/paging.c:186-206 | get_page points to the page's entry and creates its table only when missing and asked to |
| Paging.BootMemory.AllocFrame | src/kernel/arch/i686/mem/paging.c:70-93 | alloc_frame on the bitmap and the tables, failing exactly when no frame is free in the bitmap's own words |
| Paging.BootMemory.DirectFrame | src/kernel/arch/i686/mem/paging.c:95-103 | direct_frame on the bitmap and the tables |
| Paging.BootMemory.FreeFrame | src/kernel/arch/i686/mem/paging.c:105-117 | free_frame releases the frame the page owns and clears the entry's frame |
| Paging.BootMemory.MapToPhysical | src/kernel/arch/i686/mem/mem.c:46-61 | map_to_physical reads the frame of the page, NULL without a table |
| Paging.BootMemory.MapDirect | src/kernel/arch/i686/mem/paging.c:138-144 | the first loop terminates with its counter exactly on its moving bound and all pages below mapped to themselves, or stops at the first mark outside the bitmap's own words |
| Paging.BootMemory.MapToFirstFree | src/kernel/arch/i686/mem/paging.c:155-168 | the loops over alloc_frame give every page its planned frame, up to the page for which none is left |
| Paging.BootMemory.MakeHeapTables | src/kernel/arch/i686/mem/paging.c:160-163 | the loop over get_page makes the heap's tables and maps nothing |
| Paging.BootMemory.SetUp | src/kernel/arch/i686/mem/paging.c:121-136 | bitmap, directory and table 0 are laid out, frame 0 is reserved, page 0 is not present; the bitmap has the words in front of the directory to itself |
| Paging.BootMemory.InitializePaging | src/kernel/arch/i686/mem/paging.c:119-168 | for every content of the bitmap memory and both sizes: it gets frames for all pages exactly when enough are free in the bitmap's own words, leaves the planned mapping, and the identity exactly under the condition of BootsToIdentityIff; where it runs into the directory the identity is lost |
| Kernel.TablesAreMapped | src/kernel/arch/i686/mem/paging.c:186-206 | every page table lies below the bump pointer in the identity-mapped range |
| Kernel.BootIsExclusive | src/kernel/arch/i686/mem/paging.c:134-168 | boot establishes exclusive frame ownership, with frame 0 and the stale frames behind the direct pages reserved |
| Kernel.HeapBytesAreMapped | src/kernel/arch/i686/mem/paging.c:160-175 | every byte of every block of the running heap is present and maps to itself |
| Kernel.Boot | src/kernel/arch/i686/mem/paging.c:119-177 | boot gives a valid heap of 1 MiB above all boot allocations, faults outside [0x1000, heap end), read-only pages with user access to the heap only, exclusive ownership, and memory outside as it was; or it panics, or runs into the directory and loses the identity; the kernel is identity mapped exactly under the condition of BootsToIdentityIff, which with the whole bitmap cleared is that it succeeds |
| Kernel.Kmalloc | src/kernel/arch/i686/mem/mem.c:15-25 | once the heap exists kmalloc returns the payload of a block that was not live before and lies in front of all live ones, NULL for size 0; its physical address is the address itself, for every request and heap state |
| Kernel.Kfree | src/kernel/arch/i686/mem/mem.c:44 | kfree of a block's pointer, live or already free, is one event of the heap's runs and leaves the kernel running |
| Transcript.HistoryKept | src/kernel/arch/i686/io/tty.c:148-182 | no text changes anything written before the cursor |
| Transcript.PutAllIs | src/kernel/arch/i686/io/tty.c:126-137 | characters go into consecutive cells in the current color across row ends |
| Transcript.CellHalves | include/kernel/arch/i686/io/vga.h:31-36 | the low byte of an entry is the character, the high byte the color, or 0xFF where the character is sign-extended |
| Transcript.BehindTheCursor | src/kernel/arch/i686/io/tty.c:126-137 | what is behind the cursor is what was there, or new rows of grey spaces |
| Transcript.NewlineText | src/kernel/arch/i686/io/tty.c:151-158 | a newline goes to the start of the next row, a new row of grey spaces at the end of the page |
| Transcript.CarriageReturn | src/kernel/arch/i686/io/tty.c:166-173 | a text with a carriage return is not written to its end |
| Transcript.PlainScreen | src/kernel/arch/i686/io/tty.c:74-248 | after a plain text cursor and number of scrolls are functions of its length, its characters stand in order in light grey on black, and behind them are the zero characters of the first screenful and spaces |
| Transcript.LinesCursor | src/kernel/arch/i686/io/tty.c:148-182 | after lines of text the cursor stands behind the last, each line taking the rows it fills and one more |
| Transcript.LinesWritten | src/kernel/arch/i686/io/tty.c:148-182 | every character of every line stands at its place behind the start of its line's first row, across wraps and scrolls |
| Transcript.LinesScreen | src/kernel/arch/i686/io/tty.c:126-248 | so cursor, number of scrolls and cells of a screen of console lines are functions of the line lengths and characters |
| Transcript.TabSpaces | src/kernel/arch/i686/io/tty.c:159-165 | a tab moves two, two, one or three columns and never stops on a multiple of four |
| Transcript.TabText | src/kernel/arch/i686/io/tty.c:159-165 | so a tab in a text writes two, two, one or three spaces |
| Transcript.ColorHalves | src/kernel/arch/i686/io/tty.c:258-274 | setting foreground or background keeps the other half and reads back |
| Transcript.ShortSequence | src/kernel/arch/i686/io/tty.c:284-345 | for x from 0 to 7 the sequences 3x, 9x and 4x set the foreground to x, to x + 8 and the background to x, 0x sets grey on black; the other half, cells and cursor stay, and nothing is printed |
| Transcript.LongSequence | src/kernel/arch/i686/io/tty.c:346-360 | the sequence 10x sets the background to x + 8 likewise |
| Transcript.AnyShortSequence | src/kernel/arch/i686/io/tty.c:300-336 | bytes below the digits, and those that are negative as chars, are or-ed into the color as they are |
| Transcript.AnyLongSequence | src/kernel/arch/i686/io/tty.c:346-352 | the same for 10x |
| Transcript.EchoedSequences | src/kernel/arch/i686/io/tty.c:284-361 | digits of 8 and more, unknown colors and ESC ESC are echoed with a caret for ESC |
| Transcript.WriteConcat | src/kernel/arch/i686/io/tty.c:148-182 | writing two parts is writing the whole, when the first part is complete |
| Transcript.IncompleteSwallows | src/kernel/arch/i686/io/tty.c:148-182 | every text that is not complete swallows the next character, whatever it is |
| Transcript.CompleteIff | src/kernel/arch/i686/io/tty.c:148-182 | a text can be continued in a second call, already by a space, exactly when it is complete |
| Transcript.EscapePairSwallows | src/kernel/arch/i686/io/tty.c:284-291 | the pair ESC ESC is the shortest incomplete text |
| Terminal.Screen.constructor | src/kernel/arch/i686/io/tty.c:74-84 | initialize_terminal fills the buffer with zero characters in light grey on black, the first screenful of the empty transcript |
| Terminal.Screen.Scroll | src/kernel/arch/i686/io/tty.c:239-248 | scrolling in place moves every row up by one and fills the last with grey spaces |
| Terminal.Screen.PutChar | src/kernel/arch/i686/io/tty.c:126-137 | terminal_putchar keeps the buffer a window on the transcript |
| Terminal.Screen.PutTab | src/kernel/arch/i686/io/tty.c:159-165 | so does the tab loop with its moving bound |
| Terminal.Screen.EscapeSequence | src/kernel/arch/i686/io/tty.c:284-361 | so does every well-formed escape sequence, with the length it returns |
| Terminal.Screen.WriteString | src/kernel/arch/i686/io/tty.c:192-195 | terminal_writestring writes the literal and whatever strlen counts behind it |
| Terminal.Screen.Write | src/kernel/arch/i686/io/tty.c:148-182 | for every well-formed text the buffer is the window, at the number of scrolls, on the transcript of all texts so far |
| Digits.NumeralValue | src/libc/stdio/printf.c:33-55 | what is printed for a number is a numeral without leading zero that parses back to it |
| Digits.NumeralUnique | src/libc/stdio/printf.c:33-55 | every numeral is what is printed for its value |
| Digits.DigitsAreAscii | src/libc/stdio/printf.c:42-43 | digits are those of ASCII, the larger ones in lower case |
| Digits.HexDigits | src/libc/stdio/printf.c:33-55 | for every uint32 the loop leaves the numeral and a zero byte at the end of the buffer and stays in it |
| Digits.DecimalDigits | src/libc/stdio/printf.c:14-31 | for every int32 the loop leaves what printi prints, inside the buffer |
| Digits.PrintedParsesIff | src/libc/stdio/printf.c:14-31 | printi's text parses back to the number exactly when it is not negative |
| Digits.NegativeReflects | src/libc/stdio/printf.c:14-31 | a negative number comes out with each digit of its absolute value reflected below the character 0 |
| Printf.ConversionsReadBack | src/libc/stdio/printf.c:93-116 | what each conversion prints reads back as its argument: strings, characters, hexadecimal modulo 2^32, and decimal exactly when not negative |
| Printf.ConversionTexts | src/libc/stdio/printf.c:93-116 | what each of the four conversions prints, with what print adds behind measured strings |
| Printf.PiecesInOrder | src/libc/stdio/printf.c:57-126 | a format made of characters and conversions prints them in order, each conversion with its own argument, and returns the number of characters |
| Printf.BadSpecifier | src/libc/stdio/printf.c:80-91 | any other character behind a percent sign, or none, makes the rest literal |
| Printf.DoubledPrintsLiterally | src/libc/stdio/printf.c:66-83 | a text with its percent signs doubled prints as itself and returns its length |
| Printf.RejectedIsLiteral | src/libc/stdio/printf.c:85-91 | after a bad specifier nothing is converted and no argument is read |
| Printf.WrittenIgnoresArgs | src/libc/stdio/printf.c:76-125 | the return value depends on the format alone: it counts literal characters |
| Printf.Printf | src/libc/stdio/printf.c:57-126 | the scanning loop prints and returns what the character-by-character rendering says |
| Memmove.Memmove | src/libc/string/memmove.c:3-14 | for every overlap the bytes of the destination are the old bytes of the source and all others are unchanged |
| Memmove.MovedBack | src/libc/string/memmove.c:3-14 | moving there and back restores the source even where the ranges overlap |
| Console.Strlen | src/libc/string/strlen.c:3-8 | strlen as written returns one more than the length, for every string |
| Console.WriteHex | src/kernel/arch/i686/io/tty.c:206-228 | terminal_writehex puts the numeral on the screen |
| Console.Print | src/libc/stdio/printf.c:8-12 | bytes printed one by one through putchar leave the screen as the whole text would |
| Console.PrintfToScreen | src/libc/stdio/printf.c:57-126 | printf's rendering arrives on the screen as one text |

## Left out

- Paging.BootMemory.InitializePaging: asks for less than 4 GiB of memory and a heap end inside the address space, because set_frame's guard and the loop counters wrap beyond; `FoundFrameIsMarkedIff` says what the guard does there.
- Paging.BootMemory.InitializePaging: ends as LeftBitmap where the code would store past the last word of the bitmap (`DirectMarksInBoundsIff`), which takes a number of frames that is no multiple of 32; what such a store hits is not modelled.
- Paging.BootMemory.InitializePaging: with sizes as written it follows the code up to the page that needs a word shared with the directory. `LeavingLosesIdentity` goes on from there to the loss of the identity, but not to what the later marks in the directory do, and only for an image that ends on a multiple of four.
- Paging.BootMemory.GetPage: boot phase only; once the heap exists khalloc ignores the alignment get_page asks for.
- Transcript.WellFormed excludes the carriage return, whose loop never ends because the column is unsigned, and escape sequences from which terminal_escape_sequence returns nothing.
- Console.PrintfToScreen: excludes escape characters, which putchar passes on alone, so that the sequence is read past its one byte.
- The bytes of the bitmap, directory and page tables are fields of their own; only the heap's bytes are raw memory. They lie below the heap (`TablesEndBelowHeap`).
- Khalloc's trace message: khalloc prints the size it was asked for; the heap model has no output.
- switch_page_directory, the fault handlers and kernel_directory->physical_addr: hardware registers and messages.
- GDT, TSS, IDT and interrupt tables, port input and output, assembly stubs, build scripts: no checkable state, or easy members.
- memcpy, memcmp, puts: single simple loops or wrappers. memset appears as the clearing of the bitmap and of new tables.
- next_free_block is called nowhere; prev_free_block and prev_contig_block appear inside the search.
- The x86_64 copies: the heap is proved for its record sizes, tty.c is a duplicate, and paging is commented out in its start-up.
- Integer overflow of printf's counter, which needs a format of 2^31 bytes.
