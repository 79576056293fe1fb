# SamOS: a verified model

SamOS is a small x86_64 kernel written in C. This project models its memory management,
its kernel heap, its scheduler and process table, its ELF loader, its text display and
the search for the ACPI power-off values, and proves what they keep over every call and
every run. `dafny verify dfyconfig.toml` checks the whole project.

## How the model is laid out

| module | models | form |
|---|---|---|
| `Pmm` | kernel/pmm.c | class `FrameAllocator` over the bitmap, with a ghost free set; runs of hand-outs and frees |
| `PageTables` | the page tables as values: hardware walk, ownership tree | functions and lemmas |
| `PteBits` | the 64-bit masks of kernel/vmm.c and kernel/paging.c | bit-vector lemmas |
| `Vmm`, `VmmRuns` | kernel/vmm.c | class `AddressSpaces`; runs of create, map, unmap, destroy |
| `Unmapping` | the store of vmm_unmap, whatever it hits | functions and lemmas |
| `Samples` | one state with a user space, where claims about huge pages fail | lemmas |
| `Paging` | kernel/paging.c | class `Builder` and the method `PagingInit` |
| `Words` | byte, word and page sizes | constants |
| `Heap` | the block list of kernel/kmalloc.c as a sequence | functions, lemmas over runs |
| `Kmalloc` | kernel/kmalloc.c with its headers and next pointers | class `KernelHeap`, specified by `Heap` |
| `Tasks` | kernel/scheduler/task.c and kernel/process.c as functions on one state | functions |
| `Lifecycle`, `SchedulerRuns` | what every call and every run keeps | lemmas |
| `Results` | what kill, wait, spawn and task creation answer, and what a caller may conclude from it | lemmas |
| `Resuming` | the saved stack pointers and first frames, slices, counts and sleep | lemmas over runs |
| `Scheduler` | the same calls in place, on arrays, over the page tables | class `Machine`, specified by `Tasks` |
| `Stacks` | the kernel stacks of the tasks as blocks of the heap | functions, lemmas over runs |
| `ElfImage` | the ELF format, the loader's checks and the bytes an image puts at each address | functions and lemmas |
| `ElfFormat` | the same fields as bytes of the file at the offsets of the gABI | functions, round trips |
| `UserPages` | the 4 KiB pages of users and the bytes behind them | functions and lemmas |
| `LoadSteps` | what each step of the loader, and a whole spawn, changes in every space | lemmas |
| `Elf` | the ELF loader and the user stack of kernel/process.c | class `Loader` over `AddressSpaces`, specified by `LoadSteps` |
| `Syscall` | kernel/syscall.c | methods over `Machine` |
| `Boot` | the order in which kernel/kernel.c brings the parts up, and the calls of a run made in place | methods |
| `Display` | kernel/display.c with its shadow buffer | class `Screen` |
| `Text` | what printed text looks like | lemmas |
| `Aml` | aml_extract_s5_types of kernel/acpi.c | methods against a grammar |

Physical memory is a map from frame number to what the frame holds: 512 table words, 4096
bytes, or an AddressSpace record. A ghost map names the place of every table (owner and
indices), and the tables must form a tree: one parent for each, except that slots 0 and
511 of every root lead to the kernel's tables. Table words are kept decoded; `PteBits`
relates them to the masks. A frame of bytes reads as the table words its bytes encode; a
frame that the map does not hold reads as an empty table. The walk of section
4.5 of the Intel SDM, volume 3A, is the reference for every claim about translation.

The task and process tables are one value, `Tasks.Kernel`. Each method of
`Scheduler.Machine` promises that the tables change exactly as the corresponding
function in `Tasks` says, so every theorem of `SchedulerRuns` about runs of those functions is
one about the methods. The class also ties the tables to the page tables: a user address
space exists exactly as long as a process record holds it, and CR3 always holds the root
of a space that exists.

Steps are whole kernel calls. Panics are outcomes that do not return. The answers of
kmalloc for kernel stacks, the boot information and the ELF images are parameters.

## Main results

- Frames: after pmm_init a page is free exactly if it is RAM that holds no byte of anything
  in use (`Pmm.FrameAllocator.Init`), the jumping
  search equals the naive one (`Pmm.FrameAllocator.AllocPages`), and over every run no frame
  is handed out twice without a free (`Pmm.NeverTwice`).
- Translation: map, create and destroy change exactly the leaves they name
  (`Vmm.AddressSpaces.Map` and its companions, `VmmRuns.MapTranslates`), and unmap does so
  if and only if the page is not under a huge page (`Unmapping.UnmapIff`); over every run
  without such an unmap no call in one space alters another outside the shared slots
  (`VmmRuns.Isolation`), and `VmmRuns.UnmapSparesIff` says exactly what one alters; destroy
  gives back every table of the space exactly once (`Vmm.AddressSpaces.Destroy`), and
  paging_init builds exactly the two mappings it means to (`Paging.PagingInit`,
  `Paging.ExpectedAddresses`).
- Heap: over every run in which new extents are clear of the list and no kfree merges
  across a gap, blocks are disjoint, no three neighbours are free and no byte is lost
  (`Heap.RunKeeps`, `Heap.NeverThree`). The linked list in memory follows such a run
  (`Kmalloc.KernelHeap.Kept`): `Kmalloc.KernelHeap.Alloc` continues it, and so does
  `Kmalloc.KernelHeap.Release` unless it merges across a gap, which it cannot do while
  extents follow the last block (`Heap.TilesRun`).
- Kernel stacks: over such runs the live tasks own pairwise disjoint heap blocks
  (`Stacks.RunKeeps`, `Stacks.StacksDisjoint`), and booting leads to their start
  (`Stacks.BootHolds`).
- Scheduling: exactly one task runs and idle never stops (`SchedulerRuns.RunKeeps`), a
  runnable task waits for at most 14 switches (`SchedulerRuns.BoundedWaiting`). Over every run
  a task that is entered goes on where it was left (`Resuming.GoesOnWhereLeft`), or, the first
  time, at the frame that leads to its entry point (`Resuming.StartsAtTop`).
- Processes: no address space is torn down under a task or twice
  (`SchedulerRuns.NeverUnderATask`, `SchedulerRuns.DestroyedOnce`), pids are not reused
  (`SchedulerRuns.PidsNeverReused`); a wait answers 0 until the process ends and 1 with its
  first code from then until the record goes (`Results.WaitWhileRunning`,
  `Results.WaitReports`, `SchedulerRuns.FirstCodeReported`); in place, address spaces exist exactly while a
  process record holds them and CR3 is always one of theirs or the kernel's
  (`Scheduler.Machine.ContextSwitchFrom`, `Scheduler.Machine.SpawnFromElf`,
  `Scheduler.Machine.Cr3Live`).
- Loading: a load determines what every address of every space reads afterwards, through
  the page-table walk: the image over what was there, or over zeros, where the tables of
  the target space lead, and the old bytes everywhere else (`Elf.Loader.Load`,
  `LoadSteps.LoadHasEffect`, `LoadSteps.LoadedImage`, `ElfImage.SegmentReads`). What the
  user may do at each page of the image is what the flags byte of the file says, through every
  level of the tables (`LoadSteps.ImageOpens`, `ElfFormat.SegmentFields`,
  `ElfFormat.ImageDecodes`). In every state users can get to all their pages and to none of
  the kernel's (`UserPages.PageGrants`, `UserPages.KernelShut`).
- From paging_init to the first schedule() every one of these invariants is established
  (`Boot.InitMemory`, `Boot.Start`, `Boot.KernelMain`).
- Display: the flush of dirty rows is a full copy, exactly when the pitch allows it
  (`Display.Screen.Flush`, `Display.Screen.Replay`). Printed text shows its glyphs side by side
  and flows from line to line (`Text.LineShows`, `Text.TextFlows`).
- AML: the extractor accepts exactly the definitions of _S5_ whose elements it can read and
  returns what it reads (`Aml.Decodes`, `Aml.Defined`, `Aml.ExtractS5`), which is the value
  of every AML integer constant but two (`Aml.ConstantReads`).

## Where the code does less than one might expect

- coalesce joins list neighbours without comparing addresses. `Heap.MergeIffTouching` and
  `Heap.BytesKeptIff` give the exact condition for a merge and for a whole pass. `Heap.GapRun`
  is a run of six ordinary calls that fails it, and `Kmalloc.GapCycle` shows the header list
  in memory become a cycle of free blocks at its last call. `Heap.DoKeeps` and
  `Heap.ListKeeps` hold of such runs too, but only of the value list, which the list in
  memory no longer follows.
- The sums in align_up and expand_heap wrap near 2^64; `Heap.ExtentHoldsIff` says exactly
  for which requests the extent is large enough, and `Heap.ExtentSaneIff` names the one size
  for which the list itself goes wrong, as `Kmalloc.WrappedSplit` shows in memory.
- pmm_init counts a page once for each conventional descriptor that holds it;
  `Pmm.CountIffDisjoint` says exactly when the count is right, and `Pmm.CountedTwice` gives a
  map for which it is not.
- paging_init multiplies the framebuffer size in 32 bits before widening;
  `Paging.IdentityLimit` says exactly when the identity map takes in the framebuffer, and
  `Paging.FramebufferLeftOut` gives one that it leaves out.
- vmm_virt_to_phys does not test the huge bit. `PageTables.VirtToPhysUnderHuge` says what it
  answers under a huge page, `Syscall.AcceptedIff` exactly which ranges user_range_valid
  accepts for that reason although they are not mapped, and `Syscall.AcceptedUnmapped` gives
  one.
- vmm_unmap does not test it either, and its mask keeps the no-execute bit. Under an identity
  page it faults (`Samples.UnmapFaults`). Under a higher-half page it clears a word of the
  page's first frame and leaves the page: `Unmapping.UnmapIff` and `VmmRuns.UnmapSparesIff`
  say exactly what that changes, and `Samples.UnmapElsewhere` is a run of one call that
  removes a private page of another space.
- User images are linked into slot 0, which all address spaces share
  (`LoadSteps.LinkAddressShared`). Isolation holds for slots 1 to 510;
  `VmmRuns.SharedSeenByAll` states what happens in the other two. A second image at the same
  address overwrites the first and finds its bytes where zeros are due
  (`LoadSteps.SecondImage`, `Boot.SpawnBoth`); `LoadSteps.IntactIff` says exactly which bytes
  survive a spawn.
- The sums over ELF header fields can wrap. `ElfImage.SegmentChecks` and
  `ElfImage.HeaderChecks` say that a wrap is exactly what the checks miss, and
  `ElfImage.WrapAccepted` and `ElfImage.HeaderWrapAccepted` give headers they let through.
- aml_extract_s5_types takes any byte that is not a byte or word prefix for an element of its
  own value; `Aml.ConstantReads` says for which constants that is right.
- The loader relies on the same answer, so its claims ask for images without a page under a
  huge page. `Boot.ClearIffAbove` says exactly which these are, and `Boot.LinkedImageIff` that
  the link address is one of theirs if and only if max_memory is at most 128 GiB.
- vmm_destroy_address_space frees tables, root and record, never the data pages.
- display_flush copies whole 64-bit words, so with an odd pitch the last column is never
  copied; `Display.Screen.Flush` and `Display.Screen.Replay` say exactly what that leaves, and
  `Display.OddPitchShows` gives a screen on which it shows.
- A backspace at the start of a line goes to the last eight columns of the line above, even if
  the character that ended that line stands elsewhere; `Text.BackspaceReturnsIff` says exactly
  when it takes a character back.
- task_yield raises the timer interrupt and so counts as a tick; a switch made by a system
  call does not restart the time slice.

## Model

| member | source | states |
|---|---|---|
| Pmm.HighestEnd | kernel/pmm.c:234-239 | no descriptor ends above the result, and the result is 0 or the end of one |
| Pmm.FrameAllocator.BitmapTest | kernel/pmm.c:204-206 | a bit test answers exactly whether the page is in the set of used pages |
| Pmm.FrameAllocator.BitmapSet | kernel/pmm.c:196-198 | or-ing in one bit takes exactly one page out of the free set, and no other bit of the byte or of the bitmap moves |
| Pmm.FrameAllocator.BitmapClear | kernel/pmm.c:200-202 | masking one bit out adds exactly one page to the free set |
| Pmm.SetBit | kernel/pmm.c:196-202 | setting or clearing bit p mod 8 of byte p / 8 changes the bit of page p and of no other page |
| Pmm.FrameAllocator.ReservePage | kernel/pmm.c:208-216 | the page leaves the free set, pages past the end are ignored, and free_pages drops only if the page was free |
| Pmm.FrameAllocator.ReserveRange | kernel/pmm.c:218-228 | exactly the pages that hold a byte of the range leave the free set; an empty range takes none |
| Pmm.FrameAllocator.ReservePages | kernel/pmm.c:226-227 | exactly the pages of the interval leave the free set |
| Pmm.TouchedMeaning | kernel/pmm.c:218-228 | the page interval computed from start and length is the set of pages that hold a byte of the range |
| Pmm.FrameAllocator.FreeConventional | kernel/pmm.c:253-262 | the free set becomes the union of the conventional descriptors, and free_pages the sum of their lengths |
| Pmm.FrameAllocator.ReserveLow | kernel/pmm.c:264-289 | exactly the pages of four sets leave the free set, which Pmm.LowHolds describes byte by byte |
| Pmm.LowHolds | kernel/pmm.c:264-289 | a page is in the sets of ReserveLow if and only if it holds a byte of the kernel image from 1 MiB on, of the bitmap where the arena ends, or of the low 64 KiB, or lies in the page-table arena |
| Pmm.FrameAllocator.ReserveFirmware | kernel/pmm.c:298-303 | exactly the pages of one set leave the free set, which Pmm.FirmwareHolds describes byte by byte |
| Pmm.FirmwareHolds | kernel/pmm.c:298-303 | a page is in the set of ReserveFirmware if and only if it holds a byte of a descriptor of type 5, 6, 9, 10 or 11 |
| Pmm.FrameAllocator.ReserveAll | kernel/pmm.c:264-303 | everything that must never be handed out leaves the free set, and the difference between free_pages and the size of the set is unchanged |
| Pmm.FrameAllocator.Init | kernel/pmm.c:230-303 | after pmm_init a page is free if and only if it belongs to a conventional descriptor, holds no byte of the kernel image, of the bitmap (of the size it was given), of the low 64 KiB, of the framebuffer, of the RSDP page or of a firmware descriptor, and is outside the page-table arena; page 0 is not free; free_pages is the size of that set if and only if the conventional descriptors are pairwise disjoint |
| Pmm.FreeIff | kernel/pmm.c:230-303 | the same for one page, against the set expression that the code follows |
| Pmm.CountIffDisjoint | kernel/pmm.c:253-262 | the counting loop counts the union of the conventional descriptors if and only if they are pairwise disjoint |
| Pmm.CountedTwice | kernel/pmm.c:253-262 | two descriptors that hold one page: one page is free and two are counted |
| Pmm.FrameAllocator.AllocPage | kernel/pmm.c:318-327 | the lowest free page is taken and nothing else; 0 is returned if and only if there is no free page |
| Pmm.FrameAllocator.AllocPages | kernel/pmm.c:330-353 | the search that jumps past the first used page agrees with the naive one: the lowest run of count free pages from page 1 on, exactly those pages marked, and 0 if and only if count is 0 or there is no such run |
| Pmm.FrameAllocator.Take | kernel/pmm.c:343-348 | the marking loop removes exactly the run and lowers free_pages by its length |
| Pmm.FrameAllocator.FreePage | kernel/pmm.c:356-364 | the page becomes free and free_pages grows by one, except for page 0, pages past the end and pages already free |
| Pmm.StaysOut | kernel/pmm.c:318-364 | over every run of hand-outs and frees, a frame that was handed out is not free until it is freed |
| Pmm.NeverTwice | kernel/pmm.c:318-364 | over every run, between two hand-outs of the same frame there is a free of that frame |
| PteBits.LeafWord | kernel/vmm.c:154-156 | the 64-bit word that vmm_map stores decodes to the frame and the flags it was made from |
| PteBits.TableWord | kernel/paging.c:126-171 | the words paging_init stores for tables decode to the frame of the table, writable and not for users |
| PteBits.HighWordIs | kernel/paging.c:173-176 | the words of the higher half, address or 0x83, decode to the 2 MiB page they stand for |
| PteBits.IdentityWordIs | kernel/paging.c:157-163 | the words of the identity map decode to their 2 MiB page, never executable, and not cached exactly at the two interrupt controllers |
| PteBits.OpenWord | kernel/vmm.c:30-36 | or-ing the user bit into a word changes that field and no other |
| PteBits.UnmapMask | kernel/vmm.c:161-182 | the mask of vmm_unmap and vmm_destroy_address_space finds the same frame as that of vmm_virt_to_phys if and only if the bits above 51 are clear |
| PteBits.LeafAddress | kernel/vmm.c:219-219 | the returned physical address splits back into the frame of the word and the offset of the virtual address |
| PteBits.IndexBits | kernel/vmm.c:140-143 | the four indices and the offset make up the whole of a 48-bit address |
| PageTables.SameVpn | kernel/vmm.c:140-143 | two addresses have the same four indices if and only if they lie in the same page of the 48-bit space |
| PageTables.VirtToPhysIsWalk | kernel/vmm.c:197-220 | where the hardware walk meets no huge entry, vmm_virt_to_phys returns what the hardware would |
| PageTables.VirtToPhysUnderHuge | kernel/vmm.c:197-220 | under a huge page vmm_virt_to_phys answers with the word that the first frame of that page holds at the last index, read as a table word, if that word is present, and 0 otherwise |
| PageTables.WalkIsLeafAt | kernel/vmm.c:197-220 | in every tree of tables the hardware walk of a space ends at the leaf the tree assigns to the page |
| PageTables.SetUser | kernel/vmm.c:30-36 | opening an inner word to users keeps the tree and every translation of every space |
| PageTables.AddTable | kernel/vmm.c:38-41 | hanging a fresh table under an absent word keeps the tree: every table has one parent |
| PageTables.AddTableLeaves | kernel/vmm.c:38-41 | hanging a fresh table under an absent word changes no translation in any space |
| PageTables.SetLeaf | kernel/vmm.c:154-156 | storing a word in a page table changes the leaf of that page, in every space that reaches it through the same tables, and no other leaf of any space |
| PageTables.AddRoot | kernel/vmm.c:84-103 | a new root that shares slots 0 and 511 keeps the tree and every translation |
| PageTables.FreshSpace | kernel/vmm.c:84-103 | a space that does not exist yet can see only what the kernel maps in slots 0 and 511 |
| PageTables.RemoveSpace | kernel/vmm.c:105-130 | taking the tables of one user space away leaves a tree, and every translation of every other space |
| PageTables.VisitPt | kernel/vmm.c:115-121 | each step of the innermost loop meets a page table not met before |
| PageTables.VisitPd | kernel/vmm.c:111-123 | each step of the middle loop meets a page directory not met before |
| PageTables.VisitPdpt | kernel/vmm.c:108-125 | each step of the outer loop meets a pointer table not met before |
| PageTables.OwnedIsReachable | kernel/vmm.c:105-130 | the tables a space owns are exactly those reachable from its root through slots 1 to 510 |
| Vmm.AddressSpaces.Init | kernel/vmm.c:52-63 | the tables that paging_init left are taken over as the kernel space |
| Vmm.AddressSpaces.GetOrCreateTable | kernel/vmm.c:26-41 | the child table is returned, made and zeroed if it was absent, opened to users on request; no leaf of any space changes; it fails only when no frame is free |
| Vmm.AddressSpaces.Reach | kernel/vmm.c:145-152 | the page table of the page is reached with up to three new tables and no leaf changed; a huge page on the way or exhausted memory are told apart |
| Vmm.AddressSpaces.Map | kernel/vmm.c:132-159 | after vmm_map the page has the requested leaf and rights, in this space and in those that share its slot; every other leaf of every space and every frame in use stays; each assertion fires exactly when the page was mapped or lies under a huge page |
| Vmm.AddressSpaces.Unmap | kernel/vmm.c:161-182 | without a huge page on the way, the page has no leaf any more and every other leaf of every space and every other frame stays; under a huge page the call faults if that page is not executable, and otherwise clears one word of its first frame, whatever the frame holds, which leaves the tables sound if and only if no table and no record hangs from that word |
| Unmapping.UnmapIff | kernel/vmm.c:161-182 | vmm_unmap unmaps the page and leaves every other translation of every space alone if and only if the page is not under a huge page |
| Unmapping.UnderHuge | kernel/vmm.c:161-182 | under a huge page either nothing happens to it or all 512 pages under it go; never the one page |
| Unmapping.WalkAfterClear | kernel/vmm.c:176-180 | after a word of any frame is cleared, table or data, exactly the walks that found it present end there |
| Unmapping.TreeAfterClear | kernel/vmm.c:180-180 | the tables are still a tree if and only if no table hung from the word |
| Vmm.UnmapHits | kernel/vmm.c:161-182 | where the first frame of the huge page is the page table of some page, that page is unmapped, in whichever space it is, and nothing else changes |
| Samples.UnmapElsewhere | kernel/vmm.c:161-182 | such a state, with sound tables: unmapping a higher-half address in the kernel space removes a private page of a user space that the call does not name |
| Samples.UnmapFaults | kernel/vmm.c:161-182 | in the same state, unmapping an identity address faults, because the mask keeps the no-execute bit |
| Vmm.AddressSpaces.Create | kernel/vmm.c:84-103 | two frames are taken for the record and the root; word 0 of the root is present, open to users and otherwise the kernel word 0; word 511 is the kernel word 511; every other word is absent; no translation changes; 0 is returned only without a free frame |
| Vmm.AddressSpaces.InstallRoot | kernel/vmm.c:91-100 | the new root holds the three kinds of words just named, and root and record keep every invariant of the tables |
| Vmm.RootIsMade | kernel/vmm.c:91-100 | what the stores of vmm_create_address_space leave in each of the 512 words of the root, whose word 0 is present because the kernel tables are |
| Vmm.AddressSpaces.GiveBack | kernel/vmm.c:121-125 | a table frame that is in use and was not given back yet is freed, once |
| Vmm.AddressSpaces.FreePts | kernel/vmm.c:115-121 | each page table under one directory is freed exactly once |
| Vmm.AddressSpaces.FreePds | kernel/vmm.c:111-123 | each directory under one pointer table, and all below, is freed exactly once |
| Vmm.AddressSpaces.FreePdpts | kernel/vmm.c:108-126 | each table reachable through slots 1 to 510 is freed exactly once |
| Vmm.AddressSpaces.Destroy | kernel/vmm.c:105-130 | record, root and every table of slots 1 to 510 are given back, each exactly once and nothing else; free_pages grows by that count; every other space keeps its tables and leaves |
| Vmm.LeafCases | kernel/vmm.c:145-155 | which absent or huge word on the way decides the leaf of a page |
| Vmm.RightsOfLeaf | kernel/vmm.c:145-156 | when every word on the way is open to users, the hardware grants exactly the write, user and no-execute rights of the page word |
| Vmm.RightsOfHuge | kernel/paging.c:116-177 | at a 2 MiB page the hardware grants the write and no-execute rights of its word, and users nothing that the word refuses |
| Vmm.NewSpaceKeeps | kernel/vmm.c:84-103 | a new space keeps the tree, the frame accounting and every leaf |
| Vmm.DropSpaceKeeps | kernel/vmm.c:105-130 | after the frames of a space are free, the remaining tables are still a tree, none of them in a free frame |
| Vmm.SpaceFramesIff | kernel/vmm.c:105-130 | what a destroy gives back is the record and every table at a place of that space, and nothing else |
| Vmm.CreateDestroy | kernel/vmm.c:84-130 | a space that is created and at once destroyed leaves the tables and the free frames as they were |
| VmmRuns.Isolation | kernel/vmm.c:84-182 | over every run of create, map, unmap and destroy that unmaps no page under a huge page, a page in slots 1 to 510 keeps its leaf as long as no call names that page of that space; the tables stay a tree, and the space exists at the end if and only if it did at the start |
| VmmRuns.IsolationOfWalks | kernel/vmm.c:84-220 | the hardware walk and vmm_virt_to_phys answer as before through every run, unmaps under huge pages included, none of whose calls names the page or clears a word that its walk finds |
| VmmRuns.UnmapSparesIff | kernel/vmm.c:161-182 | a vmm_unmap, under a huge page or not, leaves a translation of any space alone if and only if there was none or its walk does not find the word that is cleared |
| VmmRuns.SharedSeenByAll | kernel/vmm.c:97-182 | a map in slot 0 or 511, made through any space, is what every space sees, and so is an unmap of a page that is not under a huge page; a huge page stays unless the word cleared leads to it |
| VmmRuns.MapTranslates | kernel/vmm.c:132-220 | after vmm_map, vmm_virt_to_phys returns frame plus offset for every byte of the page and, for every other page reached without a huge entry, what it returned before |
| Paging.HighestRam | kernel/paging.c:130-138 | no conventional descriptor ends above the result, and the result is 0 or the end of one |
| Paging.IdentityLimit | kernel/paging.c:130-150 | the limit is a multiple of 2 MiB; it reaches RAM, framebuffer end and 4 GiB if and only if rounding up does not pass 2^64, and then exceeds the largest of them by less than 2 MiB; it takes in every conventional descriptor, and the framebuffer if and only if its size in bytes fits in the 32 bits it is computed in or RAM reaches as far |
| Paging.RamTopIs | kernel/paging.c:134-138 | the maximum over the conventional descriptors bounds each of them and is attained |
| Paging.FramebufferBelow | kernel/paging.c:140-150 | the framebuffer lies below the limit if and only if its size fits in 32 bits or RAM alone takes the limit past it |
| Paging.FramebufferLeftOut | kernel/paging.c:140-150 | a framebuffer of 2^32 bytes at 4 GiB of which, with RAM below it, no byte is mapped |
| Paging.Builder.AllocTable | kernel/paging.c:108-114 | the bump allocator returns the next frame as an empty table and touches nothing else |
| Paging.Builder.FillDirectory | kernel/paging.c:157-163 | one page directory of the identity map holds the words below the limit and no others |
| Paging.Builder.IdentityMap | kernel/paging.c:152-164 | the nested loops build the identity half for every limit, stopping at 512 directories |
| Paging.Builder.HighMap | kernel/paging.c:166-177 | the loops build the higher half beside the identity half |
| Paging.WalkBuilt | kernel/paging.c:116-177 | the hardware walk of the finished tables gives the expected leaf at every page |
| Paging.ExpectedAddresses | kernel/paging.c:116-177 | the expected leaf maps v to v below the smaller of the limit and 512 GiB, not executable and uncached exactly at the two interrupt controllers; KERNEL_VIRT_BASE + x to x below 1 GiB, executable; nothing else; all of it writable and none of it open to users |
| Paging.BuiltIsTree | kernel/paging.c:116-177 | the finished tables form a tree and lie in the arena |
| Paging.PagingInit | kernel/paging.c:116-177 | for every memory map and framebuffer, walking the tables gives the expected leaf at every page; the tables are a tree in at most 516 frames after the kernel |
| Paging.RamIsMapped | kernel/paging.c:130-164 | every byte of conventional memory below 512 GiB is mapped to itself |
| Heap.FirstFit | kernel/kmalloc.c:90-96 | the search stops at the first free block that is large enough |
| Heap.ExtentHoldsIff | kernel/kmalloc.c:18-21 | the extent holds header and request if and only if the request is small enough for the 64-bit sums not to wrap, and then exceeds them by less than a page and 16 bytes |
| Heap.ExtentSaneIff | kernel/kmalloc.c:48-53 | the extent that is asked for is empty or holds the rounded size and a header, except for the one rounded size 2^64 - 16 |
| Heap.WrappedSizes | kernel/kmalloc.c:18-21 | that size asks for one page, and a request of 2^64 - 1 rounds to 0 |
| Heap.CoalesceHalves | kernel/kmalloc.c:38-46 | one pass at least halves the number of adjacent free pairs |
| Heap.CoalesceRun | kernel/kmalloc.c:38-46 | one pass turns a run of k free blocks into ceil(k/2) |
| Heap.FreeAddsTwo | kernel/kmalloc.c:118-126 | freeing a block adds at most two adjacent free pairs |
| Heap.TakeAddsNone | kernel/kmalloc.c:23-36 | splitting and taking a free block adds no adjacent free pair |
| Heap.TakeLastAddsNone | kernel/kmalloc.c:98-105 | splitting and taking a fresh extent at the end of the list leaves the number of pairs as it was |
| Heap.TotalCoalesce | kernel/kmalloc.c:38-46 | a coalescing pass loses and makes up no byte |
| Heap.LiveTake | kernel/kmalloc.c:82-105 | kmalloc adds one live block of at least the size asked for, and every other live block keeps its address and size |
| Heap.LiveFree | kernel/kmalloc.c:118-126 | kfree removes that live block and no other, whatever is merged |
| Heap.MergeIffTouching | kernel/kmalloc.c:41-44 | a merge covers exactly the bytes of its two blocks if and only if the second starts where the first ends |
| Heap.ApartCoalesce | kernel/kmalloc.c:38-46 | a pass whose merges all join touching blocks keeps the blocks disjoint |
| Heap.BytesKeptIff | kernel/kmalloc.c:38-46 | for disjoint blocks, a whole pass covers exactly the bytes it covered before if and only if each of its merges joins touching blocks |
| Heap.TouchingApart | kernel/kmalloc.c:23-46 | blocks that follow each other without gap are pairwise disjoint |
| Heap.DoKeeps | kernel/kmalloc.c:82-126 | of the value list alone: every kmalloc and every kfree of a live pointer keeps alignment and the bound of one adjacent free pair, and the total grows by exactly what was fetched |
| Heap.DoApart | kernel/kmalloc.c:82-126 | a kmalloc whose extent is clear of all blocks, and a kfree whose merges join touching blocks, keep the blocks pairwise disjoint |
| Heap.MallocSpares | kernel/kmalloc.c:82-105 | kmalloc leaves every live block where it is, with its size |
| Heap.MallocGives | kernel/kmalloc.c:82-105 | the pointer is the payload of a live block at least as large as the request and less than 64 bytes larger, at an address no live block had |
| Heap.MallocFailsIff | kernel/kmalloc.c:82-105 | kmalloc returns 0 if and only if the request is 0, or no free block is large enough and there is no extent or its size would wrap |
| Heap.PartsTight | kernel/kmalloc.c:23-36 | splitting wastes at most 48 bytes, and the block it leaves follows at once, ends where the old one did and has more than 16 bytes |
| Heap.FreeSpares | kernel/kmalloc.c:118-126 | kfree leaves every other live block where it is, with its size |
| Heap.ListKeeps | kernel/kmalloc.c:72-126 | of the value list alone, over every run: at most one adjacent free pair, alignment, and the total |
| Heap.RunKeeps | kernel/kmalloc.c:72-126 | in every state of every run whose extents are clear of the list and whose kfrees merge only touching blocks: no two blocks share a byte, at most one adjacent pair is free, addresses and sizes are multiples of 16, and sizes plus headers sum to the bytes taken from the frame allocator |
| Heap.OnePair | kernel/kmalloc.c:38-46 | at most one pair means: no two different adjacent pairs are both free |
| Heap.NeverThree | kernel/kmalloc.c:38-126 | in no state of any such run are three neighbours free |
| Heap.RunTiles | kernel/kmalloc.c:23-126 | if every new extent starts where the tail block ends, the blocks tile the heap in every state, and every call is one that the code follows |
| Heap.TilesRun | kernel/kmalloc.c:23-126 | so every run with contiguous extents is one of those |
| Heap.GapRun | kernel/kmalloc.c:23-126 | a run of six calls that is not: its fifth call, a kfree, merges across a gap over a live block, and its sixth leaves a free and a live block at one address |
| Kmalloc.SetHeader | kernel/kmalloc.c:92-93 | rewriting one header changes that block of the list and no other |
| Kmalloc.Unlink | kernel/kmalloc.c:41-44 | rewriting size and next of one header merges two neighbours of the list and keeps the rest |
| Kmalloc.LinkAfter | kernel/kmalloc.c:29-35 | writing a header inside a block and relinking splits that block and keeps the rest |
| Kmalloc.LinkLast | kernel/kmalloc.c:55-69 | a new header at the end of the chain becomes the last block |
| Kmalloc.KernelHeap.TakeBlock | kernel/kmalloc.c:23-36 | split_block and the clearing of the free flag turn the list into the specified one, provided the new header is not placed on a block of the list |
| Kmalloc.KernelHeap.ExpandHeap | kernel/kmalloc.c:48-70 | a whole extent becomes the last block of the list; without memory nothing changes; the allocator is charged for exactly its pages |
| Kmalloc.KernelHeap.LinkExtent | kernel/kmalloc.c:56-69 | a header written at the new extent becomes the last block of the list |
| Kmalloc.KernelHeap.FindTail | kernel/kmalloc.c:65-67 | the walk over next pointers ends at the last block |
| Kmalloc.KernelHeap.FindFit | kernel/kmalloc.c:90-96 | the walk over next pointers returns the address of the first fitting block, 0 if there is none |
| Kmalloc.KernelHeap.Candidate | kernel/kmalloc.c:82-105 | either the first fit or a new extent, never both |
| Kmalloc.KernelHeap.Alloc | kernel/kmalloc.c:82-105 | the linked list becomes what the specification says, by a call that continues the run of such calls since kmalloc_init; the extent is the lowest the frame allocator has; the pointer is the payload of a block that is not free and, where the sums do not wrap, at least as large as the request; a heap of touching blocks stays one if the extent follows the last block; the allocator is charged exactly |
| Kmalloc.KernelHeap.CoalescePass | kernel/kmalloc.c:38-46 | the loop over next pointers is one coalescing pass |
| Kmalloc.KernelHeap.Release | kernel/kmalloc.c:118-126 | kfree of a live pointer frees that block and coalesces; if every merge joins touching blocks, the run goes on; in a heap of touching blocks that is always so, and they go on touching; a null pointer changes nothing |
| Kmalloc.KernelHeap.FreeBlock | kernel/kmalloc.c:123-125 | the free flag and the pass over the list, with the frames still held if the merges touch |
| Kmalloc.KernelHeap.Kept | kernel/kmalloc.c:38-126 | between any two calls the list in memory has no two blocks that share a byte, no three free neighbours, and exactly the bytes taken from the frame allocator |
| Kmalloc.KernelHeap.Initialize | kernel/kmalloc.c:72-80 | the heap starts as one free block of the first extent |
| Kmalloc.KernelHeap.Replay | kernel/kmalloc.c:72-126 | any sequence of kmalloc and kfree calls by a client that frees what it was given, and with the extents the frame allocator gives never across a gap, continues the run |
| Kmalloc.TwoExtents | kernel/kmalloc.c:82-126 | the client that takes two extents and frees both is such a client if and only if the second extent follows the first, or there is none |
| Kmalloc.GapCycle | kernel/kmalloc.c:23-46 | the failing run in memory: the stores of split_block in its sixth call turn the header of a live block into a free one that links to itself |
| Kmalloc.WrappedSplit | kernel/kmalloc.c:23-36 | the size 2^64 - 16 in memory: split_block puts the new header inside the old one, and the list goes on to a free block whose size is its own address and then to an address without a header |
| Tasks.PickNearest | kernel/scheduler/task.c:69-80 | the circular scan finds the ready task at the smallest circular distance, and none only if no task is ready |
| Tasks.FreeSlot | kernel/scheduler/task.c:43-67 | the slot that is found never holds a live task |
| Tasks.FindPid | kernel/process.c:64-72 | the first used record with that pid |
| Stacks.StacksDisjoint | kernel/scheduler/task.c:180-235 | the kernel stacks of two tasks share no byte |
| Stacks.RecycledOk | kernel/scheduler/task.c:43-67 | freeing the stack of a zombie whose slot is reused leaves every other stack alone |
| Stacks.CreateKeeps | kernel/scheduler/task.c:180-235 | a new task has a stack of its own, a live heap block, and every other task keeps its own |
| Stacks.RunKeeps | kernel/scheduler/task.c:119-435 | over every run of kernel calls and of other kmalloc and kfree calls that do not free a stack, each live task has a stack, each stack is a live heap block, and no two tasks share one |
| Stacks.BootTasks | kernel/kernel.c:256-260 | the shell and the idle task have stacks of their own once kmalloc has given them |
| Stacks.BootHolds | kernel/kernel.c:256-276 | after the boot-time creations and spawns, whichever succeed, schedule() leaves a state from which such runs go |
| Lifecycle.ReapSafe | kernel/process.c:254-278 | no address space that is destroyed belongs to the current task or to any live task |
| Lifecycle.ReapKeeps | kernel/process.c:254-278 | reaping keeps the agreement of the two tables |
| Lifecycle.ReapFrees | kernel/process.c:254-278 | after a reap the record of an exited process can be taken again, and its space is gone, if and only if the space is not the one the call runs in |
| Lifecycle.UsableWhen | kernel/process.c:52-62 | a record can be taken again if and only if it is unused, or its process has exited and its space is gone |
| Lifecycle.SwitchKeeps | kernel/scheduler/task.c:119-154 | while idle is ready the scan always finds a task, so the branches that put a waiting or zombie task back to running are never taken; afterwards exactly the current task runs |
| Lifecycle.EnterKeeps | kernel/scheduler/task.c:131-153 | entering the chosen task leaves exactly one running task |
| Lifecycle.TickKeeps | kernel/scheduler/task.c:286-296 | a timer tick keeps the invariant |
| Lifecycle.SleepKeeps | kernel/scheduler/task.c:249-258 | a task other than idle going to sleep keeps the invariant |
| Lifecycle.WakeKeeps | kernel/scheduler/task.c:260-267 | a wake-up keeps the invariant |
| Lifecycle.YieldKeeps | kernel/syscall.c:109-114 | a system call that returned 0 keeps the invariant |
| Lifecycle.CreateKernelCore | kernel/scheduler/task.c:180-208 | a new kernel task keeps the tables in agreement and disturbs no live task |
| Lifecycle.SpawnCore | kernel/process.c:175-221 | a spawn, however it ends, keeps the tables in agreement and disturbs no live task |
| Lifecycle.ExitBetween | kernel/syscall.c:56-69 | sys_exit itself leaves a state from which the scan can choose |
| Lifecycle.ExitKeeps | kernel/syscall.c:56-69 | sys_exit and the switch after it keep the invariant |
| Lifecycle.VictimIsMain | kernel/scheduler/task.c:385-407 | the task that task_kill_pid finds is the one task of the process |
| Lifecycle.KillKeeps | kernel/process.c:300-316 | process_kill keeps the invariant |
| Lifecycle.WaitKeeps | kernel/process.c:318-341 | process_wait_poll keeps the invariant |
| Lifecycle.OneTask | kernel/process.c:175-221 | a live user task is the only live task with its pid, and the record found by that pid is its own |
| Lifecycle.KernelTasksReady | kernel/kernel.c:256-260 | after task_init the shell is task 0 and the idle task is task 1, ready and not for users |
| SchedulerRuns.RunKeeps | kernel/scheduler/task.c:119-435 | in every state of every run exactly the current task is RUNNING, idle is RUNNING or RUNNABLE, and task table and process table agree |
| SchedulerRuns.SelfCheckHolds | kernel/scheduler/task.c:409-435 | task_self_check returns 1 in every state of every run |
| SchedulerRuns.SwitchNearer | kernel/scheduler/task.c:119-154 | a runnable task that is not chosen comes strictly nearer to the scan |
| SchedulerRuns.WaitBudget | kernel/scheduler/task.c:69-296 | the circular distance of a waiting runnable task pays for every switch, and every fifth tick for one switch, whatever creates, wakes, kills and yields come in between |
| SchedulerRuns.BoundedWaiting | kernel/scheduler/task.c:69-296 | a task that stays runnable sees at most 14 switches and 74 ticks go by, so it is chosen by the fifteenth switch |
| Resuming.CallResumes | kernel/scheduler/task.c:119-154 | each call either switches once or not at all; a switch saves the stack pointer of the task it leaves, returns the saved pointer of the one it enters, counts it, and stays, returning 0, if and only if no other task is ready |
| Resuming.GoesOnWhereLeft | kernel/scheduler/task.c:119-154 | over every run, a task that is entered again goes on at the stack pointer given to the call that last left it |
| Resuming.StartsAtTop | kernel/scheduler/task.c:95-154 | over every run, a task that is entered for the first time starts at the topmost aligned frame of the stack it was made with, and that frame still leads to its entry point |
| Resuming.StartsAsItWas | kernel/scheduler/task.c:119-154 | a task that rests from the start of a run begins at the pointer it had there |
| Resuming.ZeroIffStays | kernel/scheduler/task.c:119-154 | over every run whose interrupt frames are not at 0, a call returns 0 if and only if the current task stays current |
| Resuming.BootFrames | kernel/kernel.c:256-276 | at the first schedule() every live task is at the topmost frame of its stack; the shell is entered, and the first two frames lead to the shell and the idle task |
| Resuming.FrameStays | kernel/scheduler/task.c:95-117 | no call changes the first frame of a live task |
| Resuming.CountsChanges | kernel/scheduler/task.c:144-151 | over every run switch_count is the number of times the current task changed |
| Resuming.FullSlice | kernel/scheduler/task.c:286-296 | between two ticks that take the processor away there are at least five ticks, the second included |
| Resuming.SleepsUntilWoken | kernel/scheduler/task.c:249-267 | over every run a task that went to sleep stays asleep until it is woken by its number |
| Resuming.WakesUp | kernel/scheduler/task.c:260-267 | the wake makes it runnable |
| Resuming.CountIff | kernel/scheduler/task.c:409-435 | the count of the self check is at most 1 if and only if no two tasks are running |
| SchedulerRuns.NeverUnderATask | kernel/process.c:254-278 | in every run, no reaping destroys the address space of the task it runs in or of any live task |
| SchedulerRuns.GoneThrough | kernel/process.c:254-341 | once the space of a process is gone, no later state of the run has it again |
| SchedulerRuns.DestroyedOnce | kernel/process.c:254-341 | in every run, the address space of a process is destroyed at most once |
| SchedulerRuns.OneTaskPerProcess | kernel/process.c:175-341 | in every state, a used process that has not exited has exactly one live task with its pid, and that task has its address space and a root |
| SchedulerRuns.SettledThrough | kernel/process.c:238-341 | once a process has ended with a code, that code or nothing is on record for its pid in every later state |
| SchedulerRuns.FirstCodeReported | kernel/process.c:238-341 | the code that wait reports is the one recorded by the first exit or kill, and no later call ends the process again |
| Results.WaitAnswers | kernel/process.c:318-341 | process_wait_poll answers -1, 0 or 1 as there is no record with the pid, one that has not exited, or one that has, and then with its code; it clears the record if and only if the process has exited and its space is gone, and changes nothing else |
| Results.KillAnswers | kernel/process.c:300-316 | process_kill answers -1, 0 or 1 by the same three cases; 0 means that exactly the one live task of the process and its record have ended with the code, and the other answers that nothing changed |
| Results.FreeSlotIff | kernel/scheduler/task.c:43-67 | a slot is found if and only if there is one without a live task; a stack is freed only when every such slot still has one |
| Results.CreateAnswers | kernel/scheduler/task.c:180-235 | task creation returns a slot if and only if there is one and memory for a stack; the new task is runnable, at the topmost aligned frame of its stack, and that frame leads to its entry point with interrupts on: in ring 0 on its own stack, or in ring 3 on the user stack; no other task changes but for the stack of a dead one |
| Results.SpawnAnswers | kernel/process.c:175-221 | a spawn returns the next pid if and only if the image is in a space, a record and a task slot can be had and there is memory for a stack; then exactly one record and one task are new, for that pid, that space and that entry point; otherwise no record and no live task changes |
| Results.WaitWhileRunning | kernel/process.c:318-341 | over every run, from the spawn that returned a pid until that process ends, a wait on it answers 0 and changes nothing |
| Results.WaitReports | kernel/process.c:238-341 | over every run, from the exit or kill of a process until its record goes, a wait on it answers 1 with the code it ended with |
| Results.LosesIff | kernel/process.c:52-341 | a record of an exited process goes exactly by a wait that finds its space gone, or by a spawn that takes its slot because no earlier one can be taken |
| Results.NeverRunsAgain | kernel/process.c:238-316 | over every run, no task is ever live again under the pid of a process that has ended |
| Results.ExitLeaves | kernel/syscall.c:56-69 | a task that exits is a zombie with its code, and another task is current and running |
| Results.SpacesGo | kernel/process.c:254-278 | after every call that reaps, the only exited process that still has a space is the one whose task the call ran in |
| SchedulerRuns.PidsNeverReused | kernel/process.c:175-221 | a later successful spawn returns a larger pid |
| SchedulerRuns.FirstSchedule | kernel/kernel.c:256-276 | whichever of the two boot-time spawns succeed, schedule() enters the shell in a state from which every run keeps the invariant |
| ElfImage.SegmentChecks | kernel/process.c:137-143 | a segment is fit to be loaded if and only if the checks pass as computed in 64-bit words and none of their sums wraps; where the checks pass, a wrap is exactly what they miss |
| ElfImage.WrapAccepted | kernel/process.c:138-143 | a segment that the checks let through although its file bytes begin outside every file |
| ElfImage.HeaderChecks | kernel/process.c:129-130 | where the check on the program headers passes, they lie in the file if and only if the sum does not wrap |
| ElfImage.HeaderWrapAccepted | kernel/process.c:129-130 | program headers that the check lets through although they begin outside the file |
| ElfFormat.HeaderFields | kernel/process.c:21-36 | the loader reads e_entry, e_phoff and e_phnum as the little-endian numbers at offsets 24, 32 and 56 |
| ElfFormat.SegmentFields | kernel/process.c:38-47 | it reads p_type, p_offset, p_vaddr, p_filesz and p_memsz of program header i at offsets 0, 8, 16, 32 and 40 of the 56 bytes from e_phoff + 56 * i on, and takes it for writable and executable by bits 1 and 0 of the byte at offset 4 |
| ElfFormat.CoversIff | kernel/process.c:134-151 | a segment covers a page if and only if its program header is of type 1 and its bytes in memory reach into the page |
| ElfFormat.SegmentOkIff | kernel/process.c:137-143 | a segment that takes memory passes the checks if and only if it has no more bytes in the file than in memory, these lie in the file, and every page it takes lies between the user limits |
| ElfFormat.LaidReads | kernel/process.c:21-47 | numbers laid out little-endian one after the other are read back from their places |
| ElfFormat.ImageDecodes | kernel/process.c:115-136 | a file whose header and program headers are laid out as the gABI says is accepted if and only if its magic and entry point are right, and the loader sees the very fields that were laid out |
| ElfImage.SegmentReads | kernel/process.c:134-169 | where no other segment supplies a file byte, a segment leaves its p_filesz file bytes and, up to p_memsz, what was there before |
| ElfImage.OverlayOutside | kernel/process.c:149-168 | outside the pages of the loaded segments the image changes nothing |
| UserPages.WriteKeeps | kernel/process.c:163-168 | a write to a frame of bytes keeps the page tables, every leaf and the frame accounting |
| UserPages.PageGrants | kernel/process.c:150-159 | in every state that spawns and loads lead to, each 4 KiB page of each user space lies behind a root word open to users, and the hardware grants the user what the page word says |
| UserPages.KernelShut | kernel/vmm.c:94-100 | in all these states the hardware refuses users every page of the maps of paging_init, although every root leads there |
| UserPages.NewPageStays | kernel/process.c:153-159 | mapping a new page leaves every page that was mapped, in every space, with its leaf and its bytes |
| UserPages.NewPageTidy | kernel/process.c:153-159 | after it, every 4 KiB page still maps a frame of bytes in use, no frame is behind two pages except through the shared slots, users can get to each of them and to no huge page |
| UserPages.CreatedTidy | kernel/process.c:180-181 | a new space disturbs no page and no byte, and its user can get to every page that is mapped in the shared slots |
| UserPages.DroppedTidy | kernel/process.c:184-187 | dropping a space disturbs no page that another one maps |
| UserPages.StackBytes | kernel/process.c:91-113 | the four stack pages are the 16 KiB below the top: each byte reads 0, and the user may write but not execute it |
| LoadSteps.LoadingPlace | kernel/process.c:145-160 | a page newly mapped for a segment starts out as all earlier segments want it, carries the permissions of the first segment that covers it, and disturbs no other page of any space |
| LoadSteps.LoadingStore | kernel/process.c:163-168 | storing one file byte changes the byte wanted there and no other byte of any page of any space, whether the page was mapped by this load or before it |
| LoadSteps.SegmentDone | kernel/process.c:134-169 | when all its pages are mapped and all its file bytes copied, a segment is loaded |
| LoadSteps.LoadedImage | kernel/process.c:115-173 | every page of the loaded segments reads as the image over what was there, and over zeros where nothing was mapped; a page mapped by the load is writable if and only if bit 1, and executable if and only if bit 0, of the flags byte is set in the first program header of the file to reach into it; a page mapped before keeps its permissions |
| LoadSteps.ImageOpens | kernel/process.c:115-193 | after a spawn every page that a program header reaches into lies behind a root word open to users, and the hardware grants what the flags byte of the first such header says, or what it granted before if the page was mapped before |
| LoadSteps.LoadHasEffect | kernel/process.c:115-173 | whatever could be read before the load, at any address of any space, reads as the image over it where the tables of the target space lead, and as before everywhere else |
| LoadSteps.SpawnChanges | kernel/process.c:180-193 | a spawn changes what other spaces read in the shared slots only, by the segments it loaded |
| LoadSteps.DropChanges | kernel/process.c:184-193 | when the spawn fails and its space is dropped, what it put in the shared slots stays |
| LoadSteps.IntactIff | kernel/process.c:115-193 | a byte that some space could read before a spawn is intact after it if and only if it lies outside the shared slots or the image puts the same byte there or none |
| LoadSteps.SecondImage | kernel/process.c:149-168 | two images with an address in common in a shared slot: the first process reads the second image over its own there, the same byte as the second process, so stale bytes stand where the second is due zeros |
| LoadSteps.TwoImages | kernel/kernel.c:267-268 | the same for all their addresses at once |
| LoadSteps.LinkAddressShared | user/user.ld:5-5 | the address both user images are linked at, and the 384 GiB from there, lie in a shared slot |
| Elf.Loader.TakeZeroed | kernel/process.c:153-157 | a frame that was free, filled with zeros, or 0 if and only if there is none |
| Elf.Loader.MapZeroed | kernel/process.c:153-159 | the page is mapped to a fresh zeroed frame with exactly the requested rights; everything mapped before keeps leaf and contents |
| Elf.Loader.Probe | kernel/process.c:150-151 | vmm_virt_to_phys is non-zero exactly for a mapped page, and then names its frame and offset |
| Elf.CheckHeader | kernel/process.c:118-130 | without wrap-around, the checks on the file header accept exactly an ELF header with a user entry point and its program headers in the file |
| Elf.Loader.MapOne | kernel/process.c:149-160 | one turn of the page loop: the page is mapped afterwards, no page that was mapped is lost, and the load is where it should be even when memory ran out |
| Elf.Loader.MapSegment | kernel/process.c:149-160 | after the page loop every page of the segment is mapped; it stops early only for want of memory |
| Elf.Loader.StoreByte | kernel/process.c:163-168 | one turn of the byte loop: the walk always leads to a mapped page, no leaf and no page table is altered |
| Elf.Loader.CopySegment | kernel/process.c:162-168 | the byte loop completes, loads the file bytes, and alters no page table |
| Elf.Loader.LoadSegment | kernel/process.c:134-169 | a segment is skipped, rejected by a check, or loaded |
| Elf.Loader.LoadSegments | kernel/process.c:134-169 | the segment loop: after it the segments it got through are loaded; it stops early only for a segment that fails its checks or for want of memory |
| Elf.Loader.Load | kernel/process.c:115-173 | what every address of every space reads afterwards, on success and on rejection, is determined by the segments that were loaded; pages it maps get the permissions that the bytes of the file ask for, and pages mapped before keep theirs; on success every segment passed its checks and is loaded, and the entry point is returned; it fails only for an image that breaks a check or for want of memory |
| Elf.Loader.ReadsThroughWalk | kernel/vmm.c:197-220 | what reading an address gives is the byte that the walk of vmm_virt_to_phys leads to |
| Elf.Loader.MapStack | kernel/process.c:91-113 | four zeroed pages below the top of the stack are mapped for the user, writable and not executable; every page mapped before, in any space, keeps its leaf and its bytes |
| Elf.Loader.NewSpace | kernel/process.c:180-181 | a new space changes no translation and no data |
| Elf.Loader.DropSpace | kernel/process.c:184-187 | destroying a space disturbs no data page that another space maps |
| Elf.Loader.MakeSpace | kernel/process.c:180-193 | in a new space the image can be read, over what the shared slots held before; the user has the access to each of its pages that the file asks for, or that the page had before, and 16 KiB of zeros to write below the top of the stack; or on any failure the space is destroyed again and the set of spaces and roots is what it was; either way every other space reads as before except for the loaded segments in the shared slots |
| Scheduler.ReapCoupled | kernel/process.c:254-278 | after reaping, the user address spaces that exist are exactly those a process record still holds, and live tasks run on existing roots |
| Scheduler.SpawnCoupled | kernel/process.c:175-221 | a successful spawn adds one space, held by one record, with its task running on its root |
| Scheduler.SpawnFails | kernel/process.c:195-200 | when no task can be made, dropping the space again leaves spaces and records in step |
| Scheduler.PickedRoot | kernel/scheduler/task.c:82-93 | the task that is chosen passes the assertions of task_switch_address_space |
| Scheduler.Machine.constructor | kernel/scheduler/task.c:156-178 | task_init and process_init give the initial tables, in step with the page tables |
| Scheduler.Machine.Cr3Live | kernel/scheduler/task.c:82-93 | after every completed call CR3 holds the root of an address space that exists |
| Scheduler.Machine.PickNextRunnable | kernel/scheduler/task.c:69-80 | the loop computes the specified circular scan |
| Scheduler.Machine.FindFreeSlot | kernel/scheduler/task.c:43-67 | the loops find the specified slot and clear the stack of a reused zombie, and nothing else |
| Scheduler.Machine.CreateTask | kernel/scheduler/task.c:180-235 | the in-place creation is the specified one, including the failures after the slot was chosen |
| Scheduler.Machine.CreateKernelTask | kernel/scheduler/task.c:180-208 | a kernel task is added and the tables stay in step with the page tables |
| Scheduler.Machine.ReapDeferred | kernel/process.c:254-278 | the loop performs the specified reaping, destroys exactly the doomed spaces through vmm_destroy_address_space, and keeps tables and page tables in step |
| Scheduler.Machine.PutCurrentAway | kernel/scheduler/task.c:123-129 | the in-place store is the specified one: the stack pointer of the current task is saved and, if it was running, it becomes runnable; Resuming.GoesOnWhereLeft says what the saved pointer is for |
| Scheduler.Machine.RunNext | kernel/scheduler/task.c:131-153 | the chosen task becomes current and CR3 its root |
| Scheduler.Machine.ContextSwitchFrom | kernel/scheduler/task.c:119-154 | the in-place switch and the pointer it returns are the specified ones, of which Resuming.SwitchResumes says what they are; it re-establishes the full invariant, CR3 included |
| Resuming.SwitchResumes | kernel/scheduler/task.c:119-154 | a switch saves the stack pointer it was given, enters the ready task that the scan finds and returns the pointer saved for it, or stays, returning 0, if and only if no other task is ready; only the task it enters is counted |
| Scheduler.Machine.ScheduleOnTick | kernel/scheduler/task.c:286-296 | the in-place tick is the specified one and keeps the full invariant |
| Scheduler.Machine.TaskSleep | kernel/scheduler/task.c:249-258 | the in-place sleep is the specified one and keeps the full invariant |
| Scheduler.Machine.TaskWake | kernel/scheduler/task.c:260-267 | the in-place wake-up is the specified one and keeps the full invariant |
| Scheduler.Machine.AllocProcessSlot | kernel/process.c:52-62 | the loop finds the first usable record |
| Scheduler.Machine.FindProcess | kernel/process.c:64-72 | the loop finds the first used record with that pid |
| Scheduler.Machine.FindTask | kernel/scheduler/task.c:389-392 | the loop finds the first live task with that pid |
| Scheduler.Machine.TaskExited | kernel/process.c:238-252 | the record is marked as specified |
| Scheduler.Machine.SysExit | kernel/syscall.c:56-69 | the in-place exit and switch are the specified ones and keep the full invariant |
| Scheduler.Machine.SysYield | kernel/syscall.c:109-114 | the in-place yield and switch are the specified ones and keep the full invariant |
| Scheduler.Machine.ProcessKill | kernel/process.c:300-316 | the in-place kill and its answer are the specified ones, which Results.KillAnswers gives case by case; it keeps the full invariant |
| Scheduler.Machine.WaitPoll | kernel/process.c:318-341 | the in-place poll, its answer and its code are the specified ones, which Results.WaitAnswers gives case by case; it keeps the full invariant |
| Scheduler.Machine.SelfCheck | kernel/scheduler/task.c:409-435 | the loop answers exactly whether the self-check holds |
| Scheduler.Machine.EnterProcess | kernel/process.c:195-210 | task and record are entered as specified, with the pid used up even on failure |
| Scheduler.Machine.FinishSpawn | kernel/process.c:195-221 | the process enters the tables with its space, or its space is destroyed; tables and page tables stay in step either way |
| Scheduler.Machine.SpawnFromElf | kernel/process.c:175-221 | the spawn and its answer are the specified ones, for an image in a space that no record held, with the entry point of the file and the top of the stack; on success the process can begin there: its image is in place, it has access to every page of it, and a zeroed stack; however it ends, tables and page tables stay in step and every other space reads as before except for the loaded segments in the shared slots |
| Boot.InitMemory | kernel/kernel.c:133-158 | after paging_init, pmm_init and vmm_init the kernel translates as paging_init built it, no frame of its tables is free, and every invariant the later calls rely on holds |
| Boot.NoData | kernel/paging.c:116-177 | the tables of paging_init map no 4 KiB page and open nothing to users |
| Boot.InitFrames | kernel/kernel.c:141-154 | after pmm_init, kmalloc_init and the shadow buffer no frame between the kernel image and the end of the page tables is free |
| Boot.SpawnBoth | kernel/kernel.c:267-268 | when both boot-time spawns succeed, the two processes read one memory wherever the first image lies in a shared slot: the second image over the first |
| Boot.Start | kernel/kernel.c:256-276 | after the boot-time creations and spawns, schedule() enters the shell with the full invariant |
| Boot.KernelMain | kernel/kernel.c:133-276 | from paging_init to schedule(), for images whose segments lie above the identity map, the full invariant is established |
| Boot.ClearIffAbove | kernel/paging.c:140-164 | with the tables of paging_init an image has no page under a huge page if and only if its segments lie above the identity map |
| Boot.LinkedImageIff | user/user.ld:5-5 | an image at the link address is clear of huge pages if and only if max_memory is at most 128 GiB |
| Boot.Perform | kernel/scheduler/task.c:119-435 | every call that a run is made of, except a spawn, made in place does to the tables what the run says, returns the pointer and the answer that the run says, and keeps the full invariant |
| Boot.SpawnIsStep | kernel/process.c:175-221 | a spawn made in place is a step of a run |
| Syscall.UserRangeValid | kernel/syscall.c:15-32 | for every start and length, wrap-around included, the page-by-page check accepts exactly the ranges below USER_TOP whose every byte lies in a mapped page or under a huge page whose first frame holds, for it, a present word that names a frame other than 0 |
| Syscall.AcceptedIff | kernel/syscall.c:15-32 | a range is accepted although it is not mapped if and only if the check passes and some byte of it is found through a huge page in that way; every mapped range is accepted |
| Syscall.AcceptedUnmapped | kernel/syscall.c:15-32 | such a range, in a state with sound tables and a user space: one byte under an identity page whose first bytes look like a table word |
| Syscall.Write | kernel/syscall.c:34-54 | sys_write returns the number of bytes for exactly the ranges that the check accepts, -22 for more than 4096 bytes and -14 otherwise, and 0 exactly for an empty one |
| Syscall.SpawnCall | kernel/syscall.c:76-83 | sys_spawn performs the specified spawn and returns its pid; an unknown image or a failed spawn gives -12, and no result is taken for a request to switch |
| Syscall.Dispatch | kernel/syscall.c:92-117 | for every register value: exit, yield and an empty write give up the processor as specified, exit with -11 in rax; every other call returns to its caller with the tables unchanged but for what a spawn adds: getpid gives the pid of the process whose task is calling, write what Write says, and an unknown number -38 |
| Display.Screen.constructor | kernel/display.c:80-92 | display_init and display_set_shadow: no row is dirty and the cursor is home |
| Display.Screen.PutPixel | kernel/display.c:107-115 | one shadow pixel changes and its row is marked; a pixel off the screen changes nothing |
| Display.Screen.DrawChar | kernel/display.c:117-129 | exactly the pixels of the glyph box that are on the screen take the colour of their glyph bit, and every changed row is marked |
| Display.Screen.CopyUp | kernel/display.c:57-65 | the forward word copy moves the pixels although source and destination overlap |
| Display.Screen.FillRows | kernel/display.c:67-70 | exactly the rows from the given one on become background |
| Display.Screen.MarkAll | kernel/display.c:74-77 | every row of the screen is marked |
| Display.Screen.Scroll | kernel/display.c:55-78 | the picture moves up ten rows, the last ten are background, every row is marked; an odd number of moved pixels leaves the last one behind |
| Display.Screen.Clear | kernel/display.c:213-228 | the shadow is background, every row is marked, and from here on clean rows agree |
| Display.Screen.NewLine | kernel/display.c:148-153 | the cursor goes to the start of the next line, or the picture scrolls and it stays on its line; every changed row is marked |
| Display.Screen.PrintChar | kernel/display.c:146-181 | the cursor moves as specified and stays on the screen; the picture gains exactly the glyph, or a blank on backspace, and scrolls exactly when the next line would not fit; every changed row is marked |
| Display.Screen.Print | kernel/display.c:183-186 | the characters before the first 0 are printed one after the other; every changed row is marked |
| Text.LineShows | kernel/display.c:117-186 | a text without control characters that fits on its line shows each character in its own eight columns and eight rows, and changes no other pixel; the cursor is behind it |
| Text.InkBit | kernel/display.c:121-125 | a pixel of a glyph has the text colour if and only if the bit of its row with the number of its column is set |
| Text.TextFlows | kernel/display.c:146-181 | where the cursor is after n characters from the start of a line: n modulo the characters of a line, and as many lines on as are full, down to the last |
| Text.BackspaceUndoes | kernel/display.c:146-181 | a character and a backspace on one line: the cursor is back and the box is blank, and the picture is the old one if and only if the box was blank before |
| Text.BackspaceReturnsIff | kernel/display.c:146-181 | the cursor is back if and only if the character did not end the line, or ended it at the right edge without a scroll |
| Text.ScrollMovesRows | kernel/display.c:55-78 | if the number of moved pixels is even, a scroll takes each row exactly ten rows up and leaves ten rows of background |
| Display.MarksAgree | kernel/display.c:25-78 | drawing that marks what it changes keeps every clean row equal in shadow and framebuffer |
| Display.Screen.FlushRow | kernel/display.c:41-49 | one row is copied in 64-bit words and nothing else changes |
| Display.Screen.Flush | kernel/display.c:34-53 | copying the dirty rows leaves what copying every row would; the framebuffer equals the shadow if and only if the pitch is even or the last column agreed already |
| Display.EqualIff | kernel/display.c:34-53 | buffers that agree in every copied column are equal exactly if the left-over column agrees |
| Display.LastColumnIff | kernel/display.c:44-47 | the column that no flush copies is the last one of an odd pitch, and none of an even one |
| Display.OddPitchShows | kernel/display.c:34-53 | a screen of pitch 3 on which a flush leaves the last pixel of a row black under a white shadow |
| Display.Screen.Replay | kernel/display.c:25-228 | any sequence of prints, clears and flushes leaves the picture that the calls make one after the other; every clean row agrees and the column outside the 64-bit words is never written; after a final flush the framebuffer equals the shadow if and only if the pitch is even or the last column held the right pixels from the start |
| Aml.Decodes | kernel/acpi.c:212-278 | a definition of _S5_ decodes to the low bytes of its first two elements as the search reads them, for every prefix, every PkgLength of one to four bytes and whatever surrounds it |
| Aml.Defined | kernel/acpi.c:212-278 | whatever decodes is such a definition |
| Aml.ConstantReads | kernel/acpi.c:252-273 | an AML integer constant is read as the low byte of its value and passed over whole if and only if it is not a DWordConst or a QWordConst; of those only the prefix is read, as if that byte were the element |
| Aml.ReadElement | kernel/acpi.c:252-273 | one element is read inside the buffer, or found to be cut off |
| Aml.TryAt | kernel/acpi.c:222-277 | the tests at one position accept exactly what decodes there |
| Aml.ExtractS5 | kernel/acpi.c:212-281 | the answer is the first position that decodes, none if and only if there is none, and every read is inside the table |
| Aml.AnswerIs | kernel/acpi.c:212-281 | for a table whose first decodable definition is the given one, the answer is the low bytes of its elements, whatever follows |

## Left out

- Preemption inside a kernel call: steps are whole calls, although interrupts stay on in kernel tasks.
- The saved register frames of user tasks, the TSS and its single rsp0: no claim that two frames are kept apart.
- Keyboard, shell, klog, history, printing of log lines: user interface and easy buffers; no claim that every key press wakes the shell.
- gdt.c, tss.c, idt.c, isr.S, syscall_entry.S, percpu.c, boot.S: register loads and assembly; CR3 is one field, TLB flushes are omitted.
- pic.c, apic.c, irq.c, timer.c, serial.c, rtc.c: port and MMIO access; the timer is an event.
- ACPI table discovery, parse_madt and the power-off port writes: raw firmware pointers.
- clear_screen, print_hex, print_dec, and drawing before a shadow buffer is set: easy members.
- kzalloc, process_is_active, process_count_active, process_dump_table, task_print_stats: easy members.
- vmm_switch, paging_remove_identity_map and the CR3, CR0 and EFER writes of paging_init: register loads.
- The int width of next_pid, and the 64-bit width of switch_count: pids and counts are unbounded.
- Physical addresses above 2^52 and memory-map sums that wrap at 2^64 in pmm_init and paging_init: not modelled.
- VmmRuns.Isolation: the hypothesis that no call unmaps a page under a huge page is needed, as `Samples.UnmapElsewhere` shows; a run has no state after a fault or after the tables were broken.
- Elf.CheckHeader: assumes that no 64-bit sum over the header fields wraps; what the checks miss otherwise is in `ElfImage.SegmentChecks` and `ElfImage.HeaderChecks`.
- Elf.Loader.Load: assumes the same, and that no target page lies under a huge page, where the loader would write through a word of data read as a table word.
- Elf.Loader.LoadSegment: assumes the same for its segment.
- Elf.Loader.MakeSpace: assumes the same of its image.
- Scheduler.Machine.SpawnFromElf: assumes the same of its image.
- Boot.SpawnBoth: assumes the same of its two images.
- Boot.Start: assumes the same of the two images linked into the kernel; `Boot.KernelMain` asks instead that they lie above the identity map.
- Syscall.SpawnCall: assumes the same of the two images linked into the kernel.
- Boot.InitMemory: assumes disjoint conventional descriptors, as firmware gives them; otherwise free_pages is wrong from the start (`Pmm.CountIffDisjoint`).
- Boot.InitFrames: assumes the same.
- Elf.Loader.MapZeroed: called for user pages of the lower half, as the loader and the stack do.
- Elf.Loader.MapStack: if the image already mapped a stack page, vmm_map's assertion is the outcome.
- Heap.DoKeeps: of the value list; the list in memory follows it only while no merge crosses a gap.
- Heap.ListKeeps: the same.
- Kmalloc.KernelHeap.TakeBlock: assumes that the new header does not land on a listed block, which disjoint blocks ensure and `Heap.GapRun` breaks.
- Kmalloc.KernelHeap.Release: assumes a live pointer; the code does not check.
- Kmalloc.KernelHeap.Alloc: assumes that no earlier kfree merged across a gap, and a request that does not round to 2^64 - 16 bytes.
- Scheduler.Machine.CreateTask: kmalloc's answer for the stack is a parameter, which module `Stacks` ties to the heap; of the first frame, the registers that are cleared are not modelled.
- Stacks.RunKeeps: a world of values; the methods of `Scheduler.Machine` and `Kmalloc.KernelHeap` are not run together.
- Scheduler.Machine.FindFreeSlot: its second loop, which looks for a subset of what the first one looked for, is omitted.
- Lifecycle.KillKeeps: the kill comes from a kernel task, as in the shell.
- SchedulerRuns.OneTaskPerProcess: says only that the task has a root; that it is the root of its space is part of `Scheduler.Machine.SpawnFromElf` and its companions.
- Scheduler.Machine.ProcessKill: called from a kernel task, as the shell does; a process that kills itself through process_kill is not modelled.
- Syscall.Write: the printing is omitted.
- Display.Screen.constructor: assumes a screen no wider than the pitch and between 11 and 2160 rows high.
- Display.Screen.DrawChar: the bytes behind the font, which a character from 128 on shows, are taken as fixed.
- Display.Screen.PrintChar: assumes a screen no wider than the pitch and between 11 and 2160 rows high.
