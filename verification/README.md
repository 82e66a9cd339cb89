# HiveRK in Dafny

HiveRK is a kernel for x86 machines without memory protection: a small core (the
"Queen") that finds modules ("bees") on the boot disk, loads and links them, and passes
calls between them. This project models the parts of it that are algorithms over mutable
state and proves what they do.

The model follows the C code: memory is one `array<byte>`, structs are bytes in it at the
offsets of the source, 32-bit and 16-bit arithmetic wraps where the source wraps, loops are
loops. What a structure in memory means is said by predicates over snapshots of memory
(`Mem`), and every method is proved against them.

| module | what it models |
|---|---|
| `Ram` | bytes, little-endian halfwords and words |
| `HeapChain`, `HeapBytes`, `Heap`, `HeapRuns` | the memory manager: meaning by sets of live blocks, headers in memory, `kmalloc` and `kfree`, whole runs |
| `Disk`, `BootScan` | the search for modules on the disk, and what the boot loop finds |
| `ModuleFormat`, `Loader`, `Linker`, `NamePages` | module files, data pages, lookup nodes, the chain of name pages |
| `KernelLayout`, `KernelTables`, `Kernel` | where everything lies in the bump area, loading and linking, calls, the order of the inits |
| `HandlerWord` | the handler's address at 0x6000: what storing it damages, and what damages it |
| `Answers`, `Linkage` | what a call is answered from memory, from the tables, and without addresses |
| `CoreCalls` | the core's own commands, and the memory manager taking over from the bump allocator |
| `InitRun` | the inits with what they ask of the core, and the whole boot |
| `Terminal`, `Format` | the text screen as a window on an endless sheet; `print` |
| `Numbers` | decimal, hexadecimal and binary text |
| `Keyboard` | the ring of key events |
| `Timer` | ticks, frequencies and sleeping |

## Main results

* **Heap.** `kmalloc` returns the lowest window of free units and fails exactly when there is none
  (`Heap.Heap.Kmalloc` with `HeapChain.AllocStep`). The whole chain, headers included, is a function of
  the set of live blocks (`HeapChain.Canonical`, `HeapRuns.HeadersDetermined`), so frees commute, a `kfree`
  undoes a `kmalloc`, and freeing everything in any order gives back the first chain. No operation changes a
  byte of a live payload.
* **Boot.** `InitRun.Boot` takes a disk to a running core: exactly the modules between paired magics,
  in disk order, at places that are a function of the disk (`BootScan.LayoutAfter`), with every name, data
  page and lookup node in place and no two regions overlapping, and the inits called in the order of a stable
  sort by priority, each with its own CoreData, whatever commands they give to the core in between.
* **Calls.** Any call at all: id 0 is the core; for any other id, an exported command reaches load base plus
  exported offset; any other command is refused exactly within the table of its module or where 0 lies behind
  it, and an unknown module exactly if no empty slot reads as its id (`Kernel.Kernel.Dispatch` and
  `CoreCalls.Core.Handle` with `Answers.AnswerIff` and `Linkage.CallMeans`). Machines booted from disks with
  the same module files in different orders answer alike whatever lies within the tables
  (`Linkage.DisksAlike`). From the bytes of a disk to the address jumped to: `Linkage.BytesToCalls`.
* **Handover.** Global storage never moves and never overlaps anything; after the memory manager takes
  over, the heap is apart from all that the bump allocator handed out; and no command of the core and no call
  changes a byte of a loaded module, a page, anyone's storage or a live heap block, be it one command
  (`CoreCalls`) or all that the inits ask for (`InitRun.RunInits`). After a boot every image is in memory as
  on disk, as far as the handler word spares it (`InitRun.Boot`).
* **Screen.** Printing refines writing on an endless sheet of 80 columns; `print` is tokenising followed by
  rendering, for every format string; what each directive and color prints is said by reading the characters
  (`Format.HexPrinted` and the rows after it).
* **Numbers, keyboard, timer.** From an argument to the number that is read in its text
  (`Numbers.DecimalMeans`); every key event is delivered, still to be had, or lost in a lap of 64, and its
  bytes are a function of the scan codes typed (`Keyboard.Keyboard.GetKey`); the exact error of a sleep.

## Where the code falls short

The member named with each says exactly what happens, and when.

* The handler's address is stored at 0x6000 (queen/main.c:881-882), but the bump area starts at 0x4000
  (queen/main.c:8). An image or a data page that covers that place survives exactly if its bytes there are
  that address already (`HandlerWord.HandlerWordInImage`, `HandlerWord.HandlerStoredIff`); a data page right
  at it only if its module was loaded at the handler's own address (`HandlerWord.DataPageAtHandler`). Name
  pages are never there (`HandlerWord.NamePagesClear`).
* The word itself can be lost again. After linking it is what a lookup node has at that place, if one lies
  there, and the handler's address exactly otherwise or if the two are equal (`HandlerWord.HandlerIntactIff`);
  a node lies there exactly if the bump pointer passes the place while linking (`HandlerWord.SomeNodeCovers`).
  Global storage clears it exactly where its bytes were not 0 (`HandlerWord.ClearedHandlerIff`), and the heap
  begins behind it exactly if the bump area ends above 0x5FF8 (`CoreCalls.HeapClearIff`). The memory manager's
  allocator reads the word (bees/memory/memory.c:38), so `CoreCalls.Core.CoreAlloc` asks that it is intact.
* The documentation says a module with an empty name is not registered (doc:198-201). In the code the first
  empty name ends every walk, so it hides all modules behind it as well (`KernelTables.EmptyNameHides`).
* The test for a missing end magic (queen/main.c:270) can never succeed, because 4 was added before. An odd
  magic at the end is dropped exactly when it starts at byte 1024 or later; below that, the loader returns
  an address with nothing loaded there, and the next scan starts over at byte 4
  (`BootScan.ScannedWithoutEnd`). With a lone magic at byte 512 no
  scan ends the boot loop (`BootScan.LoneMagicLoops`).
* A request whose rounded size wraps to 0 units links a free block to itself, after which memory
  represents no chain at all; this happens exactly when there is a free block
  (`Heap.Heap.Kmalloc`). Up to 4194232 bytes a block holds what was asked for, and beyond that never
  (`Heap.UnitsHoldPayload`). The smallest such request is 4194233 bytes (`HeapRuns.FirstWrappedRequest`).
* `kfree` of a block that is free never returns (`Heap.Heap.Kfree`, result `spins`).
* `alloc` clears four times the bytes it hands out (queen/main.c:711-714), so it needs that much memory
  (`Kernel.Kernel.Alloc`). The documentation says global storage is zeroed; storage from the heap keeps the bytes
  that were there (`CoreCalls.Core.NewGlobal`).
* `lookupID` reads empty slots through a null pointer (queen/main.c:705), so an unknown id is reported as
  unknown exactly when it differs from the word at address 0 or there is no empty slot (`Answers.UnknownIff`).
* Id 0 is the core itself (queen/main.c:726), so a module registered with id 0 is never called: a registered
  module can be called exactly if its id is not 0 and no module before it has the same
  (`Answers.ReachableIff`, `Answers.IdZeroIsTheCore`).
* The function is read from its slot once to be tested and once more, after the arguments were stored in the
  node, to be jumped to (queen/main.c:775-788). The two words are the same exactly if the slot is none of the
  two words stored to, or holds the same (`Answers.JumpIsTestedIff`); commands 0x3FFFFFFC and 0x3FFFFFFD, up to
  the upper two bits, have just these slots (`Answers.StoredSlotIff`), and jump to whatever the caller passed.
* An exported offset that wraps to address 0 reads as not exported (`Linkage.CallMeans`).
* The command is not checked against `numFuncs` (queen/main.c:775). Behind its table, a module refuses a
  command exactly if the memory there holds 0 (`Answers.AnswerIff`); the first command behind it jumps to the
  id of the next module (`Answers.BehindTheTable`), so there the order of the modules does matter. The upper
  two bits of a command are lost (`Answers.CommandsAlias`).
* Ids are compared as signed integers (queen/main.c:806-810), so one of 2^31 or more never becomes the
  largest id and its slot is computed from a negative number. The entries stay inside the node exactly for the
  ids of `Linker.EntriesInsideIff`, but even there 0x80000001 takes the slot of command 1 and 0xFFFFFFFE the
  pointer to global storage (`Linker.WrongEntries`). `Linker.MakeNode` and the boot ask that exported ids are
  smaller, and then every entry has its own slot (`Linker.SmallIdsInside`).
* Command 5 may set any function. Going back to the bump allocator once there is a heap is safe only as
  long as storage ends below the heap (`CoreCalls.Core.RoomForGlobal`).
* `%#$` resets the color and then prints the dollar (`Format.DollarIsPrinted`).
* Negative 8-bit and 16-bit numbers print as their bits without sign (`Numbers.DecimalCorrectIff`).
* Binary text of 32 bits takes 33 bytes; `print` gives it 32 (bees/display/display.c:118). The buffer of the
  model has 33.
* The ring of key events has no test for being full: 64 pending events become none (`Keyboard.SixtyFourPushes`).
* Below 19 Hz the chip gets only 16 bits of the divisor (bees/PIT/PIT.c:84), and above its own clock it gets 0
  (`Timer.RegisterIff`); at 18 Hz a second's sleep is far too short (`Timer.TooSlow`).
* A sleep whose target wraps round ends at once (`Timer.WakesAtOnceIff`), and one whose product of
  frequency and time does not fit 32 bits is too short (`Timer.TicksForIff`).

## Model

| member | source | states |
|---|---|---|
| Heap.UnitsHoldPayload | bees/memory/memory.c:27-30 | the units hold header and payload exactly up to 4194232 bytes, and then there are no fewer that would |
| Heap.HeapAfterBump | bees/memory/memory.c:46 | the heap starts at or after the bump end exactly when that end is at most 4194232 |
| Heap.Heap.constructor | bees/memory/memory.c:40-53 | one free block of 16384 units above the bump area; nothing outside the heap changes |
| Heap.Heap.Kmalloc | bees/memory/memory.c:55-88 | every request: null for size 0, else the lowest window of free units or nothing exactly when there is none; live payloads and the payload handed out keep their bytes; a wrapped size destroys the chain exactly when a block is free |
| Heap.Heap.Claim | bees/memory/memory.c:69-82 | the chain after taking a block, whole or split, and the self-link when no units are asked for |
| Heap.Heap.Kfree | bees/memory/memory.c:89-118 | the block leaves the live set and the chain is coalesced again; spins exactly on a free block; live payloads keep their bytes |
| Heap.Heap.JoinNext | bees/memory/memory.c:103-106 | joining with a free successor, in the chain and in the headers |
| Heap.Heap.JoinPrevious | bees/memory/memory.c:108-117 | the walk ends at the block, and a free predecessor swallows it |
| HeapChain.FirstFitIsLowest | bees/memory/memory.c:66-83 | in a coalesced chain the first block that fits is the lowest window of free units |
| HeapChain.NoFitNoWindow | bees/memory/memory.c:66-87 | if no block fits there is no window at all, which needs coalescing |
| HeapChain.Canonical | bees/memory/memory.c:69-81 | two coalesced chains with the same live blocks are the same chain |
| HeapChain.TakenIsAllocStep | bees/memory/memory.c:69-82 | first fit with splitting is the meaning of an allocation |
| HeapChain.ReleasedIsFreeStep | bees/memory/memory.c:101-117 | marking free and joining both ways is the meaning of a release |
| HeapRuns.RunKeepsChain | bees/memory/memory.c:46-118 | after any sequence of first-fit allocations and joining releases from the start, the blocks tile the heap, their units sum to 16384, and no two neighbours are free |
| HeapRuns.AllocDetermined | bees/memory/memory.c:64-87 | whatever meets the meaning of an allocation is the outcome of first fit and split |
| HeapRuns.Serve | bees/memory/memory.c:54-118 | the manager itself, driven through any such sequence of kmalloc and kfree, has the chain of that run in memory |
| HeapRuns.FirstWrappedRequest | bees/memory/memory.c:27-30 | 4194233 bytes ask for no unit, and every size from 1 to 4194232 asks for at least one |
| HeapRuns.RunsAgree | bees/memory/memory.c:46-118 | runs that leave the same blocks live leave the same chain |
| HeapRuns.AllocDeterministic | bees/memory/memory.c:64-87 | a request has one outcome |
| HeapRuns.FreesCommute | bees/memory/memory.c:89-118 | two frees give the same chain in either order |
| HeapRuns.AllocThenFree | bees/memory/memory.c:55-118 | freeing what was just allocated restores the chain |
| HeapRuns.FreeAll | bees/memory/memory.c:89-118 | freeing all live blocks in any order gives back the one free block |
| HeapRuns.HeadersDetermined | bees/memory/memory.c:14-19 | the header bytes of every block are a function of the live set |
| HeapRuns.PayloadHoldsRequest | bees/memory/memory.c:27-30 | a payload has room for the bytes asked for exactly up to 4194232 |
| HeapRuns.FreshHeapServes | bees/memory/memory.c:46-87 | a fresh heap serves sizes from 1 to 1048568 at its start, and no larger one up to 4194232 |
| HeapRuns.HeaderBytes | bees/memory/memory.c:14-19 | where units, free flag and next address of block i are, byte by byte, and the payload 8 bytes behind |
| HeapBytes.PayloadsDisjoint | bees/memory/memory.c:82 | live payloads do not overlap and lie in the heap |
| HeapBytes.PayloadWriteKeepsChain | bees/memory/memory.c:14-19 | writing into a live payload leaves the chain as it is |
| HeapBytes.SelfLinkedIsBroken | bees/memory/memory.c:69-78 | with a self-linked block in the chain's place, memory represents no chain |
| Disk.FindBee | queen/main.c:216-235 | the first magic at or after the address across sector boundaries, 0 if the limit or a bad sector comes first |
| Disk.NextZero | queen/main.c:216-235 | no match exactly when no magic can be reached, else the least one |
| Disk.ReadSector | queen/main.c:185-203 | a sector of the disk, or an error and no change |
| Disk.MagicsApart | doc:179-191 | magics cannot overlap |
| Disk.SpansPairMagics | queen/main.c:262-270 | scanning pairs up all magics of a disk in order; an odd one is left over |
| Disk.FoundIff | queen/main.c:216-235 | the first magic is found exactly if it is fewer than 102400 sectors away and all sectors up to the one after it can be read; otherwise nothing is |
| Disk.NearMagicsPaired | queen/main.c:262-270 | all magics are paired if none is 102400 sectors behind the one before it |
| Kernel.Kernel.FindSpan | queen/main.c:263-270 | where the next module starts and ends, and where the next scan will start |
| Kernel.Kernel.CopySpan | queen/main.c:272-282 | the module's bytes in memory; without an end magic, nothing, or a failed read |
| Kernel.Kernel.ScanAndLoad | queen/main.c:262-283 | the next module byte for byte at the bump pointer, and every other outcome of the scan |
| Loader.CopySectors | queen/main.c:276-280 | the sectors in a row, failing exactly at an unreadable one |
| BootScan.SpansFindable | queen/main.c:855-857 | before every turn of the boot loop the next scan finds exactly the next module |
| BootScan.ScannedWithoutEnd | queen/main.c:267-282 | a magic without an end is reported as a module exactly below byte 1024, and the scan starts over at byte 4 |
| BootScan.LoneMagicLoops | queen/main.c:855-868 | a disk on which the boot loop never ends |
| BootScan.LayoutAligned | queen/main.c:281-328 | the bump pointer stays on a sector boundary while loading |
| BootScan.PlacesAre | queen/main.c:281-328 | where every module and its data page are, from the lengths of those before: the first at 0x4200, sectors of the image, sectors of 18 + 8n bytes, one sector behind every fourteenth |
| BootScan.PagesAfter | queen/main.c:285-293 | one page of names for every fourteen modules begun |
| ModuleFormat.HeaderRoundTrip | doc:179-186 | every field of a serialised header is read back |
| ModuleFormat.HeaderUnique | queen/main.c:306-326 | a header can be read in one way only |
| ModuleFormat.DataRoom | queen/main.c:316-328 | whole sectors for 18 + 8n bytes, with less than 512 to spare |
| Linker.MaxIdExported | queen/main.c:806-810 | the largest id in signed comparison is exported, unless all ids have the sign bit, so the last slot of a node is filled |
| Loader.MakeBeeData | queen/main.c:301-330 | the data page describes the header with all addresses relocated mod 2^32; no other byte changes |
| NamePages.AddNameToPage | queen/main.c:285-300 | the chain of pages holds the names it held and then the new one; only pages are written |
| NamePages.PageCount | queen/main.c:286-293 | 14 names to a page, and no page without a name but the first |
| NamePages.SlotOfChain | queen/main.c:796-799 | what slot i of a page holds, and where the empty name is |
| NamePages.EntryPlace | queen/main.c:55-61 | name i is at byte 36 * (i % 14) of page i / 14, and its data page 32 bytes on |
| NamePages.PageLinks | queen/main.c:56-61 | the word at 504 is the address of the next page, 0 in the last |
| KernelTables.WalkSlot | queen/main.c:796-799 | the first byte of a slot is 0 exactly at the end of the registered modules; otherwise name and data page are those of module n |
| KernelTables.WalkNext | queen/main.c:823-825 | a full page has a successor exactly if there are more names |
| KernelLayout.LoadedKept | queen/main.c:262-330 | writes above the bump pointer leave everything loaded as it is |
| Kernel.Kernel.Register | queen/main.c:859-866 | one more module in the layout: data page and name, and perhaps a page |
| Kernel.Kernel.LoadModules | queen/main.c:847-868 | exactly the modules on the disk are loaded and registered, in order, laid out as the disk determines |
| Linker.FindMaxId | queen/main.c:806-810 | the largest export id of a data page in signed comparison, for all ids |
| Linker.MakeNode | queen/main.c:799-819 | a complete lookup node from a data page: slot c holds what is exported as c and 0 elsewhere; all writes are inside the node |
| Linker.EntriesInsideIff | queen/main.c:814-817 | for any ids, when all entries are written inside the node |
| Linker.WrongEntries | queen/main.c:814-817 | two ids whose entries take another command's slot and the pointer to global storage |
| Linker.SmallIdsInside | queen/main.c:814-817 | with ids below 2^31 every entry has its own slot inside the node |
| Kernel.Kernel.SetupLookupArray | queen/main.c:793-826 | a node for every registered module, in order and without gaps, over any number of pages; nothing but the nodes is written |
| Kernel.Kernel.Link | queen/main.c:881-884 | from loaded to linked; only the handler word changes in what was in use, and what it is in the end is known |
| HandlerWord.HandlerWordInImage | queen/main.c:881-882 | an image survives the handler word exactly when its own bytes there are that word |
| HandlerWord.HandlerStoredIff | queen/main.c:881-882 | the tables survive it exactly when every data page has the bytes of the word where it meets it |
| HandlerWord.DataPageAtHandler | queen/main.c:881-882 | a data page right at the place survives exactly if its module was loaded at the handler's address |
| HandlerWord.NamePagesClear | queen/main.c:286-291 | no name page lies at the place, however many modules there are |
| HandlerWord.HandlerIntactIff | queen/main.c:797-819 | after linking the handler's address is still there exactly if no node covers the place or its word there is the same |
| HandlerWord.SomeNodeCovers | queen/main.c:797-819 | a node covers the place exactly if the bump pointer passes it while linking |
| HandlerWord.ClearedHandlerIff | queen/main.c:709-715 | clearing storage keeps the handler's address exactly if it clears only zeros of it |
| HandlerWord.ImagesAfterLinking | queen/main.c:881-884 | after linking exactly the modules spared by the handler word are in memory as on disk |
| HandlerWord.ImagesStay | queen/main.c:726-791 | whatever spares the regions leaves every image as it is |
| KernelTables.RegCount | queen/main.c:796 | the modules before the first empty name |
| KernelTables.EmptyNameHides | queen/main.c:796 | an empty name hides its own module and all behind it |
| Kernel.Kernel.LoadAndLink | queen/main.c:847-884 | a disk becomes a linked kernel with exactly the modules between its magics; images and handler word are as far intact as stated |
| InitRun.Boot | queen/main.c:847-885 | and then a running core, after the inits of all modules and whatever they asked for, with every image still as on disk as far as the handler word spares it |
| Kernel.Kernel.LookupID | queen/main.c:703-708 | the first module with the id, or the first empty slot if it reads as the id, or 0 |
| KernelTables.FirstWith | queen/main.c:703-708 | the first module with the id among the first k |
| Kernel.Kernel.Dispatch | queen/main.c:770-791 | every call of another id than 0: the answer the code reads from memory, jumping to what it reads again after storing the arguments in the CoreData, with nothing else changed |
| Answers.JumpIsTestedIff | queen/main.c:775-788 | when the word jumped to is the word that was tested |
| Answers.StoredSlotIff | queen/main.c:775-788 | the two commands, up to their upper two bits, whose slots are the words stored to |
| Answers.ReachableIff | queen/main.c:726-772 | a registered module can be called exactly if its id is not 0 and it is the first with it |
| Answers.IdZeroIsTheCore | queen/main.c:726 | a call of id 0 is a command of the core whatever is registered |
| Answers.AnswerIff | queen/main.c:703-788 | the answer is the one the tables promise exactly for id 0, exported commands, commands within the table or where 0 is behind it, and ids that no empty slot reads as |
| Answers.BehindTheTable | queen/main.c:775 | the first command behind a table jumps to the id of the next module |
| Answers.CommandsAlias | queen/main.c:775 | commands that differ in the upper two bits are one |
| Answers.CoreDataIs | queen/main.c:691-697 | what a module finds at the CoreData it is handed: its id in front, the handler, its own load base, and further on its storage pointer and last command |
| Answers.UnknownIff | queen/main.c:703-708 | an id no module has is reported as unknown exactly if it differs from the word at address 0 or 1024 modules are registered; otherwise address 0 is called |
| Linkage.CallMeans | queen/main.c:726-790 | every call: the core for id 0, load base plus exported offset with the module's own CoreData and storage, or the error code, which unknown commands get exactly within the table or where 0 is behind it, and unknown modules exactly if no empty slot reads as their id |
| Linkage.InsideImageIsCalled | queen/main.c:775-789 | an offset inside the image is always called, and the byte there is the module's own |
| Linkage.OrderIrrelevant | queen/main.c:703-708 | with distinct ids a call means the same for every order of the modules |
| Linkage.SameAnswers | queen/main.c:770-790 | two machines with the same modules in different orders answer alike every call within the tables |
| Linkage.DisksAlike | queen/main.c:847-885 | machines booted from disks with the same module files in different orders answer alike every call within the tables |
| Linkage.OffsetOfIff | queen/main.c:814-817 | with distinct export ids a slot is filled exactly by what is exported under its number |
| Linkage.FileIsModule | doc:179-188 | a module file on the disk is read as the module it was made from |
| Linkage.BootedFromFiles | queen/main.c:855-868 | a disk with module files between its magics boots exactly these modules |
| Linkage.InitMeans | queen/main.c:835-839 | with distinct ids every init gets its own address and its own CoreData |
| Linkage.FieldsOnDisk | doc:179-186 | every field of a module, by its byte offset on the disk |
| Linkage.FileHasMagics | doc:179-188 | a module file begins and ends with 3A 44 BE E0 |
| Linkage.LastExportCounts | queen/main.c:814-817 | of several exports with one id the last counts |
| Linkage.BytesToCalls | queen/main.c:301-791 | from the bytes of the disk to the call: id at byte 5, command at 46 + 8j, and the address jumped to is the load base plus the word at 50 + 8j, mod 2^32 |
| Linkage.BytesToInit | queen/main.c:326-839 | the init is the load base plus the word behind the exports, by the priority at byte 41 |
| InitRun.RunInits | queen/main.c:827-845 | the inits of all registered modules, priority by priority, over any number of pages, while each may give commands to the core and call other modules; the core stays sound, and every set pointer and the contents of every module's storage stay |
| InitRun.ContentsStay | queen/main.c:726-791 | what keeps modules, owners, regions and live blocks keeps the contents of all storage, in the bump area and in the heap |
| InitRun.AnswersStay | queen/main.c:728-757 | a module with storage is told the same place by command 2 ever after, the same CoreData by command 3, and gets no other from command 1 |
| InitRun.InitPass | queen/main.c:832-843 | the inits of one priority in the order of discovery, with their commands in between |
| KernelTables.InitsAreStableSort | queen/main.c:830-843 | that order is a stable sort by priority with every registered module once |
| Kernel.Kernel.ListBees | queen/main.c:604-614 | lists exactly the names of the registered modules, in order |
| Kernel.Kernel.Alloc | queen/main.c:709-715 | storage at the bump pointer, which moves by size; four times as many bytes are cleared; nothing else changes |
| CoreCalls.Core.BumpGlobal | queen/main.c:729-738 | zeroed storage from the bump area for a module, apart from everything else |
| CoreCalls.Core.Malloc | bees/memory/memory.c:54-88 | the call of kmalloc through the core leaves all tables and all global storage alone |
| CoreCalls.Core.CoreAlloc | bees/memory/memory.c:37-39 | the same from core_alloc, which needs the handler word intact and leaves it so |
| CoreCalls.Core.Release | bees/memory/memory.c:89-118 | the call of kfree through the core leaves all tables and all global storage alone |
| CoreCalls.Core.NewGlobal | queen/main.c:728-738 | storage once per module; from the bump area zeroed, from the heap as it was; all other pointers and all contents stay; the handler word stays exactly if what is cleared of it was 0 |
| CoreCalls.Core.Query | queen/main.c:739-763 | the replies of commands 2 to 4, whose meaning is in the next four rows |
| CoreCalls.QueriesAnswerCalls | queen/main.c:739-789 | command 2 answers the storage pointer and command 3 the CoreData that a call of the module hands to it |
| CoreCalls.QueriesInMemory | queen/main.c:691-757 | in memory: what command 3 answers points to the handler and the own load base, behind the id, and command 2 answers the word 16 bytes on |
| CoreCalls.NewGlobalIff | queen/main.c:728-757 | commands 1 to 3 report an unknown module exactly when none has the id; command 1 serves exactly whom command 2 would answer 0, and leaves exactly those with another pointer |
| CoreCalls.EndIsFree | queen/main.c:759-763 | nothing loaded or handed out lies behind what command 4 answers |
| CoreCalls.CommandsAre | queen/main.c:727-769 | the error for unknown commands exactly for 0 and from 6 on |
| CoreCalls.Core.ObtainGlobal | bees/keyboard/keyboard.c:198-201 | command 1 and then command 2: the pointer told is what the allocator gave, which in the bump area is what command 4 would have told before; or the pointer there was already |
| CoreCalls.Core.SetAllocator | queen/main.c:764-767 | any function becomes the allocator, and nothing else changes |
| CoreCalls.Core.CoreCommand | queen/main.c:726-769 | all commands of the core: replies; no pointer that was set and no byte in use ever changes |
| CoreCalls.Core.Call | queen/main.c:770-791 | a call of a module stores arguments and touches nothing loaded, stored or live |
| CoreCalls.Core.Handle | queen/main.c:717-792 | the whole handler: id 0 is answered by the core, any other id as memory says, and either way everything in use stays |
| CoreCalls.Core.TakeOver | bees/memory/memory.c:40-53 | the memory manager's init: its storage, one free block above the bump area, and then the core allocates there |
| CoreCalls.HeapClearIff | bees/memory/memory.c:46 | the heap begins behind the handler word exactly if the bump area ends above 0x5FF8 |
| CoreCalls.Core.ManagerCallable | bees/memory/memory.c:37-39 | once there is a heap, command 1 of module 7 can be called |
| CoreCalls.Core.HeapApart | bees/memory/memory.c:46 | no byte of the heap lies in an image, a page, a node or a bump storage |
| CoreCalls.Core.ImageApart | queen/main.c:281 | no byte of a loaded module lies in the heap, in any other region, or in anyone's storage |
| CoreCalls.StoragePreserved | queen/main.c:726-769 | the contents of every module's storage, in the bump area or in the heap, survive each command |
| KernelTables.NodeWriteSpares | queen/main.c:777-785 | writes to CoreData and globalValues touch no image, page or storage |
| CoreCalls.Core.StorageApart | queen/main.c:709-738 | storage of one module overlaps neither that of another nor any region but its own |
| Terminal.Screen.SetChar | bees/display/display.c:36-41 | writes one cell, and nothing at odd offsets |
| Terminal.Screen.ShiftUp | bees/display/display.c:42-51 | the screen moved up by a row, with an empty row below |
| Terminal.Screen.SetCursor | bees/display/display.c:159-165 | 256 times the high register plus the low one is the cell, half the offset |
| Terminal.Screen.PrintChar | bees/display/display.c:52-70 | the screen and the cursor follow one step on the endless sheet, and the next rows say what a step is |
| Terminal.Screen.CellIs | bees/display/display.c:36-70 | cell (row, col) is bytes 160 row + 2 col and the next, and shows cell 80 (rows + row) + col of the sheet; the registers hold the position |
| Terminal.NewLineIs | bees/display/display.c:59-61 | a newline goes to the next multiple of 80 and changes no cell |
| Terminal.BackspaceIs | bees/display/display.c:62-64 | a backspace goes one back, leaves a space in the given color there, and changes no other cell |
| Terminal.OrdinaryIs | bees/display/display.c:65-68 | any other character is put at the position, which moves on by one |
| Terminal.BackspaceUndoes | bees/display/display.c:62-68 | a character and then a backspace: the position as before, a space there |
| Terminal.LineStarts | bees/display/display.c:52-77 | character c of line k is c cells behind the start of the row that follows the rows of the lines before it, one and one more per 80 characters each |
| Terminal.ShortLineStarts | bees/display/display.c:52-77 | with fewer than 80 characters a line, character c of line k is at cell 80k + c of a cleared screen |
| Terminal.ScrolledLeast | bees/display/display.c:55-58 | the rows gone are the fewest with which the position is on the screen or right behind it |
| Terminal.Screen.PrintStr | bees/display/display.c:71-77 | the screen follows the whole string up to its NUL |
| Terminal.Screen.Clear | bees/display/display.c:205-212 | from any state, the empty sheet |
| Terminal.RunIsSheet | bees/display/display.c:52-77 | without backspaces the sheet does not depend on the screen, and the rows scrolled off are a function of the position |
| Terminal.PrintedStays | bees/display/display.c:65-68 | every character printed stays on the sheet at the position it was printed at |
| Terminal.NothingElse | bees/display/display.c:52-70 | nothing else changes on the sheet |
| Format.Print | bees/display/display.c:78-157 | every format string: the screen shows the rendering of its tokens, and reading ends at its NUL |
| Format.Directive | bees/display/display.c:88-151 | one directive uses up one token, its argument and its color, and stays before the NUL |
| Format.ChooseColor | bees/display/display.c:130-143 | the color after %#, with text before background, and where reading goes on |
| Format.PrintArg | bees/display/display.c:90-129 | the text of an argument by its directive |
| Format.RenderConcat | bees/display/display.c:81-157 | color and arguments are handed on from each part of a string to the next |
| Format.UnusedArgs | bees/display/display.c:87-104 | arguments behind those the directives use up do not matter |
| Format.EscapedPrintsAsIs | bees/display/display.c:145-147 | any text is printed as it is once its percent signs are doubled |
| Format.DollarIsPrinted | bees/display/display.c:132-143 | %#$: the dollar and what follows it are printed in color 2 |
| Format.CutShort | bees/display/display.c:88-150 | what strings that stop inside a directive print |
| Format.PlainPrinted | bees/display/display.c:152-154 | any character but % is printed as it is, in front of the rest |
| Format.PercentPrinted | bees/display/display.c:145-147 | %% prints one percent sign |
| Format.UnknownPrinted | bees/display/display.c:148-151 | % before any other character is printed, and then that character |
| Format.DirectiveFirst | bees/display/display.c:88-129 | a directive prints as it does alone, and the rest with the other arguments |
| Format.HexPrinted | bees/display/display.c:110-115 | %x prints all eight digits in base 16, or 0 |
| Format.BinPrinted | bees/display/display.c:116-121 | %b prints all 32 digits in base 2 |
| Format.UnsignedPrinted | bees/display/display.c:104-109 | %u prints base 10 without leading zeros |
| Format.SignedPrinted | bees/display/display.c:97-103 | %d and %i print base 10 behind a minus exactly from 2^31 on, and then 2^32 - v |
| Format.PointerPrinted | bees/display/display.c:122-129 | %p prints 0x and what %x prints |
| Format.CharacterPrinted | bees/display/display.c:91-93 | %c prints the lowest byte |
| Format.TextPrinted | bees/display/display.c:94-96 | %s prints the bytes in memory up to the first 0 |
| Format.TwoColors | bees/display/display.c:134-138 | %#ab: what follows is printed in 16 b + a, in capitals or not |
| Format.OneColor | bees/display/display.c:139-141 | %#a: what follows is printed in a |
| Format.NoColor | bees/display/display.c:130-143 | %# and neither a digit nor a dollar changes nothing |
| Numbers.NumToStr | bees/util/util.c:74-110 | the decimal text by type, with NUL, and nothing written behind it |
| Numbers.NumToStrUnsigned | bees/util/util.c:8-31 | the decimal text of any 32-bit number |
| Numbers.NumToStrSigned | bees/util/util.c:32-73 | the text for each of the three masks and any maximum that is positive in 32 bits and does not end in 9, with the one added to the last digit for the smallest number |
| Numbers.MinTextIs | bees/util/util.c:46-49 | adding one to the last digit gives the smallest number, for any maximum not ending in 9 |
| Numbers.UnsignedRoundTrip | bees/util/util.c:8-31 | decimal text reads back as the number and has no leading zero |
| Numbers.SignedRoundTrip | bees/util/util.c:32-73 | signed text reads back as the number, with a minus exactly if negative |
| Numbers.DecimalCorrectIff | bees/util/util.c:74-110 | which types and values print correctly: all but negative 8-bit and 16-bit ones |
| Numbers.NumToHex | bees/util/util.c:168-219 | hexadecimal text of full width, one digit for zero |
| Numbers.NumToBin | bees/util/util.c:221-267 | binary text of full width |
| Numbers.DecimalMeans | bees/util/util.c:74-110 | what is read in the decimal text: the number with the bits of the argument that the type has, with sign for I32 and without for the others; digits of the table, no leading zero, a minus exactly if negative |
| Numbers.HexMeans | bees/util/util.c:168-219 | the same for hexadecimal text, with its exact length |
| Numbers.BinMeans | bees/util/util.c:221-267 | the same for binary text, with its exact length |
| Numbers.StoredIs | bees/util/util.c:79-106 | a variable of each type holds the number of its range that has the lowest bits of the argument |
| Numbers.SignedReadings | bees/util/util.c:80 | the readings of 32 bits with and without sign are inverse to each other |
| Numbers.DigitsOfTable | bees/util/util.c:173 | the digits are those of 0123456789ABCDEF |
| Numbers.PlaceValue | bees/util/util.c:8-31 | reading: the first part of a numeral counts for as many powers of the base as digits follow |
| Keyboard.EventsDiffer | bees/keyboard/keyboard.c:24-27 | every field can be recovered from an event |
| Keyboard.EventIsZero | bees/keyboard/keyboard.c:184-193 | when an event looks like no event |
| Keyboard.LastShiftDecides | bees/keyboard/keyboard.c:184-187 | shift is held exactly when the last shift key to move went down |
| Keyboard.HeldIff | bees/keyboard/keyboard.c:184-187 | and it is held exactly if a shift key has moved and the last one went down |
| Keyboard.EventIs | bees/keyboard/keyboard.c:24-27 | the four bytes of an event: character from the table that shift selects, scan code without its top bit, shift, release |
| Keyboard.Keyboard.InterruptHandler | bees/keyboard/keyboard.c:175-197 | one more event with just these bytes, and shift as the last shift key to move left it |
| Keyboard.Keyboard.GetKey | bees/keyboard/keyboard.c:210-225 | the event pushed as number delivered + 64k, which is that of the scan code with this number, or 0 if none is visible |
| Keyboard.Keyboard.IsThereData | bees/keyboard/keyboard.c:226-232 | 1 exactly if an event is visible |
| Keyboard.Keyboard.RingConserves | bees/keyboard/keyboard.c:195-223 | whatever was typed and taken, pushed - delivered is the distance from tail to head of the driver and 64 for every time head caught up with tail |
| Keyboard.RunConserves | bees/keyboard/keyboard.c:195-223 | that law after every sequence of pushes and takes, with deliveries in order, never twice, and each 64k events late |
| Keyboard.SixtyFourPushes | bees/keyboard/keyboard.c:195-223 | 64 events that nobody takes look like none |
| Keyboard.LostInLaps | bees/keyboard/keyboard.c:195-223 | between two deliveries a multiple of 64 events is lost |
| Keyboard.FifoIff | bees/keyboard/keyboard.c:195-223 | a first-in first-out queue exactly as long as at most 63 events are pending |
| Timer.Timer.constructor | bees/PIT/PIT.c:40-56 | 100 Hz with divisor 11931, no ticks, no handler |
| Timer.Timer.InterruptHandler | bees/PIT/PIT.c:29-39 | one more tick in 32 bits, and one call of the handler if there is one |
| Timer.Timer.SetFrequency | bees/PIT/PIT.c:80-89 | the divisor is the quotient in 16 bits, and the quotient itself exactly from 19 Hz on |
| Timer.TicksForIff | bees/PIT/PIT.c:67 | the ticks waited for are those asked for exactly if the product fits 32 bits, and otherwise at least 4294967 too few |
| Timer.Timer.Sleep | bees/PIT/PIT.c:62-71 | ends at the first check with the counter at its target, however the interrupts arrive |
| Timer.WakesOnTime | bees/PIT/PIT.c:66-70 | without wrap-around that is the first check with enough ticks |
| Timer.WakesAtOnceIff | bees/PIT/PIT.c:66-70 | a sleep ends at once exactly with nothing to wait for or a wrapped target |
| Timer.SleepAccuracy | bees/PIT/PIT.c:50-84 | from 19 Hz to the chip's clock, the shortfall of a sleep at the chip is exactly the two remainders, hence within ms*(f-1) + 999*d |
| Timer.RegisterIff | bees/PIT/PIT.c:84 | the chip has the whole quotient, and not 0, exactly in that range |
| Timer.TooSlow | bees/PIT/PIT.c:84 | at 18 Hz it does not |
| Timer.DivisorFitsIff | bees/PIT/PIT.c:84 | the divisor fits 16 bits exactly from 19 Hz on |

## Left out

- Port access to disk, interrupt controller, timer chip, screen registers and keyboard: the disk is a byte sequence with bad sectors, the cursor two registers, a scan code an input value, and the time at which interrupts arrive a parameter.
- Inline assembly: a call is the choice of a target, its arguments and a return code; inits and handlers are assumed to return. Values the core stores through a caller's pointer are results of the methods. The early return at queen/main.c:736 sets no error code, which the model calls `AsItWas`.
- Boot sector, second stage, linker script and build scripts; where the kernel's own code lies; memory above the bump pointer is assumed to be there.
- Kernel.Kernel.LoadAndLink: asks that no odd magic lies below byte 1024, where the loop need not end, and that data pages survive the handler word, without which the tables do not describe the modules; leaves out the key test at queen/main.c:876, which is switched off, and everything printed.
- Kernel.Kernel.ListBees: the names are the 32 bytes of a slot; where the source prints beyond a name without a NUL is not modelled.
- CoreCalls.Core.TakeOver: the fields of the manager's global storage are the fields of class `Heap`, not bytes in memory, and what modules write into their own memory is not modelled.
- InitRun.RunInits: inits give commands to the core, call other modules and do what the memory manager's init does; what the core cannot serve is not asked for. What a called module then does is left out.
- CoreCalls.Core.CoreCommand: asks that an unknown id is not read in an empty slot, and that command 1 does not go to a function other than the two allocators, whose effect is unknown.
- CoreCalls.Core.Release: does not free the global storage of a module, which the documentation calls permanent.
- Format.Print: the arguments lie in a sequence and strings in a snapshot of memory that printing does not change.
- Disjoint bit fields combined with `|` in the source are sums here.
- Terminal.Screen.PrintChar: a backspace at the top left corner of the screen writes in front of video memory; the contract excludes it.
- The cursor command (bees/display/display.c:173-203), `putc`, cursor blinking, and the core's own small print routines.
- The key tables are parameters of `Keyboard`.
- `store_4B` and `load_bee`, which are not used; `pow`, which doubles instead of multiplying; `memcpy` and `memset`; the command line of the control mode.
- The interrupt module, the start module, and the paging code that is commented out.
- Concurrency beyond interrupt handlers that run as a whole between other steps.
