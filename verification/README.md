# Verification of the derek-core kernel's memory management, id tables and user traps

A Dafny model of the RISC-V kernel in `kernel/`. It has four parts.

- **Sv39 page tables.** Physical memory maps frames to 512 entries. A table is a root and a list of
  node frames, grown lazily, edited in place and walked by software and by hardware. The central
  result is that this heap of frames refines a partial map from page number to frame and flags.
- **Frames and spaces.** A first-fit page vector hands out frames that guards, page tables and areas
  own. Over every run each live frame has one owner, dropping a space gives back exactly its own,
  and the memory that all spaces share refines one private map per space.
- **Ids and processes.** A table of ids with a doubling free set, and a ready queue that shares
  process blocks with it. Every process has a kernel stack of its own.
- **User traps.** The two halves of the trampoline as instruction sequences over registers, CSRs
  and trap frames. Over every sequence of trap cycles they refine one private register file per
  process, with its pc, kept in physical frames that the hardware reaches through the tables of a run.

## Layout

| files | content |
|---|---|
| `Bits`, `Arithmetics`, `Addresses`, `Layout` | bit operations on words, alignment, ranges, address and entry formats, constants |
| `FrameAllocator`, `FrameRuns`, `Machine` | the allocator class, its intended form, runs, memory with zeroed frames |
| `PageTable`, `Mapping`, `Requests`, `Areas` | walks, the tree invariant, insertion, lists of mappings, virtual areas |
| `Hardware`, `Locking` | the Sv39 walk and `translate`; `lock_table` and `unlock_table` |
| `KernelAreas`, `KernelCost`, `AddressSpaces` | the kernel's space: its areas, its cost, making, locking and dropping it |
| `UserSpaces`, `InitIntended`, `TextFetch`, `SpaceFacts` | the first process's space as written and as meant, and what user code finds in it |
| `SpaceCheck` | the areas of a space, and what `verify` says about the table |
| `Ownership`, `SpaceRuns` | frame ownership over runs; runs as runs of private maps |
| `Permissions` | what user and kernel code can load, store and fetch through these spaces |
| `PageTableGuard`, `AddrSpace` | page table and address space as objects that edit memory in place |
| `ResourceTable`, `InitProcess`, `ProcessManager` | id table, the first process, process manager, values and classes |
| `Trampoline`, `TrapCycles`, `TrapHart` | trap entry and exit, cycles between processes, the hart as an object |
| `TrapSpaces`, `TrapRuns` | trap frames in physical memory, trap cycles on the page tables of a run |

`dafny verify dfyconfig.toml` checks everything.

## Conventions

- A panic, a failed assertion, a failed `unwrap`, an index out of bounds and an arithmetic overflow
  (the build has overflow checks) are all the outcome `Panic`. Otherwise an operation gives `Ok`.
- Code that works in place is a class. Its methods are proved equal to functions on values, and
  the properties are proved of those functions.
- The heap lies below 2^56 and its base is page-aligned, as `kernel/src/kernel.ld:14-81` arranges.
  The other linker symbols are parameters, with the order and alignment of that script. A kernel
  run is a run on the heap of that script.
- A panic leaves the state unspecified, since the kernel stops there.
- Well-formed tables exist: `Requests.AllocateTableEmpty` makes one from every allocator with a free
  frame, and every table of every run in `Ownership.RunsKeepInv` is one.

## Where the code differs from its evident intent

Each of these is modelled as written, with the intended form beside it and the exact condition under
which the two agree.

- `kernel/src/mm/memory.rs:92` masks the offset with 12. `Translating.TranslateAgreesIff` gives the
  exact addresses for which that is right, and `SpaceFacts.OffsetLost` an address of every first
  user space for which it is wrong.
- `kernel/src/allocator/frame_allocator.rs:50` and `:60` probe with a bitwise not and scale by the
  size. `FrameRuns.CodeRunsAgreeIff` gives the exact states; one-page requests are always right, and
  `FrameAllocators.TwoPagesOverlap` is a wrong one.
- `kernel/src/mm/page_table.rs:294-296` returns a slot that may be invalid, so `translate` answers
  for unmapped pages: `Translating.TranslateAnswersIff`, and `SpaceFacts.UnmappedAnswered` for the
  guard page of every first user space with a text of 1 to 4096 bytes.
- `kernel/src/mm/page_table.rs:392`, `:402` and `:412` compare nothing when the walk finds no slot:
  `Requests.VerifyAllAgreesIff`, with `Requests.EmptyVerifies` against `Requests.EmptyFailsIntended`.
- `kernel/src/common/resource_table.rs:116` removes where it should insert: `ResourceTables.RemoveFailsIff`.
- `kernel/src/mm/address_space.rs:261-263` tracks one frame for any text: `InitIntended.MakeInitAgreesIff`
  and, byte by byte, `TextFetch.TextFetchedIff` against `TextFetch.IntendedTextFetched`.
- `kernel/src/mm/address_space.rs:341-343` rounds an empty area that starts inside a page up to one
  page: `Areas.NewAreaCoversIff`, and `Areas.EmptyAreaCoversPage` at 0x1001.
- `kernel/src/asm/trampoline.S:113-117` restores from x2 on: `TrapCycles.ReturnRestores`, and
  `TrapCycles.ReturnAddressLost` for a lost x1.

## Model

| member | source | states |
|---|---|---|
| `Mapping.MapOneInserts` | kernel/src/mm/page_table.rs:227-345 | On every well-formed table, for every address, `map_one_allocate` succeeds exactly when the page is unmapped, pa is aligned and the free frames cover the missing nodes. The table then stands for the old map plus va -> (pa, flags with V), stays a tree of distinct live nodes, and grew by exactly the nodes it lacked; no other memory or frame changed. |
| `Mapping.FindAllocateGrows` | kernel/src/mm/page_table.rs:227-283 | `find_allocate` reaches the slot of the page in a tree that has the same pages mapped as before; it adds the missing level-1 and level-0 nodes only, all fresh and zeroed. |
| `Mapping.NodeCountExact` | kernel/src/mm/page_table.rs:198-217 | In every well-formed table `node_frames` has one root, one node per distinct vpn >> 18 and one per distinct vpn >> 9 of the mapped pages. |
| `Mapping.MapOneFills` | kernel/src/mm/page_table.rs:308-317 | `map_one` answers None for exactly the two-megabyte regions without a page, panics for exactly the mapped pages, and inserts otherwise. |
| `Mapping.MapSetsFlags` | kernel/src/mm/page_table.rs:308-345 | Bit by bit: the leaf that either of them leaves has the frame of pa, and a flag exactly when it is V or was asked for. |
| `Permissions.MapReaches` | kernel/src/mm/page_table.rs:308-345 | So after either of them the hardware reaches the byte of pa at the same offset, for exactly the loads, stores and fetches that the asked flags allow and in exactly the mode that U allows. |
| `Sv39Format.ValidBits` | kernel/src/mm/page_table.rs:326-330 | Setting V sets bit 0 and keeps the other eight flags. |
| `TableShapes.WalkTree` | kernel/src/mm/page_table.rs:285-305 | The software walk of a tree ends in the slot of the page, or stops exactly where the tree has no node for its region. |
| `TableShapes.DenoteIsView` | kernel/src/mm/page_table.rs:285-305 | The map read off by walking every page is the map of the valid slots of the level-0 nodes. |
| `TableShapes.SetLeaf` | kernel/src/mm/page_table.rs:308-345 | Overwriting one slot changes the map at that page and nowhere else, and keeps the tree. |
| `Requests.MapAllOkIff` | kernel/src/mm/page_table.rs:348-381 | A list of mapping requests succeeds exactly when all are aligned and supported, no page is asked twice or already mapped, and the free frames cover the nodes. |
| `Requests.MapAllMaps` | kernel/src/mm/page_table.rs:348-381 | When it succeeds, the table stands for exactly the old map and the asked pages. |
| `Requests.AllocateTableEmpty` | kernel/src/mm/page_table.rs:198-208 | `allocate` fails exactly without a free frame, and gives a well-formed table of one zeroed node that maps nothing. |
| `Requests.BuildTableExact` | kernel/src/mm/page_table.rs:198-381 | Building a table from requests succeeds exactly when they do not collide and the frames suffice, and gives exactly the asked map with exactly the nodes it needs. |
| `Requests.VerifyPassesIff` | kernel/src/mm/page_table.rs:385-420 | A page passes verification exactly when it is mapped as asked, or its region holds no page at all: nothing is compared when the walk finds no slot. |
| `Requests.BuiltVerifies` | kernel/src/mm/page_table.rs:385-420 | A table built from requests verifies on all of them. |
| `Requests.EmptyVerifies` | kernel/src/mm/page_table.rs:385-420 | A table that maps nothing passes verification for every list of supported requests. |
| `Requests.VerifyAgreesIff` | kernel/src/mm/page_table.rs:385-420 | As meant, a page passes exactly when it is mapped as asked; the code agrees exactly when the region of the page is in use, or the frame is copy-on-write. |
| `Requests.AskedBits` | kernel/src/mm/page_table.rs:385-420 | Mapped as asked means that frame, V, each asked flag and no other flag, bit by bit. |
| `Requests.VerifyAllAgreesIff` | kernel/src/mm/page_table.rs:385-420 | On a whole list the code and the intended verification agree exactly when the code fails, or every region asked about is in use. |
| `Requests.BuiltVerifiesIntended` | kernel/src/mm/page_table.rs:385-420 | A table built from requests passes the intended verification on all of them, too. |
| `Requests.EmptyFailsIntended` | kernel/src/mm/page_table.rs:385-420 | On a table that maps nothing, where the code passes everything, the intended verification fails every request. |
| `Areas.NewAreaCoversIff` | kernel/src/mm/address_space.rs:341-388 | With begin <= end, an area covers exactly the pages that some address of it touches, if and only if it is not empty or starts at a page boundary. |
| `Areas.EmptyAreaCoversPage` | kernel/src/mm/address_space.rs:341-388 | A witness: the empty area at 0x1001 covers page 1, which no address of it touches. |
| `Translating.HardwareAgrees` | kernel/src/mm/page_table.rs:285-305 | On every well-formed table and every va below MAX_VA, the Sv39 walk of the RISC-V Privileged Architecture 20211203 (sections 4.3.2 and 4.4), started from `make_satp`, gives exactly what the map of the table calls for. |
| `Translating.MakeSatp` | kernel/src/mm/page_table.rs:190-194 | The value is mode 8 with the root frame number in its low bits. |
| `Translating.TranslateAnswersIff` | kernel/src/mm/page_table.rs:219-225 | `translate` never panics and answers Some exactly for the pages of regions that hold some mapped page, mapped or not themselves. |
| `Translating.TranslateAgreesIff` | kernel/src/mm/page_table.rs:219-225 | As written, `translate` gives the intended answer exactly when the region is empty, or the page is mapped and va mod 4096 is 0, 4, 8 or 12. |
| `Translating.OffsetKept` | kernel/src/mm/memory.rs:90-93 | The mask as written keeps the whole offset exactly when it is 0, 4, 8 or 12. |
| `Translating.IntendedIsHardware` | kernel/src/mm/page_table.rs:219-225 | The intended translation is what the hardware computes, for every va below MAX_VA. |
| `Locking.RelabelTableOkIff` | kernel/src/mm/page_table.rs:425-444 | `lock_table` and `unlock_table` avoid their `unwrap` exactly when the region of every node has a level-0 node. |
| `Locking.RelabelTableEdits` | kernel/src/mm/page_table.rs:425-444 | They keep the table well formed and change the W flag of exactly the identity-map leaves of the node frames; every other leaf and every frame number stays. |
| `Locking.RelabelAllEdits` | kernel/src/mm/page_table.rs:425-444 | The loop edits exactly those slots although it rewrites the tree it walks. |
| `Locking.RelabelKeepsFlags` | kernel/src/mm/page_table.rs:425-444 | Bit by bit: after locking or unlocking, W of a node page is as asked and its other eight flags and its frame are as before; any other page is untouched. |
| `Sv39Format.WritableBits` | kernel/src/mm/page_table.rs:425-444 | Setting or clearing W decides bit 2 and keeps the other eight flags. |
| `Locking.RelabelIdempotent` | kernel/src/mm/page_table.rs:425-444 | Locking twice, or unlocking twice, leaves the memory of doing it once. |
| `Locking.UnlockUndoesLockIff` | kernel/src/mm/page_table.rs:425-444 | Unlocking restores the memory to the bit exactly when all identity entries of the nodes were writable before. |
| `Areas.TrackFrameUpdates` | kernel/src/mm/address_space.rs:436-448 | `track_frame` updates the ordered map at one address and keeps its order. |
| `Areas.FlattenMappable` | kernel/src/mm/address_space.rs:214-223 | Areas that are each fine alone can all be mapped exactly when no two share a page. |
| `Areas.MakeTableExact` | kernel/src/mm/address_space.rs:214-223 | Mapping a list of areas into a fresh table succeeds exactly when they are pairwise disjoint and the frames suffice; the table then denotes exactly their union. |
| `Areas.MakeTableNeedsFine` | kernel/src/mm/page_table.rs:348-381 | One area that is misaligned, copy-on-write, self-overlapping or backward makes the construction panic. |
| `Areas.MadeVerifies` | kernel/src/mm/address_space.rs:53-57 | Whatever the areas, a space that was made from them passes `verify` on all of them. |
| `KernelAreas.KernelStacked` | kernel/src/mm/address_space.rs:89-213 | The areas of `make_kernel` never overlap, whatever the section sizes the linker script allows. |
| `KernelAreas.KernelViewHolds` | kernel/src/mm/address_space.rs:89-224 | The kernel maps its whole heap to itself read-write, and the trampoline page to the linked trampoline. |
| `KernelAreas.KernelViewLeaves` | kernel/src/mm/address_space.rs:89-224 | Every other page it maps is mapped to itself, with one of three permission sets. |
| `KernelAreas.KernelViewExact` | kernel/src/mm/address_space.rs:89-224 | The kernel maps exactly the trampoline page and the pages of its ten sections, each to itself with the permissions of its section. |
| `Permissions.KernelPermissions` | kernel/src/mm/address_space.rs:89-224 | By literal page numbers and flag bits: text and trampoline have V, R and X, rodata V and R, everything else V, R and W, and nothing U. |
| `KernelAreas.KernelViewBelow` | kernel/src/mm/address_space.rs:89-224 | But for the trampoline it maps nothing above RAM. |
| `KernelCosts.KernelPages` | kernel/src/mm/address_space.rs:89-224 | The sections fill RAM without a gap, so which pages the kernel maps does not depend on their sizes. |
| `KernelCosts.KernelNodeCount` | kernel/src/mm/page_table.rs:198-217 | Whatever the sections, a kernel space needs exactly 73 nodes: a root, 3 for gigabytes and 69 for two-megabyte regions. |
| `KernelCosts.MakeKernelTakes` | kernel/src/mm/address_space.rs:89-224 | `make_kernel` succeeds exactly when 73 frames or more are free, and the space it makes owns exactly 73. |
| `AddressSpaces.MakeKernelExact` | kernel/src/mm/address_space.rs:89-224 | `make_kernel` succeeds exactly when the free frames cover its nodes; the table denotes the kernel map, the space tracks the kernel areas and owns its nodes and nothing else. |
| `SpaceChecks.KernelVerifyIff` | kernel/src/mm/address_space.rs:53-57 | `verify` on the kernel areas passes exactly when every page of the kernel map is mapped as it should be, or lies in a region without any page. |
| `SpaceChecks.NewKernelVerifies` | kernel/src/mm/mod.rs:18-24 | A new kernel space passes the check at start-up. |
| `SpaceChecks.ChangedLeafFails` | kernel/src/mm/mod.rs:18-24 | A kernel space with one leaf changed does not pass it. |
| `SpaceChecks.LockedKernelFails` | kernel/src/mm/address_space.rs:53-84 | Nor does a locked kernel space: the nodes of its table have lost W. |
| `AddressSpaces.MakeThenDrop` | kernel/src/mm/address_space.rs:69-75 | Making a kernel space and dropping it restores the allocator vector exactly. |
| `AddressSpaces.ReleaseAllReturns` | kernel/src/mm/memory.rs:253-269 | Dropping guards of distinct live frames never panics and frees exactly those. |
| `AddressSpaces.BorrowersOwnNothing` | kernel/src/mm/memory.rs:253-269 | Areas that only borrow frames give none back. |
| `AddressSpaces.WfFrame` | kernel/src/mm/page_table.rs:174-217 | A table depends on its own nodes only: any other change of memory or allocator keeps its map. |
| `AddressSpaces.RelabelSpaceOkIff` | kernel/src/mm/address_space.rs:69-84 | `lock_space` and `unlock_space` succeed exactly when a second kernel space fits and every node has a slot. |
| `AddressSpaces.RelabelSpaceEdits` | kernel/src/mm/address_space.rs:69-84 | They edit the W flags of the node pages, leave the allocator as before, and touch no other live or borrowed frame. |
| `AddressSpaces.KernelReachable` | kernel/src/mm/address_space.rs:103-111 | Every node of a table lies in the identity-mapped heap of a kernel space, so the `unwrap` of locking holds. |
| `AddressSpaces.KernelLockCycle` | kernel/src/mm/address_space.rs:69-84 | A new kernel space can be locked, and unlocking restores its memory to the bit. |
| `UserSpaces.MakeInitExact` | kernel/src/mm/address_space.rs:226-279 | For every text, `make_init` succeeds exactly when the page at which the walk finds the stack is neither text nor trampoline page and the frames cover stack, text and nodes; it maps exactly trampoline, stack and first text page, and the text frame holds the first 4096 bytes. |
| `UserSpaces.PackHolds` | kernel/src/mm/memory.rs:130-138 | Each of the 4096 bytes of a frame written with data is that byte of the data, or zero past its end. |
| `UserSpaces.InitTrapframeOkIff` | kernel/src/mm/address_space.rs:283-290 | `init_trapframe` succeeds exactly when its page is unmapped and the frames suffice. |
| `UserSpaces.InitTrapframeAdds` | kernel/src/mm/address_space.rs:283-290 | It adds exactly the trap-frame page, owned by the space, and keeps every other page and frame. |
| `UserSpaces.MakeUserExact` | kernel/src/mm/address_space.rs:226-290 | Both together, for every text: the first user space exists exactly when the stack also stays clear of the trap frame and the free frames cover its cost; it denotes exactly its four pages and owns exactly what it took, the text page holds the text, and stack and trap frame are zero. |
| `SpaceChecks.UserAreas` | kernel/src/mm/address_space.rs:226-290 | Its areas, by literal pages and flag bits: the text area spans all pages of the text though it tracks one frame, the stack is one page above it, trap frame and trampoline are where they are meant. |
| `Permissions.UserSpaceAccess` | kernel/src/mm/address_space.rs:226-290 | For every address below MAX_VA: user code loads and fetches its text and loads and stores its stack, and nothing else; the kernel loads and stores the trap frame and loads and fetches the trampoline, and nothing else. |
| `Permissions.StackWordStored` | kernel/src/mm/address_space.rs:418-432 | Every store of user code to an aligned word of its stack page reaches that word of the frame allocated for the stack. |
| `InitIntended.MakeInitIntendedExact` | kernel/src/mm/address_space.rs:226-279 | As meant, with a frame for each page of the text: it can be made exactly when text and stack stay clear of the trampoline and the frames suffice, maps every page of the text, and each text frame holds its page. |
| `InitIntended.MakeInitAgreesIff` | kernel/src/mm/address_space.rs:252-269 | The code makes the space that is meant exactly for a text of 1 to 4096 bytes, or when collisions or too few frames make both panic. |
| `TextFetch.TextFetchedIff` | kernel/src/mm/address_space.rs:252-269 | As written, user code fetches through the hardware exactly the bytes of the first page of its text; no later byte below 2^38 can be fetched. |
| `TextFetch.IntendedTextFetched` | kernel/src/mm/address_space.rs:252-269 | As meant, it fetches every byte of its text, however long. |
| `SpaceFacts.TrampolineAgrees` | kernel/src/trap/mod.rs:173-196 | Spaces with the trampoline agree on every va of its page, by hardware walk and by `translate`. |
| `SpaceFacts.GuardPageIff` | kernel/src/mm/address_space.rs:231-233 | In every first user space the page between text and stack is unmapped exactly when it is none of the pages of fixed place; below the trap frame, exactly when the text is not empty. |
| `SpaceFacts.SmallUserCost` | kernel/src/mm/address_space.rs:226-290 | A first user space with a stack below page 512 takes eight frames. |
| `SpaceFacts.UserTranslates` | kernel/src/process/process.rs:107-136 | `translate` of the trap-frame address gives the allocated frame, and of the trampoline base the linked trampoline. |
| `SpaceFacts.TrapframeIsMapped` | kernel/src/mm/address_space.rs:403-416 | The hardware translates each word of the trap-frame page to that word of the allocated frame, with V, R and W set and every other flag clear. |
| `SpaceFacts.OffsetLost` | kernel/src/mm/memory.rs:90-93 | In every first user space `translate` of the byte after the text base answers the base of the text frame, where the next byte is meant. |
| `SpaceFacts.UnmappedAnswered` | kernel/src/mm/page_table.rs:219-225 | In every first user space with a text of 1 to 4096 bytes `translate` answers for the guard page, which is unmapped. |
| `Ownership.RunsKeepInv` | kernel/src/mm/memory.rs:184-269 | In every run of making, growing, locking, storing through and dropping spaces, guards and taken frames, each live frame has exactly one holder and every table is well formed. |
| `Ownership.DropNeverPanics` | kernel/src/mm/memory.rs:253-269 | In every state of every run a drop never panics and gives back exactly the frames held. |
| `Ownership.RunsAgreeWithHardware` | kernel/src/mm/page_table.rs:285-305 | In every state of every run the hardware walk of every space agrees with its map, and its node count is exact. |
| `SpaceRuns.StepRefines` | kernel/src/mm/page_table.rs:174-217 | Every step on shared memory is a step of a machine in which every space is a private map: the space named by the step changes as its operation says, and no other does. |
| `SpaceRuns.RunsRefineViews` | kernel/src/mm/page_table.rs:174-217 | So every run on shared memory is a run of that machine. |
| `SpaceRuns.RunsKeepLeaf` | kernel/src/mm/page_table.rs:319-345 | While a space lives, through any interleaving with other spaces, its pages stay mapped where they are; only the W flag of a heap page can change. |
| `SpaceRuns.RunsMapOnly` | kernel/src/mm/page_table.rs:319-345 | A page that is unmapped in a space stays so until a step maps that page in that space. |
| `SpaceRuns.EverySpaceHasTrampoline` | kernel/src/mm/address_space.rs:390-401 | In every state of every run every space, locked or not, has the trampoline. |
| `SpaceRuns.SpacesShareTrampoline` | kernel/src/trap/mod.rs:173-196 | Any two spaces of a state of a run translate every address of the trampoline page alike, by hardware to the linked trampoline and by `translate`, as `usertrapret` asserts on the locked kernel space. |
| `SpaceRuns.KernelStays` | kernel/src/start.rs:99-105 | From creation to drop, however often it is locked and unlocked, a kernel space maps every page of the kernel map where it was, with each of its nine flags as it was, but for the W flag of heap pages. |
| `SpaceRuns.KernelIsIdentity` | kernel/src/mm/address_space.rs:89-224 | On every kernel space of every run, locked or not, the hardware translates every kernel address off the trampoline page to itself. |
| `Permissions.KernelAccess` | kernel/src/mm/address_space.rs:89-224 | On every kernel space of every run, for every page of the kernel map: user mode reaches nothing; the kernel loads everything, fetches text and trampoline only, and stores into none of text, trampoline and rodata. |
| `Permissions.LockedNodesFault` | kernel/src/mm/page_table.rs:425-444 | What locking is for: right after it every store of the kernel into a node of the table faults, and right after unlocking every one reaches the node. |
| `SpaceRuns.KernelFaultsElsewhere` | kernel/src/mm/address_space.rs:89-224 | Outside the kernel map the hardware faults on it, unless a step mapped that very page there. |
| `SpaceRuns.KernelHasNoTrapframe` | kernel/src/mm/address_space.rs:281-290 | In particular every word of the trap-frame page faults on a kernel space to which no trap frame was added. |
| `SpaceRuns.RunsKeepHeapWritable` | kernel/src/mm/page_table.rs:422-444 | Over every run a kernel space lets the kernel, and no user code, write every heap page at its own address, except the nodes of its own table: locking takes nothing else away. |
| `SpaceRuns.KernelLockNeverUnwraps` | kernel/src/mm/page_table.rs:425-444 | Over every run locking or unlocking a kernel space succeeds exactly when 73 frames are free; it never fails at the `unwrap`. |
| `FrameAllocators.AllocatePageAgrees` | kernel/src/allocator/frame_allocator.rs:41-68 | A request of one page equals the intended first fit in every state: the lowest free page, or a panic when there is none. |
| `FrameRuns.CodeRunsAgreeIff` | kernel/src/allocator/frame_allocator.rs:41-68 | In every state of every run of the code as written, and for every size, it answers as first fit does exactly when the request is too large to round or to fit after the first free page, or that page starts a free run and is page 0 or one page is asked for, or no run is free and the mis-scaled address overflows. |
| `FrameRuns.CodeRunsBounded` | kernel/src/allocator/frame_allocator.rs:41-78 | In no run of the code does an entry exceed the number of pages, so the value on which the probe fires never occurs. |
| `FrameAllocators.IntendedFinds` | kernel/src/allocator/frame_allocator.rs:41-68 | The intended search returns the first free run that fits, filled, at base + i * PAGE_SIZE, or panics when there is none. |
| `FrameAllocators.TwoPagesOverlap` | kernel/src/allocator/frame_allocator.rs:41-68 | A witness: over a one-page hole a two-page request hands out a page in use. |
| `FrameAllocators.FrameAllocator.Allocate` | kernel/src/allocator/frame_allocator.rs:41-68 | The nested loops compute the allocation on values, panics included. |
| `FrameAllocators.FrameAllocator.Deallocate` | kernel/src/allocator/frame_allocator.rs:71-78 | The loop computes the deallocation on values, panics included. |
| `FrameRuns.TakeReturnsLowest` | kernel/src/allocator/frame_allocator.rs:95-102 | In every reachable state an allocation gives the lowest free page, aligned, in range and not live; it panics exactly when all pages are live. |
| `FrameRuns.GiveKeepsInv` | kernel/src/allocator/frame_allocator.rs:104-111 | Giving back a live frame never panics and frees that frame only. |
| `FrameRuns.FrameRunsKeepInv` | kernel/src/allocator/frame_allocator.rs:95-111 | In every state of every run, live frames are distinct, aligned and in range, and free plus live count is the number of pages. |
| `FrameRuns.RequestKeepsBlocks` | kernel/src/allocator/frame_allocator.rs:41-68 | The intended form keeps the live runs disjoint for every size, a request of no pages included. |
| `FrameRuns.ReleaseKeepsBlocks` | kernel/src/allocator/frame_allocator.rs:71-78 | Releasing a live run of it never panics and clears exactly that run. |
| `FrameRuns.BlockRunsKeepInv` | kernel/src/allocator/frame_allocator.rs:41-78 | Over every run of requests and releases from a free vector the live runs are disjoint and make up the used pages. |
| `Machines.AllocateZeroedTakes` | kernel/src/mm/memory.rs:184-191 | A zeroed frame was free before, is zero after, and nothing else changes; it fails exactly without a free frame. |
| `Machines.ReleaseFrees` | kernel/src/mm/memory.rs:253-269 | Dropping the guard of a live frame never panics and frees it only. |
| `Addresses.EntryRoundTrip` | kernel/src/mm/page_table.rs:113-156 | For every 64-bit pa and every nine flags, encoding then decoding gives `align_down(pa)` and the flags; a 56-bit pa leaves the reserved bits zero. |
| `Addresses.MakeEntry` | kernel/src/mm/page_table.rs:124-128 | The shift and or place page number and flags side by side. |
| `Addresses.ReferencingAddress` | kernel/src/mm/arithmetics.rs:39-41 | The two shifts give the base address of the page number stored in the entry. |
| `Addresses.EntryFlags` | kernel/src/mm/page_table.rs:130-133 | The ten-bit mask gives the flags, and `unwrap` fails exactly when bit 9 is set. |
| `Addresses.EntryIsValid` | kernel/src/mm/page_table.rs:153-155 | The V flag of the entry, with the same failing `unwrap`. |
| `Addresses.MaskWritable` | kernel/src/mm/page_table.rs:425-444 | Or and and-not on the flags set and clear W and nothing else. |
| `Addresses.PteIndex` | kernel/src/mm/memory.rs:79-88 | Shift and mask give the nine bits of each level, below 512. |
| `Sv39Format.IndicesRecombine` | kernel/src/mm/memory.rs:79-88 | The three indices recombine to the page number. |
| `Addresses.SamePathIff` | kernel/src/mm/memory.rs:79-88 | Two addresses share the index path exactly when their pages agree below bit 27; page-aligned ones below 2^39 exactly when equal, and bits from 39 on never matter. |
| `Addresses.Offset` | kernel/src/mm/memory.rs:90-93 | The offset as written is bits 2 and 3 of the address. |
| `Addresses.OffsetIntended` | kernel/src/mm/memory.rs:90-93 | With the mask 2^12 - 1 it is the address modulo the page size. |
| `Addresses.WithOffset` | kernel/src/mm/memory.rs:48-52 | The page of pa with the low twelve bits of the offset. |
| `Arithmetics.AlignDown` | kernel/src/mm/arithmetics.rs:15-17 | The mask gives a multiple of 2^order at most 2^order - 1 below. |
| `Arithmetics.AlignUp` | kernel/src/mm/arithmetics.rs:5-11 | The mask gives a multiple of 2^order at most 2^order - 1 above. |
| `Arithmetics.AlignNearest` | kernel/src/mm/arithmetics.rs:5-17 | They are the greatest multiple below and the least above, for every order below 64. |
| `Arithmetics.YieldsForward` | kernel/src/mm/arithmetics.rs:173-188 | With begin <= end the `==`-terminated iterator yields each number of the range once, in order, and stops. |
| `Arithmetics.YieldsBackward` | kernel/src/mm/arithmetics.rs:173-188 | With begin > end it never stops before the number overflows. |
| `Arithmetics.SimpleRangeIterator.Next` | kernel/src/mm/arithmetics.rs:173-188 | One call advances the iterator by one step of the function on values. |
| `PageTableGuards.AllocateZeroedFrame` | kernel/src/mm/memory.rs:184-191 | Allocation and the zeroing loop act on allocator and memory as the function on values. |
| `PageTableGuards.PageTableGuard.FindSlot` | kernel/src/mm/page_table.rs:285-305 | The loop over levels, on raw words, finds the slot that the walk on values finds. |
| `PageTableGuards.PageTableGuard.AllocateNode` | kernel/src/mm/page_table.rs:212-217 | A fresh zeroed frame is appended to the node frames. |
| `PageTableGuards.PageTableGuard.FindAllocateSlot` | kernel/src/mm/page_table.rs:227-283 | The loop, writing raw entries in place, leaves memory, allocator and node list as the function on values. |
| `PageTableGuards.PageTableGuard.MapPage` | kernel/src/mm/page_table.rs:319-345 | `map_one_allocate` in place is the insertion on values, its assertions included. |
| `PageTableGuards.PageTableGuard.MapPageInPlace` | kernel/src/mm/page_table.rs:308-317 | `map_one` in place is the function on values. |
| `PageTableGuards.PageTableGuard.MapVirtArea` | kernel/src/mm/page_table.rs:348-381 | Both loops map exactly the requests of the area, in order, and panic exactly when one of them does. |
| `PageTableGuards.PageTableGuard.TranslateAddr` | kernel/src/mm/page_table.rs:219-225 | The translation computed with the bit operations as written is the function on values. |
| `PageTableGuards.PageTableGuard.VerifyVirtArea` | kernel/src/mm/page_table.rs:385-420 | Both loops pass exactly when every request of the area verifies and the range is not backward. |
| `PageTableGuards.PageTableGuard.RelabelNodes` | kernel/src/mm/page_table.rs:425-444 | The lock and unlock loops edit the raw words as the function on values, panics included. |
| `AddrSpaces.AddrSpace.Verify` | kernel/src/mm/address_space.rs:53-57 | The reversed loop passes exactly when every area verifies. |
| `AddrSpaces.AddrSpace.AddTrapframe` | kernel/src/mm/address_space.rs:283-290 | `init_trapframe` in place: new area, mapped page and returned address are those on values. |
| `AddrSpaces.AddrSpace.Relabel` | kernel/src/mm/address_space.rs:69-84 | `lock_space` and `unlock_space` in place, with the second space made and dropped. |
| `AddrSpaces.AddrSpace.Drop` | kernel/src/mm/address_space.rs:293-306 | Dropping returns the nodes, then the exclusively held frames of each area, and no borrowed frame. |
| `AddrSpaces.MakeKernelSpace` | kernel/src/mm/address_space.rs:89-224 | The new object holds the space that `make_kernel` on values gives. |
| `AddrSpaces.MakeInitSpace` | kernel/src/mm/address_space.rs:226-279 | The new object holds the space that `make_init` on values gives. |
| `AddrSpaces.AllocateDataFrame` | kernel/src/mm/memory.rs:193-197 | The frame holds the data, zero-padded, and is taken from the allocator. |
| `ResourceTables.ReserveTakesLowest` | kernel/src/common/resource_table.rs:39-60 | A reservation returns the lowest inactive id; it fails only at capacity zero or when doubling overflows, so ids never collide. |
| `ResourceTables.ReserveReturnsNext` | kernel/src/common/resource_table.rs:39-60 | From a positive capacity the n-th reservation, from zero, returns n. |
| `ResourceTables.ReservationsCount` | kernel/src/common/resource_table.rs:92-112 | Over every run of reservations and initialisations, ids below the count are active, the rest of the capacity is free, and the capacity is the initial one times a power of two, doubled no more than needed. |
| `ResourceTables.TableRunsKeepPartition` | kernel/src/common/resource_table.rs:39-118 | Over every run with the intended removal, free and active ids partition the ids below the capacity. |
| `ResourceTables.RemoveFailsIff` | kernel/src/common/resource_table.rs:84-118 | As written, the assertion of removal fails for every active id, and for a free id it succeeds and loses that id. |
| `ResourceTables.RemoveIntendedKeeps` | kernel/src/common/resource_table.rs:84-118 | As meant, removal of an active id keeps the partition and the next reservation reuses the least free id. |
| `ResourceTables.RemoveIntendedKeepsIff` | kernel/src/common/resource_table.rs:84-118 | As meant, removal keeps the partition exactly for active ids. |
| `ResourceTables.EmptyTableNeverReserves` | kernel/src/common/resource_table.rs:103-112 | With capacity zero doubling adds nothing and a reservation panics. |
| `ResourceTables.ResourceTable.AllocateOne` | kernel/src/common/resource_table.rs:103-112 | The refill loop and `pop_first` take the least id of the refilled set. |
| `ResourceTables.ResourceTable.ReserveEntry` | kernel/src/common/resource_table.rs:39-60 | The object moves as the reservation on values. |
| `ResourceTables.ResourceTable.InitialiseEntry` | kernel/src/common/resource_table.rs:62-66 | The reserved slot gets its data; an unreserved id panics. |
| `ResourceTables.ResourceTable.GetEntry` | kernel/src/common/resource_table.rs:68-82 | The data of an initialised id, and a panic for any other. |
| `ResourceTables.ResourceTable.RemoveEntry` | kernel/src/common/resource_table.rs:84-89 | The object moves as the removal as written. |
| `InitProcesses.MakeInitcodeExact` | kernel/src/process/process.rs:107-152 | The first process can be made exactly when its stack fits and the free frames cover kernel stack and space: `verify`, the translation of the trap frame and every other check on the way pass. |
| `InitProcesses.InitFrameSlots` | kernel/src/process/process.rs:138-150 | Slot by slot, its trap frame holds the kernel's `satp` in 32, the top of its own kernel stack in 33, the text base in 35, the handler in 36 and zero elsewhere. |
| `InitProcesses.InitTraps` | kernel/src/process/process.rs:107-152 | From making init to any trap: it is entered at the text base with all registers zero but tp and x1, and after every sequence of cycles the next trap starts the handler on the kernel's table, at the top of the kernel stack of the process that trapped. |
| `SpaceChecks.MismatchPanics` | kernel/src/process/process.rs:121-125 | `first_execution_init` panics on a space whose table and areas disagree on a mapped page. |
| `InitProcesses.UserVerifies` | kernel/src/process/process.rs:121-125 | The space of the first process, with its trap frame, passes `verify`. |
| `ProcessManagers.ProcRunsKeepInv` | kernel/src/process/manager.rs:30-67 | In every state of every run of create, pop and push each queued block is the one the table stores under its own pid, every process has a live kernel stack that no other has, exactly the blocks with a user space have one in memory, with the map, text and trap frame of init, and the queue has no duplicates if only unqueued pids are pushed. |
| `ProcessManagers.InitBlockStays` | kernel/src/process/manager.rs:62-67 | From `create_initcode` on, over every run, the block of init is stored with the very space that was made for it, still with its map, its text and its filled-in trap frame. |
| `ProcessManagers.PoppedHasSpace` | kernel/src/process/manager.rs:38-40 | A popped block has a user space exactly when one is in memory for its pid, and then it is the space of init over the block's own kernel stack. |
| `ProcessManagers.CreateOkIff` | kernel/src/process/manager.rs:30-36 | `create_process` succeeds exactly when a pid and a frame for the kernel stack are left. |
| `ProcessManagers.InitIsFirstIff` | kernel/src/process/process.rs:239-253 | `create_initcode` succeeds exactly when it is the first reservation, the text leaves room for the stack, and the frames cover kernel stack and space: nine frames for a text of one page. |
| `ProcessManagers.NewManagerInv` | kernel/src/process/manager.rs:23-28 | A new manager is the start of such runs. |
| `ProcessManagers.PushKeeps` | kernel/src/process/manager.rs:42-46 | `push_one` succeeds exactly for pids handed out, so its assertion holds; it makes a duplicate exactly when the pid was queued. |
| `ProcessManagers.PopKeeps` | kernel/src/process/manager.rs:38-40 | The popped block is a stored one and, without duplicates, is not queued any more. |
| `ProcessManagers.EnlistKeeps` | kernel/src/process/manager.rs:30-36 | A creation takes the next pid and keeps table and queue in step. |
| `ProcessManagers.CreatedIsNext` | kernel/src/process/manager.rs:30-36 | A created process is popped before all that were queued. |
| `ProcessManagers.PushedIsLast` | kernel/src/process/manager.rs:42-46 | A pushed process is popped after exactly those that were queued. |
| `ProcessManagers.InitIsLast` | kernel/src/process/manager.rs:62-67 | Init is popped after exactly those that were queued. |
| `ProcessManagers.ProcessManager.CreateProcess` | kernel/src/process/manager.rs:30-36 | A fresh block with the reserved pid, a fresh kernel stack and no user space is stored and put at the front; it panics only for lack of a pid or a frame. |
| `ProcessManagers.ProcessManager.PopOne` | kernel/src/process/manager.rs:38-40 | The front of the queue, or None. |
| `ProcessManagers.ProcessManager.PushOne` | kernel/src/process/manager.rs:42-46 | The stored block goes to the back of the queue. |
| `ProcessManagers.ProcessManager.CreateInitcode` | kernel/src/process/manager.rs:62-67 | The block of init, with kernel stack and with the space and trap frame made in place as its user space, is stored and put at the back; the spaces of the other blocks stay; any pid but 0 panics. |
| `ProcessManagers.FirstExecutionInPlace` | kernel/src/process/process.rs:107-152 | `first_execution_init` in place: trap frame added, space verified and asked to translate it, context filled in, panics included. |
| `ProcessManagers.MakeInitBlock` | kernel/src/process/process.rs:239-253 | `make_initcode_uninitialised` in place is the function on values, panics included. |
| `Trampoline.UservecSaves` | kernel/src/asm/trampoline.S:29-86 | From user mode `__uservec` never faults, saves x1 to x31, tp and the pc exactly, puts the trap-frame address back in sscratch, and starts the handler on the kernel table and stack. |
| `Trampoline.SavedPageHolds` | kernel/src/asm/trampoline.S:40-70 | The saved page holds exactly those values, and its kernel slots are untouched. |
| `Trampoline.UserretRestores` | kernel/src/asm/trampoline.S:89-125 | Called with the satp of a user table, `__userret` restores every register from x2 on (x1 on in the intended form) and the pc, from any register file. |
| `TrapCycles.TrapRunsKeepContext` | kernel/src/trap/mod.rs:107-158 | Over every sequence of trap cycles between any processes nothing faults and no assertion fails, sscratch holds the trap-frame address at each user entry, every trap frame keeps naming kernel table, handler and the process's own kernel stack, and the trap frames refine one private register file and pc per process. |
| `TrapCycles.CycleRefines` | kernel/src/trap/mod.rs:107-158 | Each cycle is one step of that abstract machine: the next process continues where it stopped with its own registers, but for tp and, as written, x1. |
| `TrapCycles.TrapEnters` | kernel/src/asm/trampoline.S:29-86 | From every user entry a trap starts the handler, on the kernel's table and at the top of the kernel stack of the process that trapped. |
| `TrapCycles.ReturnRestores` | kernel/src/asm/trampoline.S:113-121 | A process that traps and returns gets back x2 to x31 except tp, and x1 exactly when the kernel happened to hold the same value. |
| `TrapCycles.IntendedRestoresAll` | kernel/src/asm/trampoline.S:113-121 | In the intended form x1 comes back too, and the two forms differ in nothing else. |
| `TrapCycles.ReturnAddressLost` | kernel/src/asm/trampoline.S:113-117 | A witness cycle after which the user return address is lost. |
| `TrapCycles.FirstEntry` | kernel/src/process/process.rs:129-142 | The kernel can enter a new process exactly when it runs on the table that the trap frame names with sscratch set; the process starts at its text base with the registers of its page, but for tp and x1, in a state from which trap cycles run. |
| `TrapCycles.FirstPageSlots` | kernel/src/process/process.rs:138-150 | Slot by slot: the setters write words 32, 33, 35 and 36 of the trap frame, each its own value, and keep every other word. |
| `TrapHarts.RiscvHart.Execute` | kernel/src/asm/trampoline.S:29-125 | Executing a program in place, instruction by instruction, gives the run on values, faults included. |
| `TrapHarts.RiscvHart.TrapCycle` | kernel/src/trap/mod.rs:52-158 | A trap cycle in place, from the entry through the setters of the trap context in memory to the return, is the cycle on values, panics included. |
| `TrapHarts.RiscvHart.SyscallCycle` | kernel/src/trap/syscall.rs:32-46 | A system call in place is the cycle that resumes four bytes after the trap, panics included; it panics also when that address overflows. |
| `TrapHarts.RiscvHart.ReturnToUser` | kernel/src/trap/mod.rs:107-158 | `usertrapret` in place: both assertions, the saved tp, and `__userret`. |
| `TrapHarts.TrapContext.FirstExecutionInit` | kernel/src/process/process.rs:138-150 | The setters write exactly the four kernel slots of this trap frame and of no other; they fail exactly for an unaligned or overflowing stack. |
| `TrapHarts.TrapContext.SetKernelStack` | kernel/src/process/context.rs:58-63 | The stack slot gets the top of the page; an unaligned base panics. |
| `TrapSpaces.TrapsApart` | kernel/src/mm/address_space.rs:403-416 | In every state with the ownership invariant, so in every state of every run, the trap frames of two processes are different frames, and so are the `satp` values of their tables. |
| `TrapSpaces.TrapTarget` | kernel/src/asm/trampoline.S:29-86 | The trap-frame address, translated by the hardware through the table of a process, leads to the words of that process's own trap frame. |
| `TrapSpaces.TrapIsPrivileged` | kernel/src/mm/address_space.rs:403-416 | In user mode no load, store or fetch at an address of the trap-frame page succeeds. |
| `TrapSpaces.StepKeepsData` | kernel/src/mm/memory.rs:253-269 | No step of a run touches a data frame of a space but a store into that space, and none but its drop takes the frame away. |
| `TrapSpaces.StepKeepsBacks` | kernel/src/mm/address_space.rs:281-290 | Whatever happens to other spaces, tables and the allocator, the trap pages of all processes stay as they are. |
| `TrapSpaces.NewTrapBacks` | kernel/src/mm/address_space.rs:281-290 | `init_trapframe` adds a page of zeros beside the trap pages of the other processes. |
| `TrapSpaces.StoreBacks` | kernel/src/asm/trampoline.S:40-70 | A store that reaches a trap frame, through whatever table, changes one word of that trap page and no other trap page. |
| `TrapSpaces.KernelReachesTrap` | kernel/src/process/process.rs:67-76 | On its table, locked or not, the kernel reaches every trap frame for writing at its physical address. |
| `TrapRuns.LoadReadsMemory` | kernel/src/asm/trampoline.S:89-125 | A load of the trampoline reads what the hardware finds through the loaded table. |
| `TrapRuns.CycleOnTables` | kernel/src/trap/mod.rs:52-158 | A whole cycle on the tables of a run: the entry stores through the process's table in supervisor mode and leaves the kernel's loaded, through which the handler writes. |
| `TrapRuns.TrapRunsOnTables` | kernel/src/trap/mod.rs:52-158 | Over every sequence of cycles between the processes of a run nothing faults, the only steps are the kernel's stores into trap frames, and every process but the running one has its registers and pc in its own physical trap frame. |

## Left out

- Devices, printing, boot code, the kernel heap allocator, the file system, system-call dispatch and the stubs for scheduling and exit.
- Locks, atomics and TLB fences: every operation is one atomic step, and a shared `Arc` is a shared reference.
- `__kernelvec` and `__timervec`: traps taken in the kernel itself and the timer's machine-mode entry.
- Accessed and dirty bits, superpages and the MXR and SUM bits of the hardware: the kernel builds no superpage and sets neither bit.
- `FrameGuard` as an object: a guard is represented by the frame it holds, and the holders of a run stand for moves and takes.
- `VirtArea` as an object: an area is a value, and `track_frame` gives a new one.
- Addresses of physical memory outside the frames of the model: following an entry into a frame that memory does not have is a panic.
- Names, permissions conversion (`PageFlags` to `PTEFlags`) and debug output of areas.
- Ownership.RunsKeepInv: the stores of a run are those that reach a data frame of some space; a store that reaches a node of a table, which locking is there to catch, is not a step.
- AddrSpaces.AllocateDataFrame: copies a word at a time where the source copies a byte at a time.
- ProcessManagers.ProcRunsKeepInv: a process and its space are never dropped, as the source never removes one.
- TrapCycles.TrapRunsKeepContext: the handler between entry and return is any change of the kernel's registers, of the saved pc of the process that trapped and of the saved tp of the one returned to; handlers that write other slots are not covered.
- TrapHarts.TrapContext.SetKernelStack: `set_user_stack`, which has the same form, and the plain getters are not modelled.
