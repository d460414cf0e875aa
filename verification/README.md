# Verification of the seL4 Core Platform tool, loader and runtime

This project models the parts of the seL4 Core Platform that must agree with each other across
languages and stages, and proves that they do. The build tool (Python) predicts what the seL4 kernel
will do at boot and emits a table of kernel invocations that is right only if the prediction is exact;
the initial task (C) interprets that table; the loader (Python and C) carries everything into memory
and switches on page tables; the C library underneath copies words at a time.

`dafny verify dfyconfig.toml` checks everything.

## Modules

- `Bits`, `Bytes`: Python's unbounded integers under `&`, `|` and shifts, 64-bit wrapping, little-endian packing.
- `Regions`, `RegionSet`: memory regions, their split into aligned powers of two on wrapped virtual
  addresses, and the sorted interval set as a class edited in place.
- `Boot`: the emulated kernel boot, first as a function of the memory map, then on the region sets.
- `BootMemory`: what the boot makes of each address and each capability, in terms of the memory map alone.
- `Allocation`, `InitSystem`, `Reservation`: the tool's allocators as functions and as classes, and an
  aligned bump allocator for the kernel that replays the emitted Retype invocations.
- `KernelObjects`: the kernel's own object sizes against the requests and charges of the tool.
- `Placement`: where the kernel puts the objects of a run when it takes less for them than the tool
  charges, and how objects lie to each other.
- `Invocations`: what an invocation means, its encoding, and the interpreter with its registers.
- `EndToEnd`: boot, bootstrap, allocation, encoding and execution put together.
- `SystemMemory`: which objects a system has and which memory they lie in.
- `Ram`, `MemString`: byte memory and the library routines on it.
- `PageTables`, `LoaderImage`: the loader's tables under a VMSAv8-64 walk (section D5.3 of Arm DDI 0487
  issue F), and the image as written and as read.
- `Domains`, `Paging`, `Badges`, `Sizing`: scheduling domains, paging structures, badges, and the loop
  that sizes the system.

A method that follows a loop or an object of the source is proved against a specification function or
predicate; the theorems are about those. A failure (an exception, an assertion, `fail`) is `None`,
`false` or an outcome, never a precondition, unless a line below says otherwise.

## Where the code does not do what is expected of it

Each of these is a lemma with a concrete input, an exact condition, or both.

- Asking for no large pages, which the tool does for every system without them, moves the allocation
  point up to 2 MiB while no invocation is emitted, so later addresses are recorded too high
  (`Allocation.EmptyRequestMisplaces`). What a request records is exact, and stays so, if and only if it is
  for at least one object, or the point is aligned already (`Allocation.StepReproduced`).
- Scheduling contexts are charged 32 times their size, and every protection domain gets one, so the objects
  recorded after the first are recorded too high (`Allocation.ContextsMisplaced`). All other requests are
  charged exactly what the kernel takes (`KernelObjects.ChargesMatchKernel`), so that one allocation of some
  objects is exact if and only if it is not of scheduling contexts (`KernelObjects.KernelReproduces`). In any
  case the kernel refuses nothing and places every object at or below its recorded place, fixed ones exactly
  (`Placement.RunNeverShort`, `EndToEnd.SystemFollows`).
- Fixed objects are not checked to end inside their untyped (`Allocation.FixedPastEndRefused`); their
  alignment is checked where the XML is read. The kernel places them as recorded if and only if both hold.
  Padding from a watermark of 0 fails, since 0 has no lowest set bit.
- The bootstrap fails for invocation tables far below the 128 MiB the tool allows: as soon as one untyped gives
  more than 256 pages (`Reservation.FanOutLimits`, `Reservation.LargeTableRefused`).
- `insert_region` refuses a range that ends exactly where a region starts (`RegionSet.InsertSucceeds`).
- The encoder accepts a repeat count of 2^32 (`Invocations.CountEncodable`), for which the interpreter's
  32-bit loop counter never gets there (`Invocations.MaximalCountHangs`), and labels below 2^50, of which the
  interpreter keeps 20 bits. An encoded invocation is executed as meant if and only if its label is below
  2^20 and its count below 2^32 (`Invocations.ExecutesAsMeantIff`). A repeat count of 0 executes once.
- The kernel is mapped right only if its lowest virtual and physical addresses agree modulo 2 MiB, and
  only in the 1 GiB block of its first address (`PageTables.KernelMapped`).
- Channel 62, which the XML reader accepts, gives a notification that is taken for a fault
  (`Badges.NotificationsDelivered`).
- A protection domain declared beside partitions breaks the grouping that the domain invocations rely on
  (`Domains.DomainsRightIff`, `Domains.MixedDeclarationsMisassign`).
- The XML reader says that overlapping mappings are found by the build; nothing in the build looks for them
  (`Paging.RepeatedPageRefused`). The emitted calls succeed if and only if no two pages of one domain
  overlap (`Paging.MapsSucceed`).
- `mask_bits` asserts on 0, so a mapping at address 0 makes the build fail (`Paging.RequiredStructures`).

## Model

| member | source | states |
|---|---|---|
| Bits.Msb | tool/sel4coreplat/util.py:21-22 | the exponent of the highest power of two not above x, and -1 for 0 |
| Bits.LsbMeaning | tool/sel4coreplat/util.py:25-26 | `msb(x & -x)` is the exponent of the largest power of two that divides a positive x |
| Bits.IsPowerOfTwoMeaning | tool/sel4coreplat/util.py:44-47 | `n & (n - 1) == 0` accepts exactly the powers of two |
| Bits.RoundUpLeast | tool/sel4coreplat/util.py:29-31 | round_up gives the least multiple of x that is at least n |
| Bits.RoundDownGreatest | tool/sel4coreplat/util.py:34-36 | round_down gives the greatest multiple of x that is at most n |
| Bits.MaskBits | tool/sel4coreplat/util.py:38-41 | the multiple of 2^bits at or just below n |
| Bits.MachineWrapMod | tool/sel4coreplat/util.py:57-60 | masking with 2^64 - 1 is reduction modulo 2^64, for negative numbers too |
| Bits.WrapShift | tool/sel4coreplat/util.py:62-66 | wrapping operands of additions and subtractions early or late makes no difference |
| Regions.AlignedPowerOfTwoRegions | tool/sel4coreplat/util.py:83-113 | the loop on wrapped virtual addresses ends, also across the wrap to 0, with the split of the physical region |
| Regions.SplitIsGreedyTiling | tool/sel4coreplat/util.py:95-113 | a list of pieces is the split if and only if it tiles [base, end) in order with pieces each of the greatest 2^k that virtual alignment, the remaining size and max_bits permit |
| Regions.TilesCover | tool/sel4coreplat/util.py:83-113 | a tiling holds every address of [base, end) in exactly one piece and no other address |
| Regions.SplitRisesThenFalls | tool/sel4coreplat/util.py:97-111 | in a region of at most 2^max_bits bytes the piece sizes first strictly grow and then strictly shrink |
| Regions.SplitPieceCount | tool/sel4coreplat/util.py:97-111 | in such a region no size occurs three times and there are at most 2 * (msb(size) + 1) pieces |
| Regions.SplitAlignedPhysically | tool/sel4coreplat/sel4.py:829-832 | with the kernel base 2^64 - 2^39, every piece below 2^40 is aligned to its size in physical space too |
| RegionSet.CheckMeansOrdered | tool/sel4coreplat/util.py:128-134 | comparing neighbours, as `_check` does, accepts exactly the sorted and pairwise disjoint lists |
| RegionSet.DisjointMemoryRegion.CheckRegions | tool/sel4coreplat/util.py:128-134 | decides whether each region starts no lower than the one before ends |
| RegionSet.DisjointMemoryRegion.InsertRegion | tool/sel4coreplat/util.py:140-150 | the list edited in place is the insertion of the range, or the method reports the failed check |
| RegionSet.DisjointMemoryRegion.RemoveRegion | tool/sel4coreplat/util.py:152-173 | the list edited in place is the removal of the range from the first region that covers it, or a failure is reported |
| RegionSet.DisjointMemoryRegion.AllocateFromBound | tool/sel4coreplat/util.py:200-209 | the base of the first region large enough at or above the bound, whose range is taken out |
| RegionSet.DisjointMemoryRegion.AlignedPowerOfTwoRegions | tool/sel4coreplat/util.py:175-179 | the splits of all regions, one after the other |
| RegionSet.RemoveSucceeds | tool/sel4coreplat/util.py:152-173 | removal succeeds if and only if one region starts at or below the range and ends at or above it, and keeps the list sorted and disjoint |
| RegionSet.RemoveCover | tool/sel4coreplat/util.py:152-173 | removal subtracts exactly its range, address by address |
| RegionSet.RemoveKeepsOthers | tool/sel4coreplat/util.py:152-173 | removal keeps every other region as it is and leaves of the covering one the non-empty parts beside the range |
| RegionSet.InsertSucceeds | tool/sel4coreplat/util.py:140-150 | insertion is accepted if and only if every region ends by `base` or starts strictly above `end`, and keeps the list sorted and disjoint |
| RegionSet.InsertBelowAdjacentFails | tool/sel4coreplat/util.py:142-150 | in any sorted and disjoint list, a range that ends where some region starts is refused, and one that starts where the last region ends is accepted |
| RegionSet.InsertCover | tool/sel4coreplat/util.py:140-150 | insertion adds exactly its range |
| RegionSet.InsertKeepsOthers | tool/sel4coreplat/util.py:140-150 | insertion keeps every region as it is: adjacent ones are not joined |
| RegionSet.AllocateLowestFit | tool/sel4coreplat/util.py:200-209 | allocation succeeds if and only if a region from the bound on has the size, and takes the front of the lowest |
| RegionSet.ReservedThenInitialTask | tool/sel4coreplat/__main__.py:747-766 | the reserved range and the initial task lie in that order above the kernel boot region, and removing them in the opposite order succeeds and leaves the same list |
| Boot.PagingCountsBlocks | tool/sel4coreplat/sel4.py:125-128 | block k of 2^bits bytes meets the region if and only if k is one of the counted numbers from the first block on |
| Boot.KernelPartialBoot | tool/sel4coreplat/sel4.py:835-873 | the region sets edited in place are the device and normal memory of the partial boot, or the failure of one of its steps |
| Boot.FindRootserver | tool/sel4coreplat/sel4.py:911-920 | the scan from the highest region down finds the place chosen for the root server |
| Boot.RootserverHighest | tool/sel4coreplat/sel4.py:911-920 | that place is the greatest aligned address where a region holds the block, and there is none only if no region holds it |
| Boot.EmulateKernelBoot | tool/sel4coreplat/sel4.py:889-955 | the whole emulation on sets edited in place gives the boot info described by the specification |
| Boot.BootConservesMemory | tool/sel4coreplat/sel4.py:835-955 | each address below paddr_user_device_top is in exactly one of the untyped objects, the initial task, the root server block, one device frame that is not user-available and the kernel image past its boot part, and no other address is in any |
| Boot.UntypedObjectsExact | tool/sel4coreplat/sel4.py:922-955 | each untyped object is an aligned block of 2^size_bits bytes in physical memory; caps are consecutive up to first_available_cap; device objects come first |
| Boot.ExampleBoots | tool/sel4coreplat/sel4.py:889-955 | a machine with 1 GiB of memory on which the emulation succeeds, so what is assumed of a boot can be met |
| Boot.ToolPlanAccepted | tool/sel4coreplat/sel4.py:898-920 | with the ranges the tool itself chose, the emulation fails only if no region can hold the root server |
| BootMemory.PartialBootByKind | tool/sel4coreplat/sel4.py:835-873 | for every address: it is left as device memory if and only if it is below the top, outside every RAM range and every frame that is not user-available; as normal memory if and only if it is in RAM and outside the kernel image |
| BootMemory.MemoryByKind | tool/sel4coreplat/sel4.py:889-955 | for every address: it is in a device untyped if and only if it is in the reserved range, or below the top and outside RAM and the frames of the kernel; in a normal one if and only if it is in the boot part of the kernel, or in RAM outside the kernel image, the initial task, the reserved range and the root server |
| BootMemory.UntypedsByKind | tool/sel4coreplat/sel4.py:929-946 | the list is, in order, the greedy tilings (blocks up to 2^47, aligned at 2^64 - 2^39 above) of the reserved range and the free device regions, marked as device, then of the boot part and the free normal regions |
| BootMemory.RootserverPlaced | tool/sel4coreplat/sel4.py:907-920 | the root server is at the greatest multiple of 2^17 at which a region of RAM outside the kernel image, the initial task and the reserved range holds it |
| BootMemory.PagingCount | tool/sel4coreplat/sel4.py:125-128 | as many tables of a level as blocks of 2^bits bytes meet the region |
| BootMemory.RootserverPacks | tool/sel4coreplat/sel4.py:144-167 | the size is 0x24880 bytes and a page for each block of 512 GiB, 1 GiB and 2 MiB that meets the initial task; the objects of the root server, placed largest first from a multiple of 2^17, are each aligned to their own size and fill the block |
| BootMemory.BootCaps | tool/sel4coreplat/sel4.py:922-955 | 15 fixed caps, one for each of those blocks, the scheduling control cap, one for each whole page of the initial task, then the untyped objects in order up to first_available_cap |
| Allocation.RoomIndex | tool/sel4coreplat/__main__.py:291-297 | the first untyped with room for the aligned run of objects |
| Allocation.BatchesReplay | tool/sel4coreplat/__main__.py:627-642 | however a count is cut by fan_out_limit, the kernel places the objects in one aligned row |
| Allocation.PadsReplay | tool/sel4coreplat/__main__.py:553-588 | the kernel places every pad exactly at the watermark, and padding ends at the requested address |
| Allocation.PadsAreSplit | tool/sel4coreplat/__main__.py:568-575 | the pads are the greedy split of the gap, at most 2 * (msb(gap) + 1) of them |
| Allocation.StepReproduced | tool/sel4coreplat/__main__.py:534-654 | from agreement, with kernel objects no larger than charged, the kernel reproduces one allocation as recorded if and only if it is of at least one object charged exactly what the kernel takes, or of none from an aligned point, or fixed, size-aligned and inside its untyped |
| Allocation.RunReproduced | tool/sel4coreplat/__main__.py:534-654 | for every run of allocations that meet this condition the kernel, executing the retypes, puts each object in its slot at exactly the recorded address and ends in agreement with the tool |
| Allocation.EmptyRequestMisplaces | tool/sel4coreplat/__main__.py:1180-1184 | an input for which an empty request for large pages makes the recorded address of the next object wrong |
| Allocation.ContextsMisplaced | tool/sel4coreplat/__main__.py:1231 | two scheduling contexts of size 256, the second recorded 0x2000 bytes past the first and placed 0x100 bytes past it |
| Allocation.FixedPastEndRefused | tool/sel4coreplat/__main__.py:534-609 | a fixed large page at the start of a device untyped of 1 MiB: the tool records it, the kernel refuses it |
| KernelObjects.ChargesMatchKernel | tool/sel4coreplat/__main__.py:611-622 | every accepted request is charged what the kernel takes for its type and size_bits, scheduling contexts 32 times that; 2^size_bits is the size asked for |
| KernelObjects.SizesAccepted | tool/sel4coreplat/__main__.py:613-622 | accepted are the ten types of fixed size without a size, and CNodes and scheduling contexts with a power of two |
| KernelObjects.KernelReproduces | tool/sel4coreplat/__main__.py:534-654 | with the object sizes of the kernel: from agreement, an allocation is reproduced as recorded if and only if it is of some objects other than scheduling contexts, of none from an aligned point, or fixed, size-aligned and inside its untyped |
| KernelObjects.ObjectsAccepted | tool/sel4coreplat/__main__.py:291-303 | an allocation succeeds if and only if its size is accepted and some untyped has room from an aligned address at or above its allocation point on |
| KernelObjects.FixedAccepted | tool/sel4coreplat/__main__.py:534-556 | a fixed allocation succeeds if and only if its type has a fixed size, it is no lower than the end of the last one, and the first device untyped holding the address is not used past it nor stands at 0 below it |
| KernelObjects.RunFixedAscending | tool/sel4coreplat/__main__.py:534-609 | in every run that succeeds, fixed objects come in ascending order without overlap, whatever lies between them |
| Placement.RunNeverShort | tool/sel4coreplat/__main__.py:291-303 | for every run whose fixed objects can be placed, with kernel objects of any size up to the charge and empty requests allowed: no retype is refused, each object is placed with its type in its slot, starts and ends at or below its recorded start and end, and is exactly as recorded when fixed |
| Placement.RunDisjoint | tool/sel4coreplat/__main__.py:291-303 | all recorded objects of a run are aligned to their size, inside the unused part of one untyped, and pairwise disjoint |
| Placement.RunInOwnKind | tool/sel4coreplat/__main__.py:499-518 | ordinary objects of a run lie in the unused part of an untyped that is not device memory, fixed ones in that of a device untyped |
| Placement.RunSlots | tool/sel4coreplat/__main__.py:534-654 | the retypes of a run, pads among them, fill the slots from the next free one on without a gap, and the objects are in distinct slots of that range |
| Placement.ReplayDisjoint | tool/sel4coreplat/__main__.py:259-272 | whatever retypes the kernel executes, what it places is aligned to its size, inside the unused part of one untyped, and pairwise disjoint |
| InitSystem.KernelObjectAllocator.constructor | tool/sel4coreplat/__main__.py:281-289 | one unused allocator for each untyped object that is not device memory |
| InitSystem.KernelObjectAllocator.Alloc | tool/sel4coreplat/__main__.py:291-303 | the allocation points updated in place, and the result, are those of the specification; a failure changes nothing |
| InitSystem.InitSystem.constructor | tool/sel4coreplat/__main__.py:499-518 | one fixed allocator for each device untyped, its watermark at the base |
| InitSystem.InitSystem.Reserve | tool/sel4coreplat/__main__.py:520-531 | the watermarks named by the allocations are moved, or the failure is reported |
| InitSystem.InitSystem.PaddingSizes | tool/sel4coreplat/__main__.py:568-575 | the pad sizes for a gap above a positive watermark |
| InitSystem.InitSystem.EmitPadding | tool/sel4coreplat/__main__.py:577-588 | one retype and one slot for every pad, appended in order |
| InitSystem.InitSystem.AllocateFixedObjects | tool/sel4coreplat/__main__.py:534-609 | state, invocations and objects after a fixed allocation are those of the specification, or it fails as the original raises |
| InitSystem.InitSystem.EmitBatches | tool/sel4coreplat/__main__.py:627-642 | retypes of at most fan_out_limit objects, appended in order |
| InitSystem.InitSystem.AllocateObjects | tool/sel4coreplat/__main__.py:611-654 | state, invocations and objects after an allocation are those of the specification, or it fails as the original raises; every retype asks for the type and the size_bits for which the kernel takes the recorded size (a 32nd of it for scheduling contexts) |
| Reservation.SplitPageAligned | tool/sel4coreplat/util.py:83-113 | a page-aligned region splits into page-aligned pieces |
| Reservation.RetypePages | tool/sel4coreplat/__main__.py:967-996 | the loop over device untypeds gives the retypes and watermarks of the specification, or fails at its assertion |
| Reservation.FanOutLimits | tool/sel4coreplat/__main__.py:979 | it goes through if and only if no untyped that is reached gives more than fan_out_limit pages |
| Reservation.LargeTableRefused | tool/sel4coreplat/__main__.py:979 | a table of 2 MiB in one untyped of 2 MiB, which the assertion refuses |
| Reservation.BootstrapReserves | tool/sel4coreplat/__main__.py:967-996 | the kernel executing the bootstrap page retypes lays out the pages in order over the physical range of the table, and `reserve` moves every watermark to where the kernel then stands |
| Invocations.Sel4Invocation.SetRepeat | tool/sel4coreplat/sel4.py:431-438 | a count above 1 with known, non-empty increments is recorded; a count of 1 or less leaves a single execution |
| Invocations.TagRoundTrip | tool/sel4coreplat/sel4.py:418-424 | the label survives the 32 bits kept for it if and only if it is below 2^20, and then the whole first word is read back |
| Invocations.FirstWord | tool/sel4coreplat/sel4.py:388-396 | the first word is (count - 1) * 2^32 + label * 2^12 + caps * 2^7 + length |
| Invocations.EncodedLayout | tool/sel4coreplat/sel4.py:388-405 | where each word of an encoded invocation stands, which is what the interpreter computes its offsets from |
| Invocations.EncodeThenExecute | tool/sel4coreplat/sel4.py:388-438 | reading an encoded invocation consumes exactly its words and makes, in order, every iteration i with service, caps and message registers base + i * increment modulo 2^64 |
| Invocations.ExecutesAsMeantIff | tool/sel4coreplat/sel4.py:388-438 | for an invocation the encoder accepts, the loop of the interpreter, on its 32-bit counter, ends with exactly the calls meant if and only if the label is below 2^20 and the count below 2^32 |
| Invocations.LoopEnds | sysinit/src/main.c:234 | below 2^32 iterations the loop on the wrapping counter ends, with the calls of all iterations and no others |
| Invocations.LoopNeverEnds | sysinit/src/main.c:234 | from 2^32 iterations on the loop never ends |
| Invocations.MaximalCountHangs | sysinit/src/main.c:234 | an invocation repeated 2^32 times that the encoder accepts and on which the loop never ends |
| Invocations.CountEncodable | tool/sel4coreplat/sel4.py:388-405 | an invocation whose other words fit is encoded if and only if its count is at most 2^32 |
| Invocations.TableExecutes | tool/sel4coreplat/sel4.py:388-438 | walking the concatenated encodings of any list consumes exactly their words and makes every call the list stands for |
| Invocations.PerformInvocation | sysinit/src/main.c:186-302 | the loop, on a counter that wraps at 2^32, runs as its step semantics says: it makes the calls of the invocation, in order, up to the first error, and returns the next offset if there is none; unwrapped caps are refused before any call |
| Invocations.SetCaps | sysinit/src/main.c:243-256 | the capability registers of iteration i |
| Invocations.SetMRs | sysinit/src/main.c:258-277 | the message registers of iteration i, the first four of them kept in variables |
| Invocations.RunTable | sysinit/src/main.c:327-330 | one loop of `main` makes the calls of its table, in order, up to the first error |
| Invocations.Sysinit | sysinit/src/main.c:327-336 | both loops: all calls of the bootstrap table and then of the system table, unless one fails |
| EndToEnd.EmulatedUntypeds | tool/sel4coreplat/sel4.py:938-955 | the untyped objects of an emulated boot have distinct caps, do not overlap, and have the device ones first |
| EndToEnd.BootAgrees | tool/sel4coreplat/__main__.py:281-289 | right after boot the fresh allocators and the kernel agree on every untyped object |
| EndToEnd.ReservedComesFirst | tool/sel4coreplat/sel4.py:938-946 | the reserved range comes first among the device untypeds, in whole pages |
| EndToEnd.BootstrapAgrees | tool/sel4coreplat/__main__.py:967-1006 | after the page retypes the kernel stands where `reserve` puts the tool |
| EndToEnd.InterleavedRetypes | tool/sel4coreplat/sel4.py:442-454 | retypes carried by invocations among others are the retypes the kernel gets |
| EndToEnd.RetypeCall | tool/sel4coreplat/sel4.py:442-454 | the call of an encoded retype: method 1 on the untyped, the CNode as extra cap, then type, size_bits, index, depth, offset and count in that order |
| EndToEnd.TablesFor | tool/sel4coreplat/__main__.py:1006 | that many tables of 2 MiB cover the invocation table and one fewer do not |
| EndToEnd.BootstrapReproduced | tool/sel4coreplat/__main__.py:856-1024 | after all bootstrap retypes (root and system CNode, pages of the invocation table, page tables) kernel and tool agree and every object is where the tool takes it to be |
| EndToEnd.SystemFollows | tool/sel4coreplat/__main__.py:856-1184 | from the emulated boot to the last object, with the object sizes of the kernel: executing the encoded bootstrap table and then the encoded system table, the kernel refuses no retype, puts the bootstrap objects exactly as recorded, every other object in its slot at or below its recorded place and fixed ones exactly there; all objects, those of the bootstrap included, are aligned and pairwise disjoint |
| EndToEnd.SystemPlaced | tool/sel4coreplat/__main__.py:856-1184 | the special case in which every allocation is one that `KernelReproduces` finds reproduced: every object is in its slot at exactly its recorded address, and the objects of bootstrap and system together are pairwise disjoint |
| SystemMemory.BootstrapObjects | tool/sel4coreplat/__main__.py:856-1024 | the objects of the bootstrap: a CNode of 2 slots, the system CNode of the given number of slots, a power of two, the pages of the table in order over the reserved range, and as few page tables as cover it, no more than fan_out_limit, each in its slot |
| SystemMemory.ObjectsInRightMemory | tool/sel4coreplat/__main__.py:856-1184 | no object of a system is recorded in memory of the wrong kind: each byte of an ordinary object is in the boot part of the kernel or in RAM that nothing else has taken, each byte of a fixed one in the reserved range or outside RAM and the frames of the kernel |
| MemString.MergeIsUnaligned | libdummycrt/src/string.c:82-89 | merging two neighbouring aligned words by shifts gives the unaligned word across them |
| MemString.CopyShifted | libdummycrt/src/string.c:74-123 | each of the three shift-and-merge loops copies its bytes, with w the last aligned source word |
| MemString.CopyAligned | libdummycrt/src/string.c:49-72 | the loop over aligned words and the tail by the bits of n |
| MemString.Memcpy | libdummycrt/src/string.c:29-148 | the bytes of the source stand at the destination and nothing else changed, for every length and alignment of regions that do not overlap; every load and store stays in its region, word accesses aligned |
| MemString.MemsetLoop | libdummycrt/src/string.c:211-229 | the 64-bit loop covers what the head and tail stores left, at most 28 tail bytes remaining |
| MemString.Memset | libdummycrt/src/string.c:150-236 | every byte of the range is the fill byte and nothing else changed, for every length and alignment; stores stay inside, word stores aligned |
| MemString.HasZeroMeaning | libdummycrt/src/string.c:238-241 | HASZERO is non-zero if and only if some byte of the word is zero |
| MemString.CopyStringAligned | libdummycrt/src/string.c:250-258 | the path for equal alignment copies up to the first NUL or n bytes, also to a destination in the word of the terminator |
| MemString.Strncpy | libdummycrt/src/string.c:245-268 | the string up to its first NUL or n bytes, zeros up to n, nothing else changed, on both paths, for every destination that does not meet the string itself |
| PageTables.Lvl0Index | tool/sel4coreplat/loader.py:28-29 | bits 39 to 47 of the address |
| PageTables.Lvl1Index | tool/sel4coreplat/loader.py:32-33 | bits 30 to 38 of the address |
| PageTables.Lvl2Index | tool/sel4coreplat/loader.py:36-37 | bits 21 to 29 of the address |
| PageTables.StoreEntry | tool/sel4coreplat/loader.py:217 | a little-endian entry written into a table changes that entry only |
| PageTables.SetupPagetables | tool/sel4coreplat/loader.py:201-247 | the five tables hold the intended entries, or one of them does not fit in 64 bits |
| PageTables.LowerIdentity | tool/sel4coreplat/loader.py:206-217 | walking the tables maps the first 512 GiB of the lower half to themselves and nothing else of it |
| PageTables.UpperTranslation | tool/sel4coreplat/loader.py:219-239 | walking the tables maps the upper half from the 2 MiB block of the first address to the end of its 1 GiB block, onto consecutive physical memory, and nothing else |
| PageTables.ScanSegments | tool/sel4coreplat/loader.py:102-131 | the scan finds the lowest virtual and physical address of the loadable segments, which belong to one segment, or fails if there is none or the offsets differ |
| PageTables.KernelMapped | tool/sel4coreplat/loader.py:102-157 | a byte of a kernel segment is mapped to the physical address it is loaded at if and only if it lies in the 1 GiB block of the first segment and the lowest addresses agree modulo 2 MiB |
| PageTables.MisalignedKernelMisplaced | tool/sel4coreplat/loader.py:229-239 | a kernel start that is mapped 4 KiB below where it is loaded |
| PageTables.PatchImage | tool/sel4coreplat/loader.py:158-164 | the image with all tables spliced in, or the failure of an assertion |
| PageTables.PatchPlaces | tool/sel4coreplat/loader.py:158-164 | tables inside the image that do not overlap each stand in their place, and nothing else changed |
| PageTables.PatchedIsInstalled | tool/sel4coreplat/loader.py:158-164 | the tables are where the walk starts and leads, wherever the image is loaded at its own addresses |
| LoaderImage.CheckNonOverlapping | tool/sel4coreplat/loader.py:54-63 | accepts exactly the lists of regions that are pairwise apart |
| LoaderImage.WriteImage | tool/sel4coreplat/loader.py:249-261 | the file is the loader followed by header, region table and data, each header field at its offset in `struct loader_data`, or packing fails |
| LoaderImage.HeaderRoundTrip | loader/src/loader.c:58-70 | each field reads back from its own offset in `struct loader_data`: magic at 0, flags 8, kernel_entry 16, ui_p_reg_start 24, ui_p_reg_end 32, pv_offset 40 (signed), v_entry 48, extra device address 56 and size 64, number of regions 72 |
| LoaderImage.RegionRoundTrip | loader/src/loader.c:51-56 | address, size, offset and type (1) of each region read back as written, and its data is found at that offset |
| Bytes.LittleEndian | tool/sel4coreplat/loader.py:249-261 | the byte at the lowest address of a packed word is the least significant |
| LoaderImage.Memcpy | loader/src/loader.c:104-112 | a byte copy from the front |
| LoaderImage.CopyData | loader/src/loader.c:371-382 | the loop copies region after region, reading the table from memory as it then stands |
| LoaderImage.ImageRoundTrip | loader/src/loader.c:371-382 | for all regions that pass the check and do not aim at the file, each region has its bytes at its address afterwards and all other memory is unchanged |
| LoaderImage.OrderImmaterial | loader/src/loader.c:371-382 | the order of the regions makes no difference to any byte on which the memories agreed before |
| Domains.FlattenSucceeds | tool/sel4coreplat/sysxml.py:151-157 | flattening fails if and only if some node has two children with the same id |
| Domains.FlattenRoundTrip | tool/sel4coreplat/sysxml.py:151-171 | reading the flat list back by its parent links gives the trees again: every protection domain is kept once, in preorder |
| Domains.ParentsEarlier | tool/sel4coreplat/sysxml.py:159-161 | every parent link leads to an earlier entry of the list |
| Domains.SystemDescription.Load | tool/sel4coreplat/sysxml.py:174-212 | accepts exactly systems with unique partition ids and names, at most 62 domains directly in a partition and known partitions, and counts the domains of each partition |
| Domains.EmitDomains | tool/sel4coreplat/__main__.py:1978-1983 | one repeated invocation for every partition, over consecutive threads |
| Domains.DomainsRightIff | tool/sel4coreplat/__main__.py:1978-1983 | each thread gets exactly one call, with the partition of its protection domain, if and only if the flat list is grouped by partition in the declared order and no partition is empty |
| Domains.DeclaredDomainsRight | tool/sel4coreplat/__main__.py:1978-1983 | so it does for every system declared wholly in partitions, or with the default partition |
| Domains.MixedDeclarationsMisassign | tool/sel4coreplat/sysxml.py:497-507 | three trees that the reader accepts, one of them declared beside two partitions, for which the domain invocations give threads the wrong domains |
| Paging.CollectPages | tool/sel4coreplat/__main__.py:1269-1275 | every page of every mapping of a protection domain, in order |
| Paging.RequiredStructures | tool/sel4coreplat/__main__.py:1261-1284 | the lists hold exactly the upper directories, directories and page tables that some page needs, each once, in order; fails if and only if a page is at address 0 or below |
| Paging.NeededMeans | tool/sel4coreplat/__main__.py:1269-1284 | needed are an upper directory for each 512 GiB and a directory for each 1 GiB in which a page begins, and a page table for each 2 MiB in which a page of 4 KiB begins |
| Paging.EmitMappings | tool/sel4coreplat/__main__.py:1879-1901 | all structures are mapped before any page, level by level |
| Paging.MapsSucceed | tool/sel4coreplat/__main__.py:1261-1284 | for pages of supported size and alignment, every call emitted finds the structure above it mapped and its own slot empty if and only if no two pages of one protection domain overlap, and then every page is mapped at the end |
| Paging.RepeatedPageRefused | tool/sel4coreplat/sysxml.py:265 | one small page mapped twice: the tool accepts it and the kernel refuses the last call |
| Badges.HandleMessage | libsel4cp/src/main.c:76-99 | the dispatch of one received badge: a fault from 2^62, seL4_Fail from 2^62 + 2^61, a PPC from 2^63 and a root PPC from 3 * 2^62 on, with their low 8 or 6 bits, and below them the notification loop |
| Badges.MintedBadges | tool/sel4coreplat/__main__.py:220-231 | the minted badges as numbers: 2^62 + id for faults, 2^63 + channel for PPCs, 3 * 2^62 + id for root PPCs, 2^62 + 2^61 for the fault of a root |
| Badges.NotifyAll | libsel4cp/src/main.c:91-98 | the do-while loop notifies every set bit in ascending order |
| Badges.BadgeRoundTrip | tool/sel4coreplat/__main__.py:220-231 | fault, PPC and root PPC badges reach their own handler with their own number if and only if the number fits the mask of the handler (256 threads, 64 channels); the badge of a root reaches seL4_Fail |
| Badges.NotificationsDelivered | tool/sel4coreplat/__main__.py:1790-1791 | for channels below 63 the word made of any signals notifies each signalled channel once, ascending, if and only if channel 62 is not among them |
| Badges.ThreadBadges | tool/sel4coreplat/__main__.py:1601-1624 | every iteration of the repeated mints makes a badge that dispatches as the fault, or root PPC, of its own thread; that thread numbers fit follows from the check of the CSpace layout |
| Sizing.RoundGrows | tool/sel4coreplat/__main__.py:2144-2163 | an unfinished round strictly grows one size and shrinks neither; sizes stay whole pages and powers of two, as the next build asserts; the next round has room for all this one produced |
| Sizing.NextLeast | tool/sel4coreplat/__main__.py:2159-2163 | the next table size is the least number of whole pages that is no smaller than the last and holds the data, the next CNode size the least power of two that is no smaller than the last and holds the caps |
| Sizing.SizeSystem | tool/sel4coreplat/__main__.py:2140-2163 | the loop ends for every build that fails above 128 MiB of table or beyond a CNode limit: with the sizes of the first round that fits, or at the round whose build fails; the rounds start from one page and two slots, and each takes the least sizes that would have fitted the one before |

## Left out

- ELF and XML reading, argument handling, reports, names of objects: segments, symbols, memory maps and trees of protection domains are inputs.
- Boot.BootConservesMemory: takes the kernel image's boot part to be a prefix of the image and ranges of the memory map to be proper and below 2^64, as the kernel's own build makes them.
- Boot.ToolPlanAccepted: takes the two ranges as found by allocate_from; the sizes they are asked for come from ELF files.
- Reservation.BootstrapReserves: takes the reserved range to be page-aligned; the tool takes whatever base the memory map leaves, which is page-aligned for page-aligned maps.
- Allocation.RunReproduced: the kernel is an aligned bump allocator in each untyped object, as the docstring of `KernelObjectAllocator` describes; other behaviour of Retype (slots in use, rights, limits on counts) is not modelled.
- Placement.RunNeverShort: takes the kernel's object sizes to be powers of two at most as large as the charge, and fixed objects and pads to be of exactly the size recorded. Kernel objects larger than the charge are left out.
- InitSystem.InitSystem.AllocateFixedObjects: with a count of 1 and one name, as the tool calls it. The device list stays in boot order instead of sorted by base, which makes no difference since untyped objects do not overlap.
- InitSystem.InitSystem.constructor: capability addresses (slot numbers under a mask) and names are left out.
- KernelObjects.ChargesMatchKernel: the kernel's sizes are those of seL4 on AArch64 that `sel4.py` lists; the kernel itself is not part of this model.
- SystemMemory.ObjectsInRightMemory: speaks of recorded places; where the kernel places an object lower, `EndToEnd.SystemFollows` says how far.
- DisjointMemoryRegion.allocate: first fit without a bound is not called by the tool.
- Invocations.PerformInvocation: the message info layout (label, unwrapped caps, extra caps, length) and the number of message registers, 128, are those of the seL4 API, whose headers are not part of this model; uninitialised registers have arbitrary values; offsets do not wrap, for tables below 2^32 words. For 2^32 iterations some later call is taken to fail, since without that there is no return, which `Invocations.LoopNeverEnds` states.
- Invocations.RunTable: repeat counts of 2^32, on which the loop inside never ends, do not occur in the table.
- Invocations.Sysinit: ends after the last invocation; the original then fails unless the last invocation has suspended it. The comparison of untyped objects at its start is left out.
- Invocations.EncodeThenExecute: TCB WriteRegisters, which packs its registers itself and is never repeated, is left out.
- EndToEnd.SystemFollows: the guard values and capability addresses in the other bootstrap invocations are left out; the fixed and ordinary allocations of a system are any run, its fixed objects aligned and inside their untypeds.
- MemString.Memcpy, MemString.Memset: the branches for compilers other than GCC and for big-endian machines.
- MemString.Strncpy: the string, or n bytes, lies in memory, which ends at a multiple of 8, so that the aligned word that holds the terminator can be read whole.
- PageTables.UpperTranslation: physical addresses below 2^48 and tables at page-aligned symbols; memory attributes and reserved bits of descriptors play no part in the walk.
- LoaderImage.WriteImage: the 32-bit header and region formats.
- LoaderImage.CopyData: the loader's own messages; fewer than 2^32 regions, which its counter needs.
- Domains.DomainsRightIff: capability addresses of threads do not wrap; the domains of threads spawned later are left out.
- Domains.SystemDescription.Load: memory regions, channels, interrupts and mappings of a system are checked by other loops; children come already ordered.
- Paging.MapsSucceed: the kernel refuses to map over something present and to map below something absent; which object each call names, caching, rights and address space identifiers are left out. Page sizes and alignments are those the XML reader accepts.
- Badges.HandleMessage: receiving, replying and the signal of passive protection domains are left out, and what the handlers do.
- Sizing.SizeSystem: the build is any function of the two sizes; `ceil(log2(n))` is exact here, as it is in floating point for sizes below 2^48.
- Thread-local storage, interrupt controller, serial output, exception levels and caches.
