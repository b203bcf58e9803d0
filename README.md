# moss kernel core in Dafny

This project models the core of moss, a small Rust kernel (`libkernel` plus the kernel crate `src/`) with a Python QEMU launcher, and proves properties of that model. Each source file of the core becomes one Dafny module. Pure code (decoders, offset arithmetic, flag checks, the launcher's argument builder) is modelled as datatypes, functions and lemmas. Code that changes state step by step is modelled as classes and methods proved against specification functions:

- the slab allocator and its manager;
- the ring buffer;
- the page-table walker, its teardown and the address-space operations;
- the block cache and buffer;
- the signalfd queue and the timer heap;
- the Unix-socket registry;
- the copy loops of copy_file_range and of the x86-64 user-copy routines.

Devices, user memory and page contents are maps or function parameters. Waiting and waking are outcomes: a call that would sleep returns a value saying so, and the state it would leave behind. Integers are unbounded; where the source's width matters, the wrap-around is written out or listed below.

The modules are:

| Module | What it models |
|---|---|
| QemuRunner | the launcher |
| Slabs, SlabAllocator, Heap, Frames | memory allocators |
| KernelBuffer | ring buffer |
| Permissions, PageOffset | permissions and page offsets |
| ProcVm | the memory map |
| PageWalk, PageTearDown, Arm64AddressSpace | Arm64 page tables |
| FileAttrs | file attributes |
| Fat32, Ext4, BlockCaching, BlockBuffering | file systems and block I/O |
| Process, ChildWait | tasks and wait |
| Epoll, SignalFds, Timer, ProcFs | event sources, the timer and procfs |
| UnixSockets, Sockets, SocketCalls | sockets |
| Pipes, CopyFileRange, Rename, Mount | file system calls |
| Uname, Hostname | uname and hostname |
| ClockSettime, Realtime | clocks |
| X86Exceptions, X86 | x86-64 |

`Common` holds the shared error codes and arithmetic helpers.

The launcher's binary path follows the code. `str.replace` deletes every occurrence of ".elf", not at most one (`QemuRunner.BinPathEveryOccurrence`).

## Model

| member | source | states |
|---|---|---|
| QemuRunner.BinPath | scripts/qemu_runner.py:23 | the derived binary path always ends in ".bin" |
| QemuRunner.RemoveAllAbsent | scripts/qemu_runner.py:23 | `str.replace` of a pattern that occurs nowhere returns the string unchanged |
| QemuRunner.RemoveAllOnce | scripts/qemu_runner.py:23 | a pattern that occurs exactly once, at k, is cut out and the two sides joined |
| QemuRunner.RemoveAllPlainPrefix | scripts/qemu_runner.py:23 | characters that cannot start ".elf" pass through the replacement unchanged |
| QemuRunner.BinPathNoElf | scripts/qemu_runner.py:23 | a path without ".elf" simply gets ".bin" appended |
| QemuRunner.BinPathOneElf | scripts/qemu_runner.py:23 | a path holding ".elf" once loses it wherever it is, then gets ".bin" |
| QemuRunner.BinPathEveryOccurrence | scripts/qemu_runner.py:23 | every occurrence is deleted, not only a suffix: "a.elf.elf" gives "a.bin" |
| QemuRunner.BinPathKernel | scripts/qemu_runner.py:23 | "kernel.elf" gives "kernel.bin" |
| QemuRunner.LastSlash | scripts/qemu_runner.py:29 | the index of the last "/" (or -1), with no "/" after it |
| QemuRunner.AppendArgs | scripts/qemu_runner.py:27-32 | the fragment is "--init=<init> --init-arg=-i" exactly when the last path segment is "bash" or "sh", and "--init=<init>" exactly otherwise |
| QemuRunner.BinShIsShell | scripts/qemu_runner.py:29-30 | the default init "/bin/sh" counts as a shell |
| QemuRunner.ShellNames | scripts/qemu_runner.py:29 | only the last segment counts: "/usr/bin/bash" and "sh" are shells, "/usr/bin/myinit" and "/bin/sh/" are not |
| QemuRunner.Insert | scripts/qemu_runner.py:46-47 | dictionary assignment: an existing key keeps its place and takes the new value, a new key goes last, keys stay unique |
| QemuRunner.BaseTableKeys | scripts/qemu_runner.py:34-44 | the option table has the keys -M, -initrd, -cpu, -m, -smp, -nographic, -s, -kernel, -append in that order, each once |
| QemuRunner.OptionsShape | scripts/qemu_runner.py:34-47 | keys in the fixed order with "-S" last exactly under --debug; -initrd, -cpu, -m, -smp carry the arguments, -kernel the derived binary, -append the init fragment plus the fixed automount text |
| QemuRunner.EntryTokens | scripts/qemu_runner.py:51-54 | an entry yields its key, then its value only when the value is not None |
| QemuRunner.FlattenAppend | scripts/qemu_runner.py:51-54 | flattening a table with one more entry appends that entry's tokens |
| QemuRunner.FlattenLength | scripts/qemu_runner.py:51-54 | the argv has one token per valueless entry and two per entry with a value |
| QemuRunner.QemuCommand | scripts/qemu_runner.py:49-54 | the loop builds "qemu-system-aarch64" followed by the flattened table |
| QemuRunner.ObjcopyArgv | scripts/qemu_runner.py:25 | objcopy gets five arguments ending in the ELF path and the derived binary path |
| QemuRunner.Launch | scripts/qemu_runner.py:25-56 | objcopy runs first; a non-zero status aborts before the emulator starts; otherwise the emulator runs with the full argv and the run fails exactly when its status is non-zero |
| QemuRunner.FlattenBase | scripts/qemu_runner.py:34-54 | the flattened base table is every key in order, each followed by its value except -nographic and -s |
| QemuRunner.DebugAddsTrailingS | scripts/qemu_runner.py:46-54 | with --debug the argv is the non-debug argv followed by the single token "-S" |
| QemuRunner.DefaultArgv | scripts/qemu_runner.py:10-56 | the default run of "kernel.elf" yields exactly the documented option tokens (moss.img, cortex-a72, 2G, 4, kernel.bin, "--init=/bin/sh --init-arg=-i" plus the automounts) |
| Slabs.Capacity | libkernel/src/memory/allocators/slab/slab.rs:103-105 | a slab of a valid size class holds between 2 and 8192 objects |
| Slabs.CapacityFillsSlab | libkernel/src/memory/allocators/slab/slab.rs:39 | capacity times object size is exactly the slab's size |
| Slabs.LinkedFresh | libkernel/src/memory/allocators/slab/slab.rs:46-56 | links i to i+1 with the sentinel in the last slot chain every slot from i on, in order |
| Slabs.LinkedDistinct | libkernel/src/memory/allocators/slab/slab.rs:70-88 | the free list reached through the in-object links never repeats a slot |
| Slabs.AllocatedCount | libkernel/src/memory/allocators/slab/slab.rs:103-115 | with a repeat-free list of in-range slots, the allocated slots number capacity minus the list's length |
| Slabs.Slab.AddrOfSlot | libkernel/src/memory/allocators/slab/slab.rs:66-68 | a slot's address lies in the slab at a multiple of the object size, and dividing back gives the slot |
| Slabs.Slab.SlotOfAddr | libkernel/src/memory/allocators/slab/slab.rs:94-96 | the index computed from an object pointer addresses that pointer again |
| Slabs.Slab.constructor | libkernel/src/memory/allocators/slab/slab.rs:27-63 | a new slab needs a region of SLAB_SIZE_BYTES and 1 ≤ shift ≤ SLAB_MAX_OBJ_SHIFT; it has all capacity slots free, next_free 0, and links i to i+1 ending in the sentinel |
| Slabs.Slab.AllocatedSize | libkernel/src/memory/allocators/slab/slab.rs:103-115 | num_free never exceeds capacity, and the allocated slots number capacity minus num_free |
| Slabs.Slab.AllocObject | libkernel/src/memory/allocators/slab/slab.rs:70-88 | None exactly when num_free is 0; otherwise the address of the list head, the list advances by one and num_free drops by one |
| Slabs.Slab.PutObject | libkernel/src/memory/allocators/slab/slab.rs:90-101 | the freed slot goes on the head of the list, num_free rises by one, and the head addresses the freed pointer |
| Slabs.Slab.State | libkernel/src/memory/allocators/slab/slab.rs:107-115 | Full exactly when num_free is 0, Free exactly when it equals capacity, Partial exactly otherwise |
| Slabs.ConsecutiveAllocations | libkernel/src/memory/allocators/slab/slab.rs:171-186 | the first two allocations from a fresh slab are its base and base plus one object size |
| Slabs.PutThenAlloc | libkernel/src/memory/allocators/slab/slab.rs:90-101 | freeing an object and allocating again returns the same pointer (LIFO) |
| Slabs.FreeAll | libkernel/src/memory/allocators/slab/slab.rs:244-277 | freeing every allocated object, in any order, leaves the slab Free with num_free equal to capacity |
| SlabAllocator.Without | libkernel/src/memory/allocators/slab/allocator.rs:227-230 | unlinking a slab from a list keeps every other slab, drops that one, and keeps the list free of repeats |
| SlabAllocator.SlabManager.constructor | libkernel/src/memory/allocators/slab/allocator.rs:71-88 | a new manager has empty partial and free lists, a zero counter and no full slabs |
| SlabAllocator.SlabManager.AllocFromPartial | libkernel/src/memory/allocators/slab/allocator.rs:92-108 | the object comes from the head of partial; a slab still partial stays at the front, one that became full leaves the list and floats; the free list is untouched |
| SlabAllocator.SlabManager.FloatFull | libkernel/src/memory/allocators/slab/allocator.rs:100-105 | a slab that became full is in neither list afterwards |
| SlabAllocator.SlabManager.AllocFromFree | libkernel/src/memory/allocators/slab/allocator.rs:110-131 | with partial empty, the object comes from the head of free and that slab becomes the whole partial list; the counter is lowered with the list, as corrected (Findings row 1; the source leaves it unchanged) |
| SlabAllocator.SlabManager.TryAlloc | libkernel/src/memory/allocators/slab/allocator.rs:90-135 | partial is served before free; None exactly when both lists are empty, and then nothing changes |
| SlabAllocator.SlabManager.Alloc | libkernel/src/memory/allocators/slab/allocator.rs:140-166 | with a slab on a list, the object and the list moves are those of the fast path (a partial slab that fills leaves `partial` and floats; an empty slab moves from `free` to `partial`); otherwise a fresh slab on the new frames gives its first object and becomes the partial list |
| SlabAllocator.SlabManager.PutBack | libkernel/src/memory/allocators/slab/allocator.rs:181-197 | the object goes back on its slab's free list, and the slab is not full afterwards |
| SlabAllocator.SlabManager.ReleaseBatch | libkernel/src/memory/allocators/slab/allocator.rs:211-225 | with the counter at MAX_FREE_SLABS, the first 16 free slabs are handed back and the counter drops by 16 |
| SlabAllocator.SlabManager.CacheFree | libkernel/src/memory/allocators/slab/allocator.rs:227-236 | a slab that became free is unlinked from partial, pushed on the front of free, and the counter rises by one |
| SlabAllocator.SlabManager.RelinkPartial | libkernel/src/memory/allocators/slab/allocator.rs:237-244 | a slab that became partial joins the front of partial unless it is already linked |
| SlabAllocator.SlabManager.FreeObject | libkernel/src/memory/allocators/slab/allocator.rs:169-246 | a slab of another size class is refused with nothing changed; otherwise the object is returned, and the slab moves to free (after a batch release when the counter is full) or to partial |
| SlabAllocator.SlabAllocators.constructor | libkernel/src/memory/allocators/slab/allocator.rs:264-270 | one manager per size class n, each serving objects of 2^n bytes, all empty |
| SlabAllocator.SlabAllocators.ForLayout | libkernel/src/memory/allocators/slab/allocator.rs:272-277 | no manager exactly when the layout has no order; otherwise the manager of that order |
| SlabAllocator.AllocTallyAsWritten | libkernel/src/memory/allocators/slab/allocator.rs:110-131 | as written, taking a slab from free shortens the list but leaves free_list_sz alone |
| SlabAllocator.AllocTally | libkernel/src/memory/allocators/slab/allocator.rs:110-131 | with the counter decremented, it keeps matching the list length |
| SlabAllocator.FreeTally | libkernel/src/memory/allocators/slab/allocator.rs:211-236 | a slab becoming free adds one to list and counter; at MAX_FREE_SLABS 16 go first, and popping from a list shorter than 16 panics |
| SlabAllocator.FreesBelowLimit | libkernel/src/memory/allocators/slab/allocator.rs:227-236 | below MAX_FREE_SLABS each slab that becomes free is simply cached |
| SlabAllocator.BatchFreeingThreshold | libkernel/src/memory/allocators/slab/allocator.rs:436-469 | freeing 33 full slabs ends with 17 cached and free_list_sz 17 |
| SlabAllocator.CounterDrifts | libkernel/src/memory/allocators/slab/allocator.rs:110-131 | as written, each allocate-then-free round on a lone free slab raises the counter while the list stays one long |
| SlabAllocator.FreeListPanicAsWritten | libkernel/src/memory/allocators/slab/allocator.rs:211-225 | as written, 32 rounds leave the counter at 32 with one slab listed, and the 33rd round panics on an empty list |
| SlabAllocator.CyclesStayBalanced | libkernel/src/memory/allocators/slab/allocator.rs:110-236 | with the counter kept in step, rounds never panic and the counter always equals the list length, at most MAX_FREE_SLABS |
| Heap.DivCeil | libkernel/src/memory/allocators/slab/heap.rs:73 | `div_ceil`: the fewest pages whose total covers the size |
| Heap.Log2CeilIsNextPow2 | libkernel/src/memory/allocators/slab/heap.rs:74 | 2 to the computed exponent is the next power of two at or above n: it covers n, and the power below does not |
| Heap.HugeOrderCovers | libkernel/src/memory/allocators/slab/heap.rs:70-75 | PAGE_SIZE << order is at least max(size, align) |
| Heap.HugeOrderMinimal | libkernel/src/memory/allocators/slab/heap.rs:70-75 | the order is minimal: for order > 0, PAGE_SIZE << (order − 1) is below max(size, align) |
| Heap.Alloc | libkernel/src/memory/allocators/slab/heap.rs:99-132 | a layout with no cache line goes to the frame allocator; a cache hit exactly when the line has an object; the slab path otherwise |
| Heap.Dealloc | libkernel/src/memory/allocators/slab/heap.rs:134-165 | a layout with no cache line goes back as a frame region; kept in the cache exactly when the line has room; freed to the slab otherwise |
| Heap.AllocDeallocAgree | libkernel/src/memory/allocators/slab/heap.rs:99-148 | alloc and dealloc compute the same order, so the region freed is the block allocated, and it holds the layout |
| Frames.NewFrame | libkernel/src/memory/allocators/frame.rs:48-54 | a new frame is Uninitialized and carries the given page-frame number |
| Frames.FrameList.PfnToIndex | libkernel/src/memory/allocators/frame.rs:88-93 | defined only when base_page ≤ pfn and pfn − base_page < total_pages (the two asserts); the slot is in range and base_page plus the slot is the pfn |
| Frames.FrameList.GetFrame | libkernel/src/memory/allocators/frame.rs:95-98 | the metadata at the pfn's slot, which describes that pfn once the list is initialised |
| Frames.DistinctSlots | libkernel/src/memory/allocators/frame.rs:88-98 | distinct in-range pfns map to distinct frame slots |
| Frames.NewFrameList | libkernel/src/memory/allocators/frame.rs:71-85 | base_page and total_pages return the values set at construction, and every slot is a fresh frame for its own page |
| KernelBuffer.RingAdd | libkernel/src/memory/kbuf.rs:234-237 | advancing a ring index by a then by b lands where advancing by a + b does, which is what advancing the read and write heads by the copied count relies on |
| KernelBuffer.CopyRange | libkernel/src/memory/kbuf.rs:282-283 | copy_from_slice: the destination run receives the source run element by element and every other destination slot is unchanged |
| KernelBuffer.CopyStep | libkernel/src/memory/kbuf.rs:280-311 | one contiguous step of copy_slices extends an in-order copied prefix of the source runs into the destination runs, touching no other destination slot |
| KernelBuffer.CopyCountAsWritten | libkernel/src/memory/kbuf.rs:272-314 | the count the written three steps move never exceeds the amount, the source data or the destination space |
| KernelBuffer.CopySlicesShortAsWritten | libkernel/src/memory/kbuf.rs:272-314 | with source runs of 2 and 3 and destination runs of 3 and 2, a request for 5 (which both sides can satisfy) moves only 3 as written |
| KernelBuffer.CopySlices | libkernel/src/memory/kbuf.rs:272-314 | corrected copy_slices: returns min(amount, source length, destination space) and the destination then holds exactly that prefix of the source data, in order, with no other slot changed |
| KernelBuffer.CopySourceTail | libkernel/src/memory/kbuf.rs:300-313 | after the first two steps, copying the source tail into the rest of the destination head and then into the destination tail completes the minimum count, in order |
| KernelBuffer.KBuf.constructor | libkernel/src/memory/kbuf.rs:37-47 | a new buffer over the given storage is empty, with read and write positions at 0 |
| KernelBuffer.KBuf.TryPush | libkernel/src/memory/kbuf.rs:83-93 | fails, handing the object back and leaving the contents unchanged, exactly when the buffer is full; otherwise appends it at the back |
| KernelBuffer.KBuf.TryPop | libkernel/src/memory/kbuf.rs:105-116 | None exactly when the buffer is empty; otherwise returns the front element and removes it |
| KernelBuffer.KBuf.TryPushSlice | libkernel/src/memory/kbuf.rs:174-182 | appends min(slice length, vacant space) elements, taken from the front of the slice, to the back of the contents |
| KernelBuffer.KBuf.TryPopSlice | libkernel/src/memory/kbuf.rs:139-146 | moves min(destination length, occupied count) front elements into the destination prefix, leaves the rest of the destination alone and removes them from the buffer |
| KernelBuffer.KBuf.OccupiedSpans | libkernel/src/memory/kbuf.rs:224 | the occupied head and tail runs are in bounds, add up to the occupied count, and list the elements in ring order from the read index |
| KernelBuffer.KBuf.VacantSpans | libkernel/src/memory/kbuf.rs:225 | the vacant head and tail runs are in bounds, disjoint, add up to the vacant space, and list the free slots in ring order after the last element |
| KernelBuffer.KBuf.SpliceFrom | libkernel/src/memory/kbuf.rs:188-267 | a zero count or a splice into itself moves nothing; otherwise up to min(count, source occupied, destination vacant) elements leave the front of the source and join the back of the destination in order, and when that minimum is 0 the call is pending with both buffers unchanged; this is the corrected copy (Findings row 2), not copy_slices as written |
| KernelBuffer.FifoOrder | libkernel/src/memory/kbuf.rs:83-116 | two pushes into an empty buffer with room come back from two pops first-in first-out, leaving the buffer empty |
| Permissions.FromVma | libkernel/src/memory/permissions.rs:15-25 | a VMA's read, write and execute bits carry over; the result is a user mapping, not CoW, and never both writable and CoW |
| Permissions.FromRawBits | libkernel/src/memory/permissions.rs:36-55 | each of the five permissions equals the raw bit given, and the result is consistent; the caller must not pass writable together with CoW (the debug assertion) |
| Permissions.Ro | libkernel/src/memory/permissions.rs:58-66 | read-only, non-executable, not CoW, with the given user flag |
| Permissions.Rw | libkernel/src/memory/permissions.rs:69-77 | readable and writable, non-executable, not CoW, with the given user flag |
| Permissions.Rx | libkernel/src/memory/permissions.rs:80-88 | readable and executable, not writable, not CoW, with the given user flag |
| Permissions.Rwx | libkernel/src/memory/permissions.rs:91-99 | readable, writable and executable, not CoW, with the given user flag |
| Permissions.IntoCow | libkernel/src/memory/permissions.rs:147-154 | requires a writable set; clears write, sets CoW and keeps read, execute and user |
| Permissions.FromCow | libkernel/src/memory/permissions.rs:177-184 | requires a CoW set; sets write, clears CoW and keeps read, execute and user |
| Permissions.CowRoundTrip | libkernel/src/memory/permissions.rs:147-184 | making a consistent writable set CoW and then writable again gives back the original set |
| Permissions.WriteRoundTrip | libkernel/src/memory/permissions.rs:147-184 | making a consistent CoW set writable and then CoW again gives back the original set |
| Permissions.Display | libkernel/src/memory/permissions.rs:187-205 | five characters: r or -, then w when writable or c when CoW, then x or -, a space, then u or k |
| Permissions.DisplayInjective | libkernel/src/memory/permissions.rs:187-205 | two consistent permission sets display the same exactly when they are equal |
| PageOffset.VirtToPhys | libkernel/src/memory/pg_offset.rs:13-19 | the physical address is the virtual one less PAGE_OFFSET |
| PageOffset.PhysToVirt | libkernel/src/memory/pg_offset.rs:21-27 | the virtual address is the physical one plus PAGE_OFFSET, within 64 bits |
| PageOffset.VirtPhysVirt | libkernel/src/memory/pg_offset.rs:13-27 | translating a linear-map virtual address to physical and back gives the same address |
| PageOffset.PhysVirtPhys | libkernel/src/memory/pg_offset.rs:13-27 | translating a physical address to virtual and back gives the same address |
| ProcVm.Intersection | libkernel/src/memory/proc_vm/memory_map/tests.rs:295-330 | the overlap of two overlapping regions is non-empty and holds exactly the addresses in both, which is the range a clobbering mmap re-protects |
| ProcVm.FindVma | libkernel/src/memory/proc_vm/memory_map/tests.rs:144-166 | find_vma returns a VMA of the map that contains the address, and none exactly when no VMA contains it |
| ProcVm.CanonicalUnique | libkernel/src/memory/proc_vm/memory_map/tests.rs:461-591 | two sorted, fully merged VMA lists that show the same backing and permissions at every address are the same list |
| ProcVm.InsertedSpec | libkernel/src/memory/proc_vm/memory_map/tests.rs:461-591 | insert_and_merge of a VMA into a free range maps that range as the VMA, leaves every other address alone, and keeps the list sorted and fully merged |
| ProcVm.PlacedSpec | libkernel/src/memory/proc_vm/memory_map/tests.rs:295-458 | placing a VMA over any range (a clobbering fixed mmap) maps that range as the new VMA, keeps every other address, and keeps the list sorted and fully merged |
| ProcVm.UnmappedSpec | libkernel/src/memory/proc_vm/memory_map/tests.rs:594-718 | munmap leaves the range unmapped, every other address as it was, and the list sorted and fully merged |
| ProcVm.ProtectedSpec | libkernel/src/memory/proc_vm/memory_map/tests.rs:721-866 | mprotect gives the mapped addresses of the range the new permissions with their backing (file offsets) unchanged, leaves unmapped and outside addresses alone, and keeps the list sorted and fully merged |
| ProcVm.ProtectRestores | libkernel/src/memory/proc_vm/memory_map/tests.rs:869-894 | protecting a range with new permissions and then restoring the permissions it had gives back the original VMA list, pieces re-merged |
| ProcVm.UnmapIdempotent | libkernel/src/memory/proc_vm/memory_map/tests.rs:594-718 | unmapping the same range twice is the same as unmapping it once |
| ProcVm.InsertAfter | libkernel/src/memory/proc_vm/memory_map/tests.rs:461-519 | inserting a VMA right after another merges the two exactly when they are mergeable (adjacent, same permissions, contiguous file offsets) |
| ProcVm.InsertBefore | libkernel/src/memory/proc_vm/memory_map/tests.rs:461-519 | inserting a VMA right before another merges the two exactly when they are mergeable |
| ProcVm.InsertBridges | libkernel/src/memory/proc_vm/memory_map/tests.rs:461-480 | a VMA filling the gap between two mergeable neighbours merges all three into one VMA starting at the first, with its backing |
| ProcVm.AffectedCovers | libkernel/src/memory/proc_vm/memory_map/tests.rs:594-718 | the page-table operations issued cover exactly the mapped addresses of the range |
| ProcVm.AffectedWithin | libkernel/src/memory/proc_vm/memory_map/tests.rs:295-458 | every page-table operation lies inside the requested range, covering only the overlapped part of each VMA |
| ProcVm.AffectedInOrder | libkernel/src/memory/proc_vm/memory_map/tests.rs:680-718 | the operations come one per affected VMA piece, non-empty, non-overlapping and in address order |
| ProcVm.AffectedNone | libkernel/src/memory/proc_vm/memory_map/tests.rs:188-204 | no page-table operation is issued exactly when nothing is mapped in the range |
| ProcVm.HighestFitCorrect | libkernel/src/memory/proc_vm/memory_map/tests.rs:206-243 | the gap search returns a free range of the size inside the bounds with no fitting range higher, and returns none only when no range fits |
| ProcVm.ChooseAddressSpec | libkernel/src/memory/proc_vm/memory_map/tests.rs:188-458 | Fixed returns its address when overlap is permitted or the range is free and fails with AlreadyExists otherwise; a free Hint is taken; Any, or a taken Hint, gets the highest free range below MMAP_BASE or OutOfMemory; no chosen range is in use unless overlap is permitted |
| ProcVm.MmapAnyEmpty | libkernel/src/memory/proc_vm/memory_map/tests.rs:188-204 | on an empty map, mmap(Any) returns MMAP_BASE − size, creates that one VMA and issues no page-table operation |
| ProcVm.MemoryMap.constructor | libkernel/src/memory/proc_vm/memory_map/tests.rs:188-196 | a new map has no VMAs and an empty operation log |
| ProcVm.MemoryMap.InsertAndMerge | libkernel/src/memory/proc_vm/memory_map/tests.rs:461-591 | the VMA list becomes the merging insert of the new VMA, with no page-table operation |
| ProcVm.MemoryMap.Mmap | libkernel/src/memory/proc_vm/memory_map/tests.rs:188-458 | returns the address chosen as above; on failure nothing changes; on success the VMA is placed over its range and one protect operation with the new permissions is logged per overlapped VMA piece |
| ProcVm.MemoryMap.Munmap | libkernel/src/memory/proc_vm/memory_map/tests.rs:594-718 | the VMA list becomes the unmapped list and one unmap operation is logged per affected VMA piece, in address order |
| ProcVm.MemoryMap.Mprotect | libkernel/src/memory/proc_vm/memory_map/tests.rs:721-894 | the VMA list becomes the protected list and one protect operation with the new permissions is logged per affected VMA piece |
| PageWalk.PgIndex | libkernel/src/arch/arm64/memory/pg_walk.rs:52-53 | a table index is below 512 entries |
| PageWalk.Decompose | libkernel/src/arch/arm64/memory/pg_walk.rs:52-60 | a page lies inside the entry its level's index selects, within its table's block |
| PageWalk.EntryRange | libkernel/src/arch/arm64/memory/pg_walk.rs:58-71 | each entry from the region's first to its last index meets the region, and the sub-region (the entry's range intersected with the region) is non-empty, lies within that one entry and picks up where the previous entry's stopped |
| PageWalk.FindSet | libkernel/src/arch/arm64/memory/pg_walk.rs:96-103 | storing a descriptor for one page changes what that page maps to and nothing else in the block |
| PageWalk.SweepChild | libkernel/src/arch/arm64/memory/pg_walk.rs:66-71 | descending into a next-level table sweeps the sub-region there and stores the resulting table back in the entry |
| PageWalk.SweepEmptyEntry | libkernel/src/arch/arm64/memory/pg_walk.rs:74-77 | an invalid entry (sparse mapping) is skipped: nothing visited, nothing changed |
| PageWalk.WalkL3 | libkernel/src/arch/arm64/memory/pg_walk.rs:86-110 | the L3 loop calls the modifier on each valid descriptor of the region, in page order, and stores its result |
| PageWalk.Walk | libkernel/src/arch/arm64/memory/pg_walk.rs:41-81 | the recursive walk from any level gives the page-by-page sweep: descend into tables, skip invalid entries, stop with NotL3Mapped at a block mapping |
| PageWalk.WalkEntry | libkernel/src/arch/arm64/memory/pg_walk.rs:58-78 | one iteration of the entry loop extends the sweep from the entry's first covered page to its last, or stops with the sweep's error |
| PageWalk.WalkTableEntry | libkernel/src/arch/arm64/memory/pg_walk.rs:66-71 | the table-entry case: the child walk's table and visits extend the sweep, or its error ends it |
| PageWalk.SweepBlocked | libkernel/src/arch/arm64/memory/pg_walk.rs:72-74 | the walk fails with NotL3Mapped exactly when some page of the region lies under a block mapping |
| PageWalk.SweepVisitsSound | libkernel/src/arch/arm64/memory/pg_walk.rs:96-103 | the modifier is called only on valid L3 descriptors of the region, in ascending address order |
| PageWalk.SweepVisitsComplete | libkernel/src/arch/arm64/memory/pg_walk.rs:96-103 | when the walk succeeds the modifier has been called on every valid L3 descriptor in the region |
| PageWalk.SweepVisitsExact | libkernel/src/arch/arm64/memory/pg_walk.rs:96-103 | when the walk succeeds the modifier calls are exactly the valid descriptors of the region, once each, in order |
| PageWalk.SweepOutside | libkernel/src/arch/arm64/memory/pg_walk.rs:41-110 | pages of the block outside the region keep their descriptors |
| PageWalk.SweepApplied | libkernel/src/arch/arm64/memory/pg_walk.rs:96-103 | when the walk succeeds every page of the region holds the modifier's result if its descriptor was valid and is otherwise unchanged |
| PageWalk.WalkAndModifyRegion | libkernel/src/arch/arm64/memory/pg_walk.rs:131-150 | an unaligned region fails with VirtNotAligned, an empty region does nothing, any other is walked from L0; the result is the region walk |
| PageWalk.RegionWalkEffect | libkernel/src/arch/arm64/memory/pg_walk.rs:117-150 | the region walk fails with VirtNotAligned (changing nothing) or NotL3Mapped exactly in those cases; on success the modifier saw exactly the valid descriptors in order and their pages hold its results, and the rest of the block is untouched |
| PageWalk.GetPte | libkernel/src/arch/arm64/memory/pg_walk.rs:153-179 | the descriptor of the page holding va when valid, none when it is invalid or no table covers it, and NotL3Mapped under a block mapping |
| PageTearDown.TearDownLeaf | libkernel/src/arch/arm64/memory/pg_tear_down.rs:78-104 | the L3 loop frees the mapped address of each descriptor that has one, in index order |
| PageTearDown.NextTable | libkernel/src/arch/arm64/memory/pg_tear_down.rs:41-54 | the scan from the cursor finds the first entry that points to a next-level table, or reports that none is left |
| PageTearDown.TearDown | libkernel/src/arch/arm64/memory/pg_tear_down.rs:29-75 | the intermediate-table loop frees, entry by entry, everything below each next-level table and then that table's frame, and nothing else |
| PageTearDown.TearDownAddressSpace | libkernel/src/arch/arm64/memory/pg_tear_down.rs:117-129 | tears down everything below the root and then frees the root frame |
| PageTearDown.FreedContents | libkernel/src/arch/arm64/memory/pg_tear_down.rs:12-104 | tearing down a table frees exactly the frames of the tables below it and the pages mapped beneath it, as a multiset |
| PageTearDown.AddressSpaceContents | libkernel/src/arch/arm64/memory/pg_tear_down.rs:106-129 | the deallocator receives exactly the data pages, the L1 to L3 table frames and the root frame, each as often as it occurs |
| PageTearDown.NoDoubleFree | libkernel/src/arch/arm64/memory/pg_tear_down.rs:106-129 | when no frame occurs twice in the hierarchy, no frame is freed twice |
| PageTearDown.MappedPageFreed | libkernel/src/arch/arm64/memory/pg_tear_down.rs:95-97 | every page mapped by an L3 descriptor below a table is freed when that table is torn down |
| PageTearDown.ChildBeforeParent | libkernel/src/arch/arm64/memory/pg_tear_down.rs:58-64 | a next-level table's contents, then its own frame, are freed before any later entry's, and after every earlier entry's |
| PageTearDown.EmptyFreesRoot | libkernel/src/arch/arm64/memory/pg_tear_down.rs:157-165 | an address space whose root has no entries frees only the root frame |
| Arm64AddressSpace.MapEachWF | src/arch/arm64/memory/address_space.rs:169-198 | mapping one page per cloned descriptor into the other address space with a map_range that keeps tables well formed leaves them well formed |
| Arm64AddressSpace.ProtectRangeEffect | src/arch/arm64/memory/address_space.rs:87-99 | protect_range fails exactly as the region walk does; on success each valid page of the region is marked swapped when the new permissions grant nothing, and otherwise gets the new permissions |
| Arm64AddressSpace.ProtectThenLookup | src/arch/arm64/memory/address_space.rs:87-99 | after a successful protect, a mapped page in the range translates to its old frame with the new permissions, or to nothing if the permissions grant no access |
| Arm64AddressSpace.UnmapRangeEffect | src/arch/arm64/memory/address_space.rs:101-117 | unmap_range fails exactly as the region walk does; on success every valid page of the range is invalid and the claimed pages are the frames of the mapped descriptors, in address order |
| Arm64AddressSpace.UnmapThenLookup | src/arch/arm64/memory/address_space.rs:101-117 | after a successful unmap_range no address in the range translates |
| Arm64AddressSpace.RemapEffect | src/arch/arm64/memory/address_space.rs:119-136 | remap of a page that is mapped returns its old frame and maps the new frame with the given permissions; any other page yields NotL3Mapped and the tables are left as they were |
| Arm64AddressSpace.DropReturnsAll | src/arch/arm64/memory/address_space.rs:204-221 | dropping an address space returns every data page and table frame to the allocator exactly once |
| Arm64AddressSpace.CloneEffect | src/arch/arm64/memory/address_space.rs:152-201 | protect_and_clone_region fails exactly as the region walk does; on success each mapped page in the region gets the new permissions, and one page mapping with those permissions is requested for the other space per mapped page, in order |
| Arm64AddressSpace.AddressSpace.constructor | src/arch/arm64/memory/address_space.rs:40-47 | a new address space has a fresh, empty root table |
| Arm64AddressSpace.AddressSpace.MapPage | src/arch/arm64/memory/address_space.rs:64-81 | map_page is map_range of the one page at va with the given permissions; its error is returned |
| Arm64AddressSpace.AddressSpace.ProtectRange | src/arch/arm64/memory/address_space.rs:87-99 | the tables become the protect walk's result and its error is returned |
| Arm64AddressSpace.AddressSpace.UnmapRange | src/arch/arm64/memory/address_space.rs:101-117 | the tables become the unmap walk's result; on success the claimed frames are returned in walk order |
| Arm64AddressSpace.AddressSpace.Remap | src/arch/arm64/memory/address_space.rs:119-136 | the tables become the remap walk's result and the old frame or NotL3Mapped is returned |
| Arm64AddressSpace.AddressSpace.Translate | src/arch/arm64/memory/address_space.rs:138-150 | translates exactly when the page's descriptor is mapped, to its frame and permissions |
| Arm64AddressSpace.AddressSpace.ProtectAndCloneRegion | src/arch/arm64/memory/address_space.rs:152-201 | this space's tables become the clone walk's result, the other space gets one mapping per mapped page with the new permissions, and the shared frames are those pages' frames |
| Arm64AddressSpace.AddressSpace.Drop | src/arch/arm64/memory/address_space.rs:204-221 | the frames handed back are exactly the teardown's calls: every mapped page and table frame, each table after everything below it, the root last |
| FileAttrs.SelectedBitsOfClass | libkernel/src/fs/attr.rs:108-118 | the owner-aligned bits checked are the owner's when the uid matches, else the group's when the gid matches, else the others' |
| FileAttrs.CheckAccessByClass | libkernel/src/fs/attr.rs:108-135 | for a non-root caller access is granted exactly when the caller's class has every requested read, write and execute bit, and NotPermitted otherwise |
| FileAttrs.RootWithoutExecute | libkernel/src/fs/attr.rs:95-105 | root is granted any request that does not ask for execute |
| FileAttrs.RootExecute | libkernel/src/fs/attr.rs:95-135 | root asking for execute is granted exactly when some execute bit (owner, group or other) is set |
| FileAttrs.OwnerIgnoresOtherClasses | libkernel/src/fs/attr.rs:108-111 | for the (non-root) owner only the owner bits of the mode matter |
| FileAttrs.OtherIgnoresOwnerAndGroup | libkernel/src/fs/attr.rs:115-118 | for a caller matching neither the owner nor the group only the other bits matter |
| FileAttrs.EmptyRequest | libkernel/src/fs/attr.rs:311-319 | a request for no access is always granted |
| Fat32.SectorAdd | libkernel/src/fs/filesystems/fat32/mod.rs:38-44 | the 32-bit sum of two sectors: the plain sum below 2^32, otherwise the sum less 2^32, so that subtracting b modulo 2^32 gives a back |
| Fat32.SectorMul | libkernel/src/fs/filesystems/fat32/mod.rs:30-36 | the product modulo 2^32, which truncating the factor to 32 bits does not change: the plain product when the factor and the product fit, and 0 for a factor that is a multiple of 2^32 |
| Fat32.TruncatedFactor | libkernel/src/fs/filesystems/fat32/mod.rs:33-35 | casting the usize factor to u32 before the wrapping multiply gives the same product modulo 2^32 as the full factor |
| Fat32.SectorsUntil | libkernel/src/fs/filesystems/fat32/mod.rs:46-50 | from, from + 1, …, until − 1, and nothing when until ≤ from |
| Fat32.FromHighLow | libkernel/src/fs/filesystems/fat32/mod.rs:60-62 | the high half lands in bits 16 and up and the low half in bits 0 to 15 |
| Fat32.HighLowRoundTrip | libkernel/src/fs/filesystems/fat32/mod.rs:60-62 | every 32-bit cluster number is rebuilt from its high and low halves |
| Fat32.IsValidCluster | libkernel/src/fs/filesystems/fat32/mod.rs:64-66 | a cluster is valid exactly when it is neither of the reserved clusters 0 and 1 |
| Fat32.DecodeEntry | libkernel/src/fs/filesystems/fat32/fat.rs:21-32 | after masking the top four bits: 0 is free, 1 reserved, 2 to 0x0FFFFFF6 the next cluster with that number, 0x0FFFFFF7 bad, 0x0FFFFFF8 and above end of chain |
| Fat32.LinkedClusterValid | libkernel/src/fs/filesystems/fat32/fat.rs:21-32 | a table entry that links to a next cluster never links to a reserved one |
| Fat32.DecodeIgnoresTopBits | libkernel/src/fs/filesystems/fat32/fat.rs:23 | words that differ only in their top four bits decode alike |
| Fat32.DecodeSector | libkernel/src/fs/filesystems/fat32/fat.rs:95-99 | a sector of b bytes gives b / 4 entries, entry k decoded from the little-endian word at byte 4k |
| Fat32.ReadFat | libkernel/src/fs/filesystems/fat32/fat.rs:76-103 | a FAT number without a region fails with InvalidFs; otherwise the table is the region's sectors decoded in order, or the first read error |
| Fat32.TableErrorPersists | libkernel/src/fs/filesystems/fat32/fat.rs:92-100 | the first failing sector read is the error of the whole read |
| Fat32.TableLayout | libkernel/src/fs/filesystems/fat32/fat.rs:92-100 | with equal-sized sectors, entry k of sector j sits at index j·(size/4) + k of the table and is that sector's k-th word decoded |
| Fat32.ClusterChainIterator.constructor | libkernel/src/fs/filesystems/fat32/fat.rs:105-110 | a chain begins pending at its root cluster |
| Fat32.ClusterChainIterator.Next | libkernel/src/fs/filesystems/fat32/fat.rs:47-72 | yields nothing once ended; a cluster outside the table yields OutOfBounds and ends; a free, reserved or bad entry yields MetadataCorruption and ends; otherwise yields the cluster and moves to its successor, ending after an end-of-chain entry |
| Fat32.ClusterChainIterator.Collect | libkernel/src/fs/filesystems/fat32/fat.rs:47-72 | collecting gives the chain's items in order, up to the limit |
| Fat32.ChainStartsAtRoot | libkernel/src/fs/filesystems/fat32/fat.rs:47-72 | the first item is the root cluster exactly when the root is in the table with an end-of-chain or next-cluster entry; a root outside the table gives exactly one OutOfBounds |
| Fat32.ChainLinked | libkernel/src/fs/filesystems/fat32/fat.rs:47-72 | every cluster yielded is in the table with a usable entry, each is followed by the cluster its entry names, and an error or end-of-chain entry is always the last item |
| Fat32.SampleWholeChains | libkernel/src/fs/filesystems/fat32/fat.rs:262-280 | on the test table the single, linear and fragmented chains give [2], [3, 4, 5] and [6, 10, 8] |
| Fat32.SampleBrokenChains | libkernel/src/fs/filesystems/fat32/fat.rs:283-341 | chains into a bad or free entry give the cluster then MetadataCorruption; a link out of the table gives the cluster then OutOfBounds; a root out of the table gives one OutOfBounds |
| Fat32.SampleCycleNeverEnds | libkernel/src/fs/filesystems/fat32/fat.rs:235-260 | the cycle 13-14-15 of the test table yields a cluster on every call of next, for any number of calls |
| Fat32.ReadSectorLength | libkernel/src/fs/filesystems/fat32/mod.rs:137-152 | requires the offset inside the sector; reads up to the end of the buffer or of the sector, whichever comes first |
| Fat32.BytesPerCluster | libkernel/src/fs/filesystems/fat32/mod.rs:125-127 | a cluster is a whole number of sectors: dividing its bytes by the sector size gives the sectors per cluster, and a non-empty cluster holds at least one sector |
| Fat32.OffsetInCluster | libkernel/src/fs/filesystems/fat32/mod.rs:125-127 | a byte offset inside a cluster falls in one of its sectors, at an in-sector offset that read_sector accepts |
| Fat32.Mount | libkernel/src/fs/filesystems/fat32/mod.rs:90-110 | reads FAT 0 (its error ends the mount), then each further copy in turn; a read error or a copy differing from FAT 0 fails the mount |
| Fat32.CopiesAgreeMeans | libkernel/src/fs/filesystems/fat32/mod.rs:94-101 | the copies check succeeds exactly when every copy reads back equal to FAT 0, and a copy that differs makes it fail |
| Ext4.Mount | libkernel/src/fs/filesystems/ext4/mod.rs:46-61 | the mount succeeds exactly when the superblock read at byte 1024 succeeds with magic 0xEF53; a read error is passed on and a wrong magic gives InvalidFs |
| Ext4.BlockSize | libkernel/src/fs/filesystems/ext4/mod.rs:73 | 1024 shifted left by log_block_size within 64 bits: 1024·2^log whenever that fits |
| Ext4.Pow2Of64 | libkernel/src/fs/filesystems/ext4/mod.rs:73 | the shift's constants: 2^10 is 1024 and 2^64 is the 64-bit range |
| Ext4.DescriptorsAfterSuperblock | libkernel/src/fs/filesystems/ext4/mod.rs:63-83 | the descriptor table (block 2 for 1 KiB blocks, else block 1) starts past the end of the superblock, and descriptors of different groups do not overlap |
| Ext4.Slot | libkernel/src/fs/filesystems/ext4/mod.rs:89-96 | inode 0 is rejected with InvalidValue; otherwise the group is (ino − 1) / inodes_per_group and the index (ino − 1) mod inodes_per_group, so that ino is group·inodes_per_group + index + 1 |
| Ext4.SlotRoundTrip | libkernel/src/fs/filesystems/ext4/mod.rs:94-96 | every group and in-range index is the slot of exactly the inode number group·inodes_per_group + index + 1 |
| Ext4.InodeTableBlock | libkernel/src/fs/filesystems/ext4/mod.rs:100 | the inode table block is inode_table_lo in the low 32 bits and inode_table_hi above them |
| Ext4.InodesDisjoint | libkernel/src/fs/filesystems/ext4/mod.rs:100-109 | two different inodes of one group's table occupy disjoint byte ranges (an inode size of 0 meaning 128) |
| Ext4.ReadInode | libkernel/src/fs/filesystems/ext4/mod.rs:89-112 | inode 0 fails with InvalidValue; otherwise the group's descriptor is read (its error passed on) and the inode read at table_block·block_size + index·inode_size |
| Ext4.FileTypeOf | libkernel/src/fs/filesystems/ext4/mod.rs:188-193 | directory exactly for type 0x4000 and symlink exactly for 0xA000; every other type is a regular file |
| Ext4.FileSize | libkernel/src/fs/filesystems/ext4/mod.rs:185 | the size is size_lo in the low 32 bits and size_high above them |
| Ext4.RootInode | libkernel/src/fs/filesystems/ext4/mod.rs:183-209 | root_inode succeeds exactly when reading inode 2 does; its attributes carry the file system id, inode 2, mode & 0o777, the file type decoded from the mode, the inode's uid and gid and its 64-bit size |
| Ext4.RootInodeLocation | libkernel/src/fs/filesystems/ext4/mod.rs:63-96 | with 1 KiB blocks inode 2 is index 1 of group 0, whose descriptor is read at byte 2048 |
| BlockCaching.IndexOf | libkernel/src/fs/blk/block_cache.rs:38-45 | the position of the first entry for the block, or none exactly when no entry holds it |
| BlockCaching.Cleaned | libkernel/src/fs/blk/block_cache.rs:146-154 | after write_dirty every entry keeps its block and data and is clean |
| BlockCaching.InsertedSize | libkernel/src/fs/blk/block_cache.rs:113-122 | insert puts the new entry at the front; with a positive capacity the cache never grows past it, and with capacity 0 it grows by one each time |
| BlockCaching.EvictionDropsBack | libkernel/src/fs/blk/block_cache.rs:113-116 | inserting a new block into a full cache evicts the back (least recently used) block and no other |
| BlockCaching.HitKeepsEntries | libkernel/src/fs/blk/block_cache.rs:51-55 | a hit moves the entry to the front unchanged and keeps the same entries |
| BlockCaching.LoadEffect | libkernel/src/fs/blk/block_cache.rs:48-69 | a hit returns the cached data, moves the entry to the front and keeps the entries; a miss reads the device and inserts the block at the front, clean; a failed device read leaves the cache unchanged |
| BlockCaching.InsertedKeeps | libkernel/src/fs/blk/block_cache.rs:113-122 | inserting a clean block read from the device keeps the entries distinct and consistent with the device |
| BlockCaching.CoherentLookup | libkernel/src/fs/blk/block_cache.rs:48-69 | when every cached entry matches the device, get_or_load returns exactly the device's block |
| BlockCaching.FlushedContents | libkernel/src/fs/blk/block_cache.rs:146-154 | after write_dirty the device holds each dirty entry's data, every other block as before, and nothing new |
| BlockCaching.FlushMakesCoherent | libkernel/src/fs/blk/block_cache.rs:146-154 | after write_dirty every cached entry matches the device |
| BlockCaching.BlockCache.constructor | libkernel/src/fs/blk/block_cache.rs:28-35 | a new cache is empty with the given capacity, block size and device |
| BlockCaching.BlockCache.FindPosition | libkernel/src/fs/blk/block_cache.rs:38-45 | the loop returns the position of the first entry for the block, or none |
| BlockCaching.BlockCache.Insert | libkernel/src/fs/blk/block_cache.rs:113-122 | the cache becomes the insert of a clean entry; the device is untouched |
| BlockCaching.BlockCache.GetOrLoad | libkernel/src/fs/blk/block_cache.rs:48-69 | returns the cached or device data (or the read error) and leaves the cache as described by LoadEffect, keeping it valid |
| BlockCaching.BlockCache.GetOrLoadMut | libkernel/src/fs/blk/block_cache.rs:73-110 | as get_or_load, and on success the front entry is left dirty |
| BlockCaching.BlockCache.WriteBack | libkernel/src/fs/blk/block_cache.rs:124-143 | a cached block gets the new data and is marked dirty in place; otherwise the data is inserted at the front, dirty |
| BlockCaching.BlockCache.WriteDirty | libkernel/src/fs/blk/block_cache.rs:146-154 | the device receives every dirty entry's data and the entries are all clean afterwards |
| BlockBuffering.DeviceBytes | libkernel/src/fs/blk/buffer.rs:37-69 | the len device bytes from the offset, byte i being byte offset + i of the device, in block order |
| BlockBuffering.BlocksIndex | libkernel/src/fs/blk/buffer.rs:55-61 | in blocks laid end to end, byte j comes from block j / block_size at position j mod block_size |
| BlockBuffering.CutBytes | libkernel/src/fs/blk/buffer.rs:63-66 | the slice cut from the loaded blocks at offset mod block_size is exactly the requested device bytes |
| BlockBuffering.BlockBuffer.constructor | libkernel/src/fs/blk/buffer.rs:28-35 | a new buffer has an empty cache of 64 blocks of the device's block size |
| BlockBuffering.BlockBuffer.ReadAt | libkernel/src/fs/blk/buffer.rs:37-69 | an empty read succeeds touching nothing; otherwise it succeeds exactly when every block from the offset's to the last byte's exists, returning exactly the device bytes, and fails with the device's OutOfBounds otherwise; the device is never written |
| BlockBuffering.BlockBuffer.LoadBlocks | libkernel/src/fs/blk/buffer.rs:55-61 | the loop loads each block through the cache in order and lays them end to end, failing at the first block the device lacks |
| BlockBuffering.BlockBuffer.ReadObj | libkernel/src/fs/blk/buffer.rs:72-90 | reads exactly the object's size at the offset, with read_at's outcome |
| BlockBuffering.BlockBuffer.WriteAt | libkernel/src/fs/blk/buffer.rs:96-132 | an empty write does nothing; otherwise every covered block is loaded for writing and left dirty at the front, and the bytes are not copied anywhere: the cache and device keep their contents |
| BlockBuffering.BlockBuffer.Sync | libkernel/src/fs/blk/buffer.rs:135-138 | the dirty cached blocks are written back and cleaned, and sync reports success |
| BlockBuffering.CoherentFlushKeepsDisk | libkernel/src/fs/blk/buffer.rs:96-138 | since write_at never changes a cached block, sync writes back only what the device already holds |
| Process.ToPtr | src/process/mod.rs:77-86 | the encoding fits in 64 bits with the tgid in the low 32 bits and the tid in the high 32 bits |
| Process.FromToPtr | src/process/mod.rs:77-101 | decoding an encoded descriptor gives the descriptor back |
| Process.ToFromPtr | src/process/mod.rs:88-101 | encoding a decoded 64-bit value gives the value back |
| Process.IdleIsNull | src/process/mod.rs:69-101 | the idle descriptor (tgid 0, tid 0) is encoded as the null pointer and decoded from it |
| Process.StateLetterDistinguishes | src/process/mod.rs:128-146 | two states show the same letter exactly when they are equal or are Running and Runnable (both R); Z is shown exactly for a finished task |
| Process.New | src/process/mod.rs:152-161 | the name is 16 bytes: the first min(length, 15) bytes of the name, then zeros |
| Process.NewTerminated | src/process/mod.rs:153-160 | the last byte is always NUL |
| Process.AsStr | src/process/mod.rs:163-166 | the bytes before the first NUL (all 16 when there is none) when they are valid UTF-8, and the empty string when they are not |
| Process.FitChars | src/process/mod.rs:152-161 | the longest prefix of whole UTF-8 characters of at most the limit in bytes |
| Process.FitCharsValid | src/process/mod.rs:152-161 | cutting valid UTF-8 on a character boundary keeps it valid, keeps a name that fits whole and loses at most three bytes below the limit |
| Process.NewSplitsCharacter | src/process/mod.rs:155-166 | as written: fourteen ASCII bytes followed by a two-byte character are cut in the middle of the character, so the stored name reads back as the empty string |
| Process.CorrectedNew | src/process/mod.rs:152-161 | the corrected name is 16 bytes, cut on a character boundary and zero-padded |
| Process.CorrectedNewReadsBack | src/process/mod.rs:152-166 | a valid UTF-8 name cut on a character boundary reads back as its longest whole-character prefix of at most 15 bytes (up to any NUL), at least 12 bytes of it, and a name that fits is stored as Comm::new stores it |
| Process.CorrectedKeepsWholeCharacters | src/process/mod.rs:152-166 | on the same input the corrected name reads back as the fourteen ASCII bytes |
| Process.Weight | src/process/mod.rs:278-285 | priority + 1024, clamped to at least 1 |
| Process.WeightIsShiftedPriority | src/process/mod.rs:169-193 | for an i8 priority the clamp never applies: the weight lies in 896..1151 and grows strictly with the priority |
| ChildWait.PidSelector | src/process/thread_group/wait.rs:129-164 | pid −1 selects any child, pid < −1 the children in process group −pid, any other pid the child with exactly that id |
| ChildWait.FoundUnique | src/process/thread_group/wait.rs:129-166 | the in-order scan's answer is unique: the eligible child with the lowest id, or none |
| ChildWait.ChildNotifiers.constructor | src/process/thread_group/wait.rs:107-111 | a new table holds no child state |
| ChildWait.ChildNotifiers.ChildUpdate | src/process/thread_group/wait.rs:113-121 | records the child's new state, replacing any earlier one |
| ChildWait.ChildNotifiers.FindWaitable | src/process/thread_group/wait.rs:170-212 | reports the lowest-id eligible child (state matching the flags, selected by pid) and its state, or none when there is none; the table is unchanged |
| ChildWait.ChildNotifiers.DoWait | src/process/thread_group/wait.rs:124-167 | reports the same child as find_waitable and removes it from the table; nothing changes when there is none |
| ChildWait.Wait4Flags | src/process/thread_group/wait.rs:220-247 | unknown or disallowed flags (WEXITED, WNOWAIT) give InvalidValue; a non-null rusage then gives NotSupported; otherwise the flags with WEXITED added |
| ChildWait.Wait4 | src/process/thread_group/wait.rs:214-274 | after the flag checks: with children and no WNOHANG the caller sleeps; otherwise the lowest eligible child is reaped and removed, or NoChildProcess when there are no children, or 0 under WNOHANG |
| ChildWait.StatusDecodes | src/process/thread_group/wait.rs:276-301 | the status word decodes with the POSIX macros to the child state: exit code for a normal exit, signal and core flag for a kill, stop signal for a stop or trace trap, continued for a continue |
| ChildWait.ExitDecodes | src/process/thread_group/wait.rs:278-280 | (code & 0xff) << 8 is an exit with that code |
| ChildWait.SignalDecodes | src/process/thread_group/wait.rs:281-287 | the signal number or'ed with 0x80 for a core dump decodes as killed by that signal, with the core flag |
| ChildWait.TrapDecodes | src/process/thread_group/wait.rs:291-297 | a trace trap's word decodes as stopped, by the signal with the mask or'ed in |
| ChildWait.WaitidFlags | src/process/thread_group/wait.rs:324-349 | an idtype other than P_ALL, P_PID, P_PGID or options outside WNOHANG, WSTOPPED, WCONTINUED, WEXITED and WNOWAIT give InvalidValue; otherwise the options are used as given |
| ChildWait.WaitidGroupOneMeansAny | src/process/thread_group/wait.rs:356-360 | as written: waitid(P_PGID, 1) becomes pid −1 and so selects any child, including one in process group 7 that the group-1 selection excludes |
| ChildWait.WaitidSelector | src/process/thread_group/wait.rs:356-360 | corrected: P_ALL selects any child, P_PID the child with that id, P_PGID the process group abs(id) |
| ChildWait.WaitidSelectorAgrees | src/process/thread_group/wait.rs:356-360 | the corrected selection differs from the written one exactly for P_PGID with abs(id) below 2 |
| ChildWait.SigInfoOf | src/process/thread_group/wait.rs:400-427 | the siginfo always carries SIGCHLD |
| ChildWait.SigInfoDistinguishes | src/process/thread_group/wait.rs:400-427 | the code is 1 to 6 and tells the kinds of state change apart (a kill with a core dump from one without); a kill, stop or trap reports its signal |
| ChildWait.Waitid | src/process/thread_group/wait.rs:317-398 | after the checks: with children and no WNOHANG the caller sleeps; otherwise the lowest eligible child is reported, and removed unless WNOWAIT, or NoChildProcess with no children, or 0 under WNOHANG; P_PGID uses the corrected selector (Findings row 4), not the −abs(id) mapping as written |
| Epoll.MaskRoundTrip | src/process/fd_table/epoll.rs:63-96 | converting an epoll mask to poll flags and back keeps exactly its EPOLLIN, EPOLLOUT, EPOLLERR and EPOLLHUP bits; poll flags survive the opposite trip whole |
| Epoll.Create1 | src/process/fd_table/epoll.rs:143-168 | any flag other than EPOLL_CLOEXEC gives InvalidValue; otherwise the new descriptor is close-on-exec exactly when EPOLL_CLOEXEC was given |
| Epoll.InsertFind | src/process/fd_table/epoll.rs:186-196 | after adding an fd the interest list finds the new item under that fd and every other fd as before |
| Epoll.RemoveFind | src/process/fd_table/epoll.rs:206-210 | after deleting an fd nothing is found under it and every other fd as before |
| Epoll.ReplaceFind | src/process/fd_table/epoll.rs:198-204 | after modifying an fd's entry the new item is found under it and every other fd as before |
| Epoll.InsertEffect | src/process/fd_table/epoll.rs:186-196 | insertion keeps the list in ascending fd order and changes only the added fd's entry |
| Epoll.RemoveEffect | src/process/fd_table/epoll.rs:206-210 | removal keeps the list in ascending fd order and changes only the removed fd's entry |
| Epoll.ReplaceEffect | src/process/fd_table/epoll.rs:198-204 | modification keeps the list in ascending fd order and changes only that fd's entry |
| Epoll.ReadyIndices | src/process/fd_table/epoll.rs:249-258 | the ready entries (readiness reported with some condition) are listed, in list order, each once |
| Epoll.ReadyEventsReport | src/process/fd_table/epoll.rs:280-298 | each reported event carries the ready entry's data and its conditions as an epoll mask (never 0), in ascending fd order, and every ready entry is reported |
| Epoll.EpollInstance.constructor | src/process/fd_table/epoll.rs:56-61 | a new instance has an empty interest list |
| Epoll.EpollInstance.Ctl | src/process/fd_table/epoll.rs:171-216 | ADD fails with the copy error, BadFd for an fd not in the table or AlreadyExists for a watched fd, else adds the item; MOD fails with the copy error or NotFound, else replaces the conditions and data keeping the file; DEL fails with NotFound, else removes the entry; any other op is InvalidValue; a failure changes nothing and success returns 0 |
| Epoll.EpollInstance.Pwait | src/process/fd_table/epoll.rs:218-305 | maxevents ≤ 0 is InvalidValue; the first failed poll, in list order, is returned; with nothing ready an expired timeout returns no events and otherwise the call keeps waiting; with readiness it returns the ready entries' events in fd order, at most maxevents |
| Epoll.CountReady | src/process/fd_table/epoll.rs:255-286 | the readiness loop stops at the first failure with its error and otherwise counts the ready entries, passing over pending ones |
| Epoll.CollectEvents | src/process/fd_table/epoll.rs:288-301 | the copy-out loop collects the ready entries' events in list order and stops once maxevents are collected, using the readiness the wait saw, as the comment at line 294 intends (corrected, Findings row 9) |
| Epoll.CopyOutAsWritten | src/process/fd_table/epoll.rs:238-301 | the copy-out loop as written awaits each entry's poll future again: a future that completed during the wait panics, a pending one is awaited; events only accumulate |
| Epoll.CopyOutReachesCompleted | src/process/fd_table/epoll.rs:288-301 | walking towards an entry whose future completed, the loop as written panics by that entry, hangs before it, or has already filled maxevents |
| Epoll.ReadyEntryRePolled | src/process/fd_table/epoll.rs:238-301 | as written, a wait that found an entry ready never reports it: the copy-out panics at or before the first ready entry, hangs before it, or fills maxevents from entries that were pending; with one ready file it panics where CollectEvents reports the event |
| SignalFds.SignalBytesRoundTrip | src/process/signalfd.rs:97 | the four bytes a read hands out, taken as a native little-endian u32, are the signal number |
| SignalFds.SignalFd.constructor | src/process/signalfd.rs:37-44 | a new signalfd has the given mask and mode, an empty queue and a clear readiness flag |
| SignalFds.SignalFd.NotifySignal | src/process/signalfd.rs:46-57 | a signal in the mask other than SIGKILL and SIGSTOP is appended to the queue and sets the flag; any other leaves the object unchanged; the flag stays equal to "queue non-empty" |
| SignalFds.SignalFd.PopSignal | src/process/signalfd.rs:59-75 | the oldest queued signal is removed and returned, and the flag is cleared when the queue empties; an empty queue gives None |
| SignalFds.SignalFd.ReadAt | src/process/signalfd.rs:88-110 | fewer than four bytes is InvalidValue with the queue untouched; otherwise the oldest signal is taken and its four bytes returned (Fault, with the signal lost, when the copy fails); with nothing queued a non-blocking file gives TryAgain and a blocking one sleeps |
| SignalFds.NotifyThenPop | src/process/signalfd.rs:46-75 | two accepted signals come out in the order they were delivered, and the file is then no longer ready |
| SignalFds.EffectiveMask | src/process/signalfd.rs:139-142 | the installed mask is the requested one without SIGKILL and SIGSTOP |
| SignalFds.SignalFdFlags | src/process/signalfd.rs:144-145 | O_NONBLOCK and O_CLOEXEC are set exactly when SFD_NONBLOCK and SFD_CLOEXEC are given; every other open flag is kept |
| SignalFds.Signalfd4 | src/process/signalfd.rs:138-198 | a failed mask copy is returned; fd -1 creates a fresh signalfd with the effective mask, the mode from SFD_NONBLOCK and flags from the SFD_ bits; another fd not in the table is BadFd, one that is not a signalfd InvalidValue with its flags untouched; a signalfd gets the new mask, mode and flags and keeps its queue |
| SignalFds.CollectFiles | src/process/signalfd.rs:204-214 | the collecting loop yields the open files of slots below the limit, in fd order |
| SignalFds.NotifyAll | src/process/signalfd.rs:216-221 | each signalfd among the collected files gains the signal once per appearance, when its mask accepts it, and keeps its mask and mode |
| SignalFds.Broadcast | src/process/signalfd.rs:203-222 | after a broadcast every signalfd reachable from the table has gained the signal once per collected file leading to it (none if its mask refuses it) and is otherwise unchanged |
| SignalFds.BroadcastCount | src/process/signalfd.rs:205-213 | the number of copies delivered equals the number of descriptor slots below 8192 that lead to the object: a file only at slots 8192 and above gets nothing, one shared by two slots gets two |
| Timer.Compare | src/drivers/timer/mod.rs:26-30 | instants compare as their tick counts do: equal, earlier or later exactly when the ticks are |
| Timer.CompareOrder | src/drivers/timer/mod.rs:26-30 | the ordering is antisymmetric and transitive, and ignores the frequency, so two different instants can compare equal |
| Timer.Add | src/drivers/timer/mod.rs:66-78 | the sum keeps the frequency and lies within one second's ticks above start + secs × freq |
| Timer.NanosTicksBelow | src/drivers/timer/mod.rs:71 | the ticks of the sub-second part never reach a whole second's worth |
| Timer.Sub | src/drivers/timer/mod.rs:80-95 | an earlier or equal instant gives zero; otherwise the seconds are the whole seconds of the tick difference and the nanoseconds those of the remaining ticks, rounded down |
| Timer.SubLater | src/drivers/timer/mod.rs:86-93 | the difference of a later instant as quotient and scaled remainder of the tick difference |
| Timer.AddThenSub | src/drivers/timer/mod.rs:66-95 | (start + d) − start gives back d's whole seconds exactly and at most its nanoseconds: only the fraction of a tick that addition rounds off is lost |
| Timer.EventCompare | src/drivers/timer/mod.rs:53-64 | wake-up events compare in the reverse order of their due instants |
| Timer.GreatestIsEarliest | src/drivers/timer/mod.rs:53-64 | an event is greatest in the heap's order exactly when no event in the heap is due before it, so the max-heap hands out the earliest first |
| Timer.InsertEvent | src/drivers/timer/mod.rs:171-174 | pushing keeps the heap's hand-out order sorted by due instant, adds exactly the event, and the head becomes the earlier of the event and the old head |
| Timer.DueSplit | src/drivers/timer/mod.rs:129-141 | in the hand-out order the events due at the current time are exactly a prefix |
| Timer.SysTimer.FromDriver | src/drivers/timer/mod.rs:154-160 | a new system timer starts at the current instant with an empty heap and no interrupt scheduled |
| Timer.SysTimer.HandleIrq | src/drivers/timer/mod.rs:125-146 | every event due at the interrupt's time is woken, earliest first; the later events stay, all strictly in the future; the next interrupt is scheduled at the new head or disabled |
| Timer.SysTimer.SleepPoll | src/drivers/timer/mod.rs:162-186 | one poll is ready exactly when the wake-up instant has been reached, leaving the heap alone; otherwise the event is added to the heap and the interrupt is scheduled at the earlier of the event and the old head |
| Timer.Uptime | src/drivers/timer/mod.rs:150-152 | uptime is the time since the timer started, or zero before a timer is installed |
| Timer.Sleep | src/drivers/timer/mod.rs:203-214 | a zero duration or a missing timer returns at once; otherwise the call completes exactly when the current instant reaches start + duration, and while pending its wake-up is in the heap |
| ProcFs.DecimalValue | src/drivers/fs/proc.rs:135 | the decimal name a process directory gets reads back as its number |
| ProcFs.ParseDecimal | src/drivers/fs/proc.rs:101-103 | parsing a 32-bit number's decimal name gives the number back |
| ProcFs.ParseU32 | src/drivers/fs/proc.rs:101-103 | a parsed name is below 2^32, and the empty name parses to nothing |
| ProcFs.ProcFsInstance.constructor | src/drivers/fs/proc.rs:27-33 | a new procfs hands out inode numbers from 1 |
| ProcFs.ProcFsInstance.AllocInodeId | src/drivers/fs/proc.rs:36-39 | each allocation returns the counter and advances it by one |
| ProcFs.ProcFsDriver.constructor | src/drivers/fs/proc.rs:340 | before any mount there is no procfs instance |
| ProcFs.ProcFsDriver.Construct | src/drivers/fs/proc.rs:350-380 | a block device is InvalidValue and leaves the singleton alone; otherwise the existing instance is returned, or a fresh one is created, installed and returned |
| ProcFs.Skip | src/drivers/fs/proc.rs:151-156 | readdir from an offset gives the entries from that position on, in order, and nothing at or past the end |
| ProcFs.RootListingShape | src/drivers/fs/proc.rs:129-149 | the root lists one directory per task, named by its thread group in decimal, then self, with offsets 1 to n + 1 |
| ProcFs.ResumeAfter | src/drivers/fs/proc.rs:141-156 | a readdir resumed from the offset of any entry handed out continues with exactly the entries after it |
| ProcFs.ListingsCount | src/drivers/fs/proc.rs:141-148 | the root and task listings both number their entries' offsets from 1 up |
| ProcFs.ProcDirStream.constructor | src/drivers/fs/proc.rs:158 | a new stream starts at its first entry |
| ProcFs.ProcDirStream.NextEntry | src/drivers/fs/proc.rs:58-69 | the next entry is returned and the position advances; at the end none is returned and nothing moves |
| ProcFs.RootReaddir | src/drivers/fs/proc.rs:129-159 | the stream built entry by entry holds the root listing from the requested offset, unread |
| ProcFs.TaskReaddir | src/drivers/fs/proc.rs:208-234 | a process directory's stream holds status, comm and state at offsets 1 to 3, from the requested offset |
| ProcFs.FromFilename | src/drivers/fs/proc.rs:243-252 | a file type is found exactly for status, comm and state |
| ProcFs.LookupMatchesListing | src/drivers/fs/proc.rs:188-234 | lookup in a process directory accepts exactly the names its readdir lists |
| ProcFs.SelfPid | src/drivers/fs/proc.rs:97-99 | self stands for the caller's thread group, the number the root lists it under |
| ProcFs.LookupPid | src/drivers/fs/proc.rs:96-104 | self stands for the caller's process, as corrected (Findings row 5; the source uses the caller's thread id), and any other name must parse as a 32-bit number |
| ProcFs.SelfFromThreadNotFound | src/drivers/fs/proc.rs:97-113 | as written (the thread id), a non-leader thread's self names no process when no group has its thread id, while its own group exists |
| ProcFs.RootLookup | src/drivers/fs/proc.rs:95-123 | a name that does not parse, or names no existing thread group, is NotFound and allocates nothing; otherwise that process's directory is returned with the next inode number, which is consumed; self resolves as corrected (Findings row 5) |
| ProcFs.LookupSelf | src/drivers/fs/proc.rs:95-123 | with the corrected reading, self always succeeds and names the caller's own process |
| ProcFs.TaskLookup | src/drivers/fs/proc.rs:188-202 | an unknown name is NotFound and allocates nothing; a file name gives that file of the directory's process with the next inode number |
| ProcFs.Content | src/drivers/fs/proc.rs:306-327 | a missing process reads as the Gone state line; comm reads as the name up to its NUL and a newline; state reads as the state letter and a newline |
| ProcFs.ReadSlice | src/drivers/fs/proc.rs:329-336 | a read returns the text from the offset, as much as is left and fits in the buffer, and nothing at or past the end |
| ProcFs.ReadsConcatenate | src/drivers/fs/proc.rs:329-336 | reading on from where a read stopped gives what one read into the two buffers together gives |
| UnixSockets.PathOf | src/socket/unix.rs:81-95 | a Unix address names the bytes of sun_path before the first NUL (or all of it), and no path when that part is empty |
| UnixSockets.NulPrefix | src/socket/unix.rs:83-89 | the first-NUL scan's stopping point delimits exactly the part before the first NUL |
| UnixSockets.PathBytes | src/socket/unix.rs:81-95 | the scanning loop computes the path the address names |
| UnixSockets.Registry.constructor | src/socket/unix.rs:29-33 | the endpoint registry starts empty |
| UnixSockets.UnixSocket.constructor | src/socket/unix.rs:57-79 | a new socket has its own fresh inbox, no peer, no address, and is neither connected, listening nor shut down |
| UnixSockets.UnixSocket.Bind | src/socket/unix.rs:100-126 | an address with no path, or a path already registered, is InvalidValue and changes nothing; otherwise the path is registered with this socket's inbox, not listening and with an empty backlog, and becomes the socket's address |
| UnixSockets.UnixSocket.Connect | src/socket/unix.rs:128-163 | an unregistered path is InvalidValue; a listening endpoint with a full backlog is TryAgain with nothing changed; otherwise a fresh connected server socket is queued on the backlog, one accept waiter is woken, and client and server each write into the other's inbox; a non-listening endpoint just becomes the peer |
| UnixSockets.UnixSocket.Listen | src/socket/unix.rs:165-188 | a datagram socket is NotSupported, a negative backlog or an unbound or unregistered socket InvalidValue, all without change; otherwise the endpoint and the socket listen with the given backlog |
| UnixSockets.UnixSocket.Accept | src/socket/unix.rs:190-222 | a socket that does not listen or whose endpoint is gone is InvalidValue; the newest pending connection is taken off the backlog and returned; with none the caller is added to the waiters |
| UnixSockets.UnixSocket.Recv | src/socket/unix.rs:224-238 | a zero count or a shut-down read side gives nothing; otherwise a read from the socket's own inbox |
| UnixSockets.UnixSocket.Send | src/socket/unix.rs:253-278 | a zero count sends nothing; after a write shutdown BrokenPipe; an unconnected stream or seqpacket socket, or one with no peer, is InvalidValue; otherwise a write into the peer's inbox |
| UnixSockets.UnixSocket.Shutdown | src/socket/unix.rs:292-306 | Read closes the read side, Write the write side and ReadWrite both; nothing else changes |
| UnixSockets.UnixSocket.Drop | src/socket/unix.rs:313-322 | a bound socket's path leaves the registry; other paths stay |
| UnixSockets.ShutdownWriteKeepsReading | src/socket/unix.rs:224-306 | after a write shutdown a send fails with BrokenPipe while a receive still reads the inbox |
| UnixSockets.ConnectThenAccept | src/socket/unix.rs:128-222 | a connect to a listening socket with room, followed by accept, yields a server socket and a client that are connected and write into each other's inboxes |
| Sockets.ShutdownHowFrom | src/socket/mod.rs:56-66 | exactly 0, 1 and 2 decode to a shutdown direction; anything else is InvalidValue |
| Sockets.ShutdownRoundTrip | src/socket/mod.rs:49-66 | decoding inverts the enum's representation, in both directions |
| Sockets.ToBe16 | src/socket/mod.rs:115 | the big-endian bytes of a port decode back to the port |
| Sockets.Be16RoundTrip | src/socket/mod.rs:99 | two big-endian port bytes survive decoding and re-encoding |
| Sockets.ToEndpoint | src/socket/mod.rs:94-109 | an IPv4 sockaddr converts to an endpoint whose port is its big-endian port bytes; a Unix address is InvalidValue |
| Sockets.EndpointAddress | src/socket/mod.rs:100-104 | the endpoint's address is the sockaddr's four octets, the all-zero case included |
| Sockets.FromEndpoint | src/socket/mod.rs:111-123 | an endpoint converts to an IPv4 sockaddr with family AF_INET and zeroed padding |
| Sockets.EndpointRoundTrip | src/socket/mod.rs:94-123 | an endpoint survives conversion to a sockaddr and back |
| Sockets.SockAddrRoundTrip | src/socket/mod.rs:94-123 | an IPv4 sockaddr with family AF_INET and zero padding survives conversion to an endpoint and back |
| Sockets.Encode | src/socket/mod.rs:75-89 | the user-memory image of an IPv4 address is 16 bytes and of a Unix address 110 |
| Sockets.ParseSockaddr | src/socket/mod.rs:132-160 | a length below 2 is InvalidValue; an unreadable family is Fault; AF_INET and AF_UNIX need their whole structure within the claimed length (else InvalidValue) and readable (else Fault) and decode it; any other family is AddressFamilyNotSupported |
| Sockets.ParseEncoded | src/socket/mod.rs:132-160 | an address whose family field matches its kind is parsed back from its own image |
| SocketCalls.BaseType | src/socket/syscalls/socket.rs:16-19 | masking clears exactly the close-on-exec and non-blocking bits and keeps every other bit |
| SocketCalls.SocketFor | src/socket/syscalls/socket.rs:15-28 | TCP exactly for AF_INET streams with protocol 0 or IPPROTO_TCP; a Unix stream, datagram or seqpacket socket exactly for AF_UNIX with that type, whatever the protocol; anything else is AddressFamilyNotSupported |
| SocketCalls.FlagsIgnored | src/socket/syscalls/socket.rs:16-19 | adding the close-on-exec or non-blocking flags to the type never changes which socket is made |
| Pipes.GetAttr | src/fs/pipe.rs:54-70 | a pipe's attributes: an empty FIFO of mode 0600 with one link, page-sized blocks, the inode's number and owner, and all four times equal to its creation time |
| Pipes.ReadGate | src/fs/pipe.rs:95-112 | a read proceeds exactly when data is available; it sees end of file exactly when no data is available and the writer is gone; it is interrupted exactly when neither holds and a signal arrives |
| Pipes.WriteGate | src/fs/pipe.rs:178-191 | a write is broken exactly when the reader is gone, and proceeds exactly when the reader is there and there is room |
| Pipes.PipeInner.constructor | src/fs/pipe.rs:249-252 | a new pipe's shared state has the given buffer and neither end gone |
| Pipes.Read | src/fs/pipe.rs:86-129 | a zero count reads nothing; otherwise a read takes the oldest min(count, buffered) bytes and leaves the rest, end of file and an interrupted wait take nothing, and a read with nothing available waits |
| Pipes.Write | src/fs/pipe.rs:169-216 | a zero count writes nothing; a gone reader gives BrokenPipe with SIGPIPE raised and nothing written; otherwise as many leading bytes as fit are appended, or the write waits for room |
| Pipes.DropEnd | src/fs/pipe.rs:154-161 | dropping either end marks the other side gone |
| Pipes.DrainThenEof | src/fs/pipe.rs:95-112 | after the writer is gone the reader first receives every buffered byte and then end of file |
| Pipes.Refused | src/fs/pipe.rs:131-141 | seeking either end is SeekPipe; the read end refuses writes and the write end refuses reads with BadFd; reading the read end and writing the write end are accepted |
| Pipes.InodeCounter.constructor | src/fs/pipe.rs:261 | pipe inode numbers are handed out from 0 |
| Pipes.Pipe2 | src/fs/pipe.rs:243-286 | pipe2 makes a read end and a write end sharing one fresh empty buffer with neither side gone, both with the caller's flags and one new inode stamped with the date and the caller's ids, and consumes one inode number |
| CopyFileRange.ReadOffset | src/fs/syscalls/copy_file_range.rs:26-44 | a NULL offset counts as 0; a supplied one that cannot be read is Fault, a negative one InvalidValue, otherwise its value |
| CopyFileRange.PrologueAsWritten | src/fs/syscalls/copy_file_range.rs:18-62 | as written: non-zero flags are InvalidValue, a zero size copies nothing, offset errors come before descriptor errors, a missing descriptor is BadFd, the same file on both sides is InvalidValue, and the cursor path is taken exactly when both offsets are 0, whether NULL or supplied as 0 |
| CopyFileRange.ZeroOffsetsUseCursors | src/fs/syscalls/copy_file_range.rs:26-62 | offsets supplied as 0 take the cursor path as written, and the offset path under the corrected choice |
| CopyFileRange.Prologue | src/fs/syscalls/copy_file_range.rs:18-62 | the same checks and errors, with the cursor path taken exactly when both offset pointers are NULL |
| CopyFileRange.Progress | src/fs/syscalls/copy_file_range.rs:74-80 | a failure after some bytes were written reports the bytes, and before any reports the error |
| CopyFileRange.Drain | src/fs/syscalls/copy_file_range.rs:89-102 | the inner loop writes between 0 and all of the chunk, and all of it unless a splice fails |
| CopyFileRange.Ask | src/fs/syscalls/copy_file_range.rs:71-72 | a chunk asks for at most what remains, and for all of it on the cursor path |
| CopyFileRange.ChunksAccounting | src/fs/syscalls/copy_file_range.rs:68-107 | from any point of the loop, bytes read never fall behind bytes written, at most the size is read, a success reports exactly the bytes written, and a splice failure is reported only when nothing was written |
| CopyFileRange.CopyAccounting | src/fs/syscalls/copy_file_range.rs:60-247 | a whole copy writes at most the size, reports what it wrote, and reports a splice failure only when nothing was written |
| CopyFileRange.ChunksComplete | src/fs/syscalls/copy_file_range.rs:71-105 | with files that move everything asked for, the loop copies every remaining byte |
| CopyFileRange.CopyComplete | src/fs/syscalls/copy_file_range.rs:60-247 | with files that move everything asked for, the copy reports the whole size |
| CopyFileRange.DrainSpent | src/fs/syscalls/copy_file_range.rs:89-102 | a writer that never fails takes each chunk whole |
| CopyFileRange.SatAdd | src/fs/syscalls/copy_file_range.rs:151 | saturating addition stays below 2^64 and is exact when the sum fits |
| CopyFileRange.SatAddTwice | src/fs/syscalls/copy_file_range.rs:151-175 | two saturating additions in a row equal one of the sum |
| CopyFileRange.WrapI32 | src/fs/syscalls/copy_file_range.rs:234-241 | the cast to i32 keeps values below 2^31 and otherwise differs by a multiple of 2^32 |
| CopyFileRange.SpliceFile.Splice | src/fs/syscalls/copy_file_range.rs:72-90 | a splice returns the file's next answer, never more than asked, and moves the cursor by the bytes moved |
| CopyFileRange.WriteChunk | src/fs/syscalls/copy_file_range.rs:154-180 | the write loop follows the inner-loop specification; at an explicit offset the cursor is restored and the offset advances by what was written, saturating; otherwise the cursor advances |
| CopyFileRange.CursorChunk | src/fs/syscalls/copy_file_range.rs:71-105 | one chunk of the cursor path either stops with the copy's final result or moves both cursors by the chunk and leaves the rest of the copy to the remaining bytes |
| CopyFileRange.CursorCopy | src/fs/syscalls/copy_file_range.rs:60-108 | the cursor path returns the copy's result and moves the reader's cursor by the bytes read and the writer's by the bytes written |
| CopyFileRange.BackFailure | src/fs/syscalls/copy_file_range.rs:232-244 | copying offsets back fails exactly when a supplied offset cannot be written, and then with Fault |
| CopyFileRange.ReadChunk | src/fs/syscalls/copy_file_range.rs:132-151 | a read at an explicit offset restores the cursor; otherwise the cursor advances by the bytes read |
| CopyFileRange.StoreOffset | src/fs/syscalls/copy_file_range.rs:232-244 | storing succeeds exactly for a NULL or writable offset, which then holds the value cast to i32 |
| CopyFileRange.StoreOffsets | src/fs/syscalls/copy_file_range.rs:232-244 | the input offset is written first and the output offset only if that succeeded, so the supplied offsets hold their starts advanced by the bytes settled |
| CopyFileRange.OffsetMove | src/fs/syscalls/copy_file_range.rs:127-230 | one chunk's splices on the offset path: at most the pipe's capacity, each side at its offset or through its cursor, with offsets advanced by the chunk |
| CopyFileRange.OffsetChunk | src/fs/syscalls/copy_file_range.rs:127-245 | one chunk of the offset path, splices and copy-back, either stops with the copy's final result or continues with the offsets advanced and copied back |
| CopyFileRange.OffsetCopy | src/fs/syscalls/copy_file_range.rs:110-247 | the offset path returns the copy's result; a supplied offset leaves that file's cursor unchanged and ends holding its start advanced by the bytes settled; a NULL one moves the cursor |
| CopyFileRange.SysCopyFileRange | src/fs/syscalls/copy_file_range.rs:10-248 | the call returns the checks' error, 0 for nothing to copy, or the copy's result on the chosen path, with the cursors and the supplied offsets as that path leaves them; the path is chosen by the corrected prologue (Findings row 8: cursors only when both offset pointers are NULL) |
| Rename.Lookup | src/fs/syscalls/at/rename.rs:90-92 | a found name is an entry of the directory and names an existing inode; a missing one is NotFound |
| Rename.CheckFlags | src/fs/syscalls/at/rename.rs:37-47 | the flags are refused, with InvalidValue, exactly when whiteout is set or no-replace is combined with exchange; otherwise they give the no-replace and exchange choices |
| Rename.TargetCheck | src/fs/syscalls/at/rename.rs:92-106 | an existing target never allows a rename with no-replace; a non-empty directory target is AlreadyExists; an empty directory target needs a directory source (else IsADirectory); a non-directory target needs a non-directory source (else NotADirectory) |
| Rename.Decide | src/fs/syscalls/at/rename.rs:83-120 | with both parents resolved: NotADirectory unless both are directories, NotFound for a missing old name, and a success only for an existing old name and a target the replacement rules accept, naming the exchange or the move |
| Rename.RenameAt2 | src/fs/syscalls/at/rename.rs:30-123 | each step's error is returned in the source's order: the flags, the old then the new path copy, InvalidInput for a path with no final name, the old then the new start node, the old then the new parent resolution, NotADirectory for a parent that is not a directory, NotFound for a missing old name; a path with no final name is InvalidInput; a success names the exchange or move of the two found names with the checked flags |
| Rename.RenameAt | src/fs/syscalls/at/rename.rs:21-28 | renameat is renameat2 with no flags, so it can only ask for a plain move that may replace |
| Rename.DecidedByTarget | src/fs/syscalls/at/rename.rs:90-121 | once both parents are directories and the source exists, the outcome depends only on the target: no target or an accepted one gives the VFS call, otherwise the rule's error |
| Rename.ParentNotDirectory | src/fs/syscalls/at/rename.rs:83-88 | a parent that is not a directory is reported as NotADirectory before either name is looked up |
| Rename.UnknownFlagsIgnored | src/fs/syscalls/at/rename.rs:37-39 | flag bits other than no-replace, exchange and whiteout do not change the outcome |
| Mount.TruncateFlags | src/fs/syscalls/mount.rs:10-55 | truncation keeps only the bits MountFlags names, and keeps MS_REC exactly as given |
| Mount.FsName | src/fs/syscalls/mount.rs:81-87 | proc, devtmpfs and cgroup2 stand for procfs, devfs and cgroupfs; any other device name is used as it is |
| Mount.FsNameIdempotent | src/fs/syscalls/mount.rs:82-87 | no alias names another alias, so mapping twice changes nothing |
| Mount.SysMount | src/fs/syscalls/mount.rs:48-93 | MS_REC returns 0 without doing anything; otherwise a failed copy or resolution of the directory is returned, a device name that could not be copied is NotSupported, and any other call mounts the aliased driver at the resolved directory |
| Mount.UnknownFlagsIgnored | src/fs/syscalls/mount.rs:55 | flag bits MountFlags does not name never change the outcome |
| Uname.CopyStrToCCharArr | src/kernel/uname.rs:23-34 | the first min(dest length, source length) bytes of the field are the source's, and the rest of the field is as it was |
| Uname.Field | src/kernel/uname.rs:23-34 | a field copied into a zeroed 65-byte array keeps the source's first bytes and is zero after them |
| Uname.FieldReadsBack | src/kernel/uname.rs:39-56 | a NUL-free string shorter than the field, copied with its terminator, reads back as C string unchanged |
| Uname.LongFieldUnterminated | src/kernel/uname.rs:23-34 | a string of 65 or more non-NUL bytes fills the field with no terminator |
| Uname.Utsname.constructor | src/kernel/uname.rs:37 | the five fields start as fresh, all-zero 65-byte arrays |
| Uname.Fill | src/kernel/uname.rs:40-56 | copying into a zeroed field leaves exactly the Field image of the source |
| Uname.SysUname | src/kernel/uname.rs:36-61 | the record holds "Moss", the host name, "5.7.1", the SMP or UP version string and the architecture name, each with its terminator; a failed copy to the caller is returned, otherwise 0 |
| Uname.FixedFieldsReadBack | src/kernel/uname.rs:39-52 | the system name, release and version read back as the constant strings |
| Uname.CorrectedHostnameReadsBack | src/kernel/uname.rs:42-43 | every name the corrected sethostname stores has no NUL and reads back from the node name field as the same name |
| Hostname.TrimTrailingNuls | src/kernel/hostname.rs:34-36 | the result is a prefix of the name, everything cut off is NUL, and it does not end in NUL |
| Hostname.SetOutcome | src/kernel/hostname.rs:20-38 | errors come in source order: no CAP_SYS_ADMIN, then a length over 64, then a failed copy, then bytes that are not UTF-8; otherwise the name with trailing NULs removed is stored |
| Hostname.DropFinalNul | src/kernel/hostname.rs:34-36 | removing a final NUL from well-formed UTF-8 leaves well-formed UTF-8 |
| Hostname.TrimValid | src/kernel/hostname.rs:34-36 | trimming trailing NULs keeps the name well-formed UTF-8 |
| Hostname.HostnameCell.constructor | src/kernel/hostname.rs:12-16 | the cell starts holding "moss-machine", a valid stored name |
| Hostname.HostnameCell.SetHostname | src/kernel/hostname.rs:20-39 | succeeds exactly when the source's checks pass, then stores the corrected name and returns 0; on any error the stored name is unchanged; the cell stays valid (UTF-8, at most 64 bytes, no NUL) |
| Hostname.DefaultValid | src/kernel/hostname.rs:15 | "moss-machine" is well-formed, at most 64 bytes and holds no NUL |
| Hostname.AsciiValid | src/kernel/hostname.rs:34 | bytes below 0x80 are always well-formed UTF-8 |
| Hostname.TrimKeepsUnpadded | src/kernel/hostname.rs:36 | a name not ending in NUL is stored whole |
| Hostname.InteriorNulKept | src/kernel/hostname.rs:36-37 | as written, the name "a\0b" is accepted and stored with its NUL |
| Hostname.CorrectedOutcome | src/kernel/hostname.rs:20-38 | succeeds exactly when the source does, with the same errors, and what it stores has no NUL, is UTF-8 and is at most 64 bytes |
| Hostname.CorrectedAgrees | src/kernel/hostname.rs:36-37 | for a name with no NUL before its trailing padding, the corrected and the as-written outcomes are equal |
| ClockSettime.ClockFromId | src/clock/settime.rs:16 | a clock number converts exactly when it is 0 to 9 or 11, the Linux clock numbers the kernel knows |
| ClockSettime.SettimeAsWritten | src/clock/settime.rs:8-27 | a failed copy is returned first, then a negative second count or a nanosecond count of a second or more is InvalidValue; only the real-time clock is set, with the time as given; monotonic clocks are InvalidValue, unknown numbers InvalidValue, and the other known clocks NotSupported |
| ClockSettime.NegativeNanosAccepted | src/clock/settime.rs:13-15 | as written, a time with −1 nanoseconds passes the check |
| ClockSettime.Settime | src/clock/settime.rs:8-27 | for non-negative nanoseconds it accepts and rejects exactly as written, and the accepted duration has the same count of nanoseconds as the time given; negative nanoseconds are InvalidValue |
| ClockSettime.SysClockSettime | src/clock/settime.rs:8-27 | an accepted time is recorded as the date and the call returns 0; a rejected one returns its error and leaves the wall clock alone; validation is the corrected one (Findings row 7: a negative tv_nsec is also InvalidValue) |
| Realtime.AddDurations | src/clock/realtime.rs:15 | the sum's nanosecond count is the sum of both durations' counts |
| Realtime.SubNanos | src/clock/realtime.rs:14 | the time since an instant is the elapsed ticks scaled to nanoseconds and rounded down, or zero for an instant not yet reached |
| Realtime.SubMonotone | src/clock/realtime.rs:14 | a later reading never gives a shorter time since the same instant |
| Realtime.RealtimeClock.constructor | src/clock/realtime.rs:29 | no date is known at start |
| Realtime.RealtimeClock.Date | src/clock/realtime.rs:8-19 | with a known date and a running timer, the date is the known date plus the time since it was set; otherwise it is the uptime |
| Realtime.RealtimeClock.SetDate | src/clock/realtime.rs:21-26 | the date is recorded against the current instant when a timer runs, and nothing changes otherwise |
| Realtime.DateAfterSet | src/clock/realtime.rs:36-50 | right after a date is set it reads back as that date, and later readings are at least that date and never decrease |
| X86Exceptions.Default | src/arch/x86_64/exceptions/mod.rs:3-10 | the derived default state has all sixteen registers, rip, rsp and rflags zero |
| X86Exceptions.SyscallNr | src/arch/x86_64/exceptions/mod.rs:13-16 | the system-call number is the value saved for rax |
| X86Exceptions.Arg | src/arch/x86_64/exceptions/mod.rs:18-28 | arguments 0 to 5 are the registers saved for rdi, rsi, rdx, r10, r8 and r9, and every later argument is zero |
| X86Exceptions.AccessorsIgnoreFrame | src/arch/x86_64/exceptions/mod.rs:12-29 | changing rip, rsp or rflags changes neither the number nor any argument |
| X86Exceptions.ArgReadsOneRegister | src/arch/x86_64/exceptions/mod.rs:12-29 | writing one register changes only the argument stored in it, and changes the number only when that register is rax |
| X86Exceptions.DefaultIsZero | src/arch/x86_64/exceptions/mod.rs:3-29 | a default state has system-call number zero and every argument zero |
| X86.JoinSplit | src/arch/x86_64/mod.rs:137-150 | a value split over eax and edx for wrmsr and joined again as rdmsr does is unchanged |
| X86.MsrFile.EnableSyscalls | src/arch/x86_64/mod.rs:37-64 | EFER gains bit 0 and keeps its other bits, LSTAR holds the entry point, STAR and FMASK hold their fixed values, and no other register changes |
| X86.SyscallMsrFields | src/arch/x86_64/mod.rs:50-62 | STAR has kernel selector 0x08 in bits 32-47, user base 0x10 in bits 48-63 and nothing below bit 32; FMASK masks IF (0x200) but not DF (0x400) |
| X86.SamePage | src/arch/x86_64/mod.rs:241-242 | an address before the end of the current page lies on the same page |
| X86.ChunkLen | src/arch/x86_64/mod.rs:241-242 | a chunk is no longer than what remains, non-empty while bytes remain, stays on one page, and when it stops short it ends on the next page boundary |
| X86.ChunksCover | src/arch/x86_64/mod.rs:240-259 | the chunks of a copy add up to its length, none is empty, every chunk after the first starts on a page boundary, and a zero-length copy has none |
| X86.FirstBad | src/arch/x86_64/mod.rs:244-245 | the first address of the range whose page cannot be had, every address before it being fine; none exactly when every page can be had |
| X86.Outcome | src/arch/x86_64/mod.rs:240-262 | a copy succeeds exactly when every page of the range can be had |
| X86.FailsAt | src/arch/x86_64/mod.rs:244-245 | the copy fails at the first bad address whatever lies beyond it |
| X86.UserBytes | src/arch/x86_64/mod.rs:247-252 | the n user bytes from an address, in order |
| X86.StoreReads | src/arch/x86_64/mod.rs:324-331 | storing data changes exactly the bytes it covers, to the data's bytes |
| X86.StoreAppend | src/arch/x86_64/mod.rs:318-336 | storing two adjacent chunks one after the other is storing them joined |
| X86.StoreThenRead | src/arch/x86_64/mod.rs:303-339 | what was stored to user memory reads back unchanged |
| X86.UserMemory.constructor | src/arch/x86_64/mod.rs:265-273 | user memory holds the given bytes and page translations |
| X86.TranslateForRead | src/arch/x86_64/mod.rs:280-292 | a page is had exactly when it is translated and readable, and is a Fault otherwise |
| X86.CopyFromUser | src/arch/x86_64/mod.rs:223-263 | succeeds exactly when every page can be had and then copies all bytes; otherwise returns the first bad page's error with exactly the bytes before it copied; the kernel buffer is untouched beyond; pages are looked up in increasing order and none for a zero-length copy |
| X86.TryCopyFromUser | src/arch/x86_64/mod.rs:265-301 | succeeds exactly when every page of the range is translated and readable, copying all bytes; otherwise Fault |
| X86.CopyToUser | src/arch/x86_64/mod.rs:303-342 | stores every byte and succeeds when every page can be had, otherwise stores exactly the bytes before the first bad page and returns its error; translations are unchanged |
| X86.FirstNul | src/arch/x86_64/mod.rs:374 | the offset of the first NUL among n bytes, none before it; none when there is no NUL |
| X86.StrnLen | src/arch/x86_64/mod.rs:357-387 | a string copy takes at most the limit, no NUL before its last byte, and when it stops short its last byte is the NUL |
| X86.FindNul | src/arch/x86_64/mod.rs:374 | scanning a chunk finds its first NUL |
| X86.CopyStrnFromUser | src/arch/x86_64/mod.rs:344-391 | copies and returns StrnLen bytes (up to and including the first NUL, or all of the limit) when their pages can be had, and otherwise returns the first bad page's error; nothing past the copied bytes changes |
| X86.StrnPast | src/arch/x86_64/mod.rs:374-381 | with no NUL in the first k bytes the copy takes at least k bytes, and more while the limit allows |
| X86.StrnEnds | src/arch/x86_64/mod.rs:374-377 | a NUL at offset k with none before ends the copy at k + 1 bytes |
| X86.InitrdRegion | src/arch/x86_64/mod.rs:399-433 | a region exactly when the multiboot address is known, flag bit 3 is set and the module count is non-zero; then it is the first module's start and end |

## Left out

- PageOffset.VirtToPhys: requires the address to be at least PAGE_OFFSET and PageOffset.PhysToVirt requires the sum to fit in 64 bits; the source's unchecked `-=`/`+=` panics in debug builds and wraps in release builds, which is not modelled.
- Arm64AddressSpace.AddressSpace.Translate: requires that the page is not under a block mapping, because the source unwraps get_pte's result there and panics; the panic is not modelled.
- Arm64AddressSpace.AddressSpace.ProtectAndCloneRegion: requires map_range never to fail, because the source unwraps it inside the walk; map_range itself (pg_tables.rs) is not part of this model and is a parameter.
- activate, deactivate (system register writes and barriers) and unmap (todo!() in the source) are not modelled.
- Ext4.Slot, Ext4.ReadInode: require inodes_per_group > 0 for a non-zero inode; the source divides by it and panics on a corrupt superblock with 0.
- Ext4.BlockSize: requires log_block_size < 64; a larger shift overflows in the source. Offsets are unbounded integers: the 64-bit wrap-around of table_block·block_size is not modelled.
- Ext4: the device reads (read_obj of the superblock, descriptors and inodes) are function parameters; the placeholder root inode's NotSupported operations and sync are not modelled.
- BlockCaching.BlockCache.WriteDirty: device writes are taken to succeed; a write error part-way through the loop is not modelled.
- BlockBuffering.BlockBuffer.WriteAt: as in the source, the data is never copied into the blocks (the copy and write-back are commented out), so the model states that a write leaves the device unchanged; the intended read-modify-write is not modelled.
- BlockBuffering.BlockBuffer.Sync: the device's own sync call is taken to succeed and is not modelled beyond the write-back.
- ChildWait.Wait4, ChildWait.Waitid: the sleep (wait_until on the condition variable) is returned as an outcome rather than performed; the copy of the status word and siginfo to user memory is modelled by the functions that compute them; waitid with a non-null rusage (todo!() in the source) is not modelled.
- Epoll.EpollInstance.Pwait: readiness is one snapshot (`status`) taken when the wait ends, and the timeout is a flag; the polling futures, the sleep and the copy of the events to user memory are not modelled. Poll flags are the four conditions an epoll mask can name; other poll conditions are not modelled. The wait's own loop (src/process/fd_table/epoll.rs:256-286) also polls every future again at each wake-up, so a future that completed with no conditions in a pass that found nothing ready panics at the next pass; the single snapshot does not express this.
- Epoll: get_instance (the fd-table lookup of the epoll descriptor, BadFd when it is not one) and the fd-table insert of epoll_create1 are not modelled; Epoll.EpollInstance.Ctl receives the copied event and the target file as parameters.
- SignalFds: writeat (always BadFd), seek (always InvalidValue), poll_write_ready (always NotSupported) and release are constant stubs and are not modelled; poll_read_ready is the readiness flag. The fd-table insert of a new signalfd is not modelled: SignalFds.Signalfd4 returns the new file.
- SignalFds.SignalFd.ReadAt: the sleep and the re-read after wake-up are the Sleeps outcome; the caller reads again.
- Timer: the hardware timer is a parameter (the current instant is passed in and the scheduled interrupt is a field); u64 wrap-around of tick arithmetic is not modelled; the binary heap is kept as a sequence in hand-out order, and among events due at the same instant the model hands out the earlier-pushed one first while the heap leaves that order unspecified; the preemption wake-up kind (todo!()) and `now()` (the driver's instant when a timer is installed) are not modelled.
- Timer.Sub: requires a non-zero frequency (the source divides by it).
- ProcFs: getattr (fixed directory and file attributes), root_inode, id and the not-a-directory errors of task files are not modelled; the task list and the scheduler's run queue are parameters (`tasks`, and `info` for a file's process); the status file's text is given by ProcFs.Content's definition only.
- UnixSockets: the inboxes (kernel pipes) are identities only, so data transfer is returned as a Transfer value; recvfrom and sendto (todo!()) are not modelled; non-Unix addresses given to bind and connect are modelled as addresses with no path (both give InvalidValue); waking a waiter is a decremented count.
- SocketCalls: the socket objects themselves (the TCP socket is not part of this model) and the fd-table insert are not modelled; the call's close-on-exec and non-blocking flags are ignored, as in the source. Sockets: process_packets (wakes waiters) is not modelled; the user copies of parse_sockaddr are the readable bytes `user`.
- Pipes: splice_into and splice_from are the kernel buffer's splice (KernelBuffer.KBuf.SpliceFrom) under the same gates and are not modelled again; the fd-table inserts and the final copy of the two descriptors to user memory are not modelled; the wait itself is the ReadWaits / WriteWaits outcome, and a signal arriving is the `interrupted` parameter.
- CopyFileRange: the files' splice operations are not part of this model: each file answers from a script of results (SpliceFile.script); the kernel pipe is not modelled as a buffer (KernelBuffer covers its splice); KPipe::new failing is not modelled; the pipe's capacity is a parameter.
- Mount: the VFS mount itself is not modelled (Mount.SysMount returns the mount it asks for, and the VFS's own errors are not modelled); the file system type string is copied but never used, as in the source.
- Rename: path parsing (Path::file_name, Path::parent), start-node resolution and path resolution are parameters; the VFS rename and exchange are returned as the operation they ask for, and their own errors are not modelled.
- QemuRunner: argparse, running objcopy and the emulator (subprocess with check=True) are not modelled; the model builds the two command lines they are given.
- Slabs.Slab.PutObject: requires the pointer to be an allocated, slot-aligned object of the slab; the source only asserts that it lies inside the slab, and freeing a free or misaligned slot corrupts its list.
- SlabAllocator: alloc_order (slab/mod.rs) is not part of this model, so SlabAllocator.SlabAllocators.ForLayout takes the order as a parameter; the frame allocator is a parameter (fresh frames are supplied, released frames are returned as a list); the heap's GlobalAlloc pointer paths are not modelled.
- Heap: the slab caches behind KHeap::alloc/dealloc are not modelled; only the huge-allocation order and its agreement between alloc and dealloc are.
- ProcVm: the MemoryMap implementation is not part of this model; its behaviour is modelled from the assertions of memory_map/tests.rs. Choices the tests do not pin (a zero-length mapping is InvalidValue, a fixed mapping over an existing one is AlreadyExists, MMAP_BASE is a constructor argument) follow Linux.
- PageWalk: the descriptor format (pg_descriptors.rs) and region alignment (region.rs) are not part of this model. An L3 descriptor is valid, swapped or invalid, and a swapped descriptor maps nothing. A region is aligned when its start and size are multiples of the page size, and it must lie below 2^48.
- Fat32: bpb.rs is not part of this model; the FAT region is a parameter. Fat32.Collect takes a step limit, because the source's chain iterator never ends on a cyclic chain.
- Uname.SysUname: requires the host name and the architecture name to hold no NUL, because the source unwraps their conversion to C strings and panics on one; the SMP feature, the architecture name and the outcome of copy_to_user are parameters.
- Hostname: the capability check, copy_from_user and the spin lock are parameters (`capable`, `copied`); the OnceLock's lazy initialisation is the cell's constructor.
- ClockSettime, Realtime: clock numbers are Linux's (ClockId is not part of this model); a timespec is signed seconds and nanoseconds; Duration is whole seconds plus nanoseconds below a second; u64 overflow of the date arithmetic is not modelled.
- X86: get_page (fault handling, page pinning) is a parameter `getPage`; user memory is a map from address to byte; usize overflow of the address arithmetic is not modelled; the MSR file is a map and rdmsr/wrmsr are the halves' split and join; the boot code is not modelled; PhysMemoryRegion is a (start, end) pair.
- X86.SyscallMsrFields: states the FMASK value as written. The source's comment says IF and DF are both masked, but the value masks IF only.
- X86Exceptions: the syscall dispatch table and the assembly entry (exceptions/syscall.rs) are not modelled.
- Fat32.SectorAdd, Fat32.SectorMul: an overflow of the u32 arithmetic panics in a debug build; the model gives the release build's wrap-around modulo 2^32 instead.
- Arm64AddressSpace.AddressSpace.constructor: the failure of allocate_page_table (src/arch/arm64/memory/address_space.rs:45), which `new` passes on as its error, is not modelled; the constructor receives an already allocated frame.
- Pipes.Pipe2: the failure of KPipe::new (src/fs/pipe.rs:246), which the call passes on as its error, is not modelled; the buffer's storage is a parameter.
- CopyFileRange.Drain: a writer that answers Ok(0) forever makes the source's inner write loops (src/fs/syscalls/copy_file_range.rs:89-102 and 155-180) spin without end; the model's script is finite and, once spent, the writer takes the whole rest, so that hang is not expressed.
- Epoll.CollectEvents: models the copy-out loop as its comment at src/process/fd_table/epoll.rs:294 intends, reusing the readiness the wait saw; as written the loop awaits each entry's async block again (line 295), which panics for a block that completed during the wait and blocks on one still pending (Findings row 9, Epoll.CopyOutAsWritten).
- Sockets.FromEndpoint: endpoints are IPv4 only; the `unimplemented!()` panic of the source for an IPv6 endpoint (src/socket/mod.rs:118) is not modelled.
- ProcVm.MemoryMap.Mprotect: protecting a range that holds unmapped addresses succeeds and changes only the mapped parts, as the memory-map tests expect; Linux returns ENOMEM there, and the model follows the tests, not Linux.

## Findings

| source | as written | input that shows it | evidently intended | confidence | as-written member | corrected member |
|---|---|---|---|---|---|---|
| libkernel/src/memory/allocators/slab/allocator.rs:110-135 | try_alloc takes a slab off the free list without lowering free_list_sz; only free changes the counter | on a fresh manager, allocate and free one object 33 times: after 32 rounds free_list_sz is 32 with one slab listed, and the 33rd free tries to release 16 slabs from an empty list and panics at line 217 | free_list_sz equals the length of the free list, so it is lowered when try_alloc pops a slab | high (not executed) | SlabAllocator.FreeListPanicAsWritten | SlabAllocator.CyclesStayBalanced |
| libkernel/src/memory/kbuf.rs:272-314 | copy_slices copies head to head, the rest of the source head to the destination tail, then the source tail to the rest of the destination head; it never copies the source tail into the destination tail | source head 2 and tail 3, destination head 3 and tail 2, amount 5: 3 elements move although 5 are available and 5 fit | splice_from moves min(count, occupied, vacant) elements | medium (not executed) | KernelBuffer.CopySlicesShortAsWritten | KernelBuffer.CopySlices |
| src/process/mod.rs:155-166 | Comm::new cuts the name at 15 bytes, possibly inside a multi-byte character, and as_str then fails UTF-8 decoding and returns "" | fourteen ASCII bytes followed by "é" (0xC3 0xA9) | the command name is cut on a character boundary and reads back as its longest whole-character prefix | medium (not executed) | Process.NewSplitsCharacter | Process.CorrectedNew |
| src/process/thread_group/wait.rs:356-360 | waitid maps P_PGID with id to the pid −abs(id), and the wait helpers read −1 as "any child" | waitid(P_PGID, 1) with a waitable child in process group 7 reports that child | P_PGID selects only the children of process group abs(id) | high (not executed) | ChildWait.WaitidGroupOneMeansAny | ChildWait.WaitidSelector |
| src/drivers/fs/proc.rs:97-113 | the root lookup of "self" uses the caller's thread id and then checks it against thread-group ids | a thread that is not its group's leader, with no thread group whose id equals its thread id, gets NotFound for /proc/self | "self" names the caller's thread group, as the directory listing does | high (not executed) | ProcFs.SelfFromThreadNotFound | ProcFs.SelfPid |
| src/kernel/hostname.rs:34-37 | sethostname trims only trailing NULs, so a NUL inside the name is stored; uname later unwraps the conversion to a C string (src/kernel/uname.rs:42), which fails on such a name | sethostname("a\0b", 3) by a capable caller succeeds, after which uname panics | a stored host name never holds a NUL | medium (not executed) | Hostname.InteriorNulKept | Hostname.CorrectedOutcome |
| src/clock/settime.rs:13-15 | only tv_sec < 0 and tv_nsec ≥ 10^9 are rejected; a negative tv_nsec passes to the conversion into a Duration | clock_settime(CLOCK_REALTIME, {tv_sec: 0, tv_nsec: −1}) is accepted | a timespec with a negative tv_nsec is InvalidValue, as in Linux | medium (not executed) | ClockSettime.NegativeNanosAccepted | ClockSettime.Settime |
| src/fs/syscalls/copy_file_range.rs:62 | the cursor path is chosen when both offset values read from user memory are 0, also when the offset pointers are non-NULL | off_in and off_out both non-NULL and pointing at 0: the files' own positions are used and advanced, and the user offsets are never written back | the cursor path is taken only when both offset pointers are NULL, as the comment at lines 60-61 says | high (not executed) | CopyFileRange.PrologueAsWritten | CopyFileRange.Prologue |
| src/process/fd_table/epoll.rs:238-301 | each entry's poll future is wrapped in an async block (lines 241-244) that the wait polls to completion, and the copy-out loop then awaits the same block again (line 295) | one watched file that is ready: its block completed during the wait, and the copy-out's second poll of it panics | the copy-out reuses the readiness the wait saw, as the comment at line 294 says | medium (not executed) | Epoll.ReadyEntryRePolled | Epoll.CollectEvents |
