# Copy-on-write physical page allocator

A Dafny model of the physical page allocator of an xv6-style RISC-V teaching
kernel extended for copy-on-write fork (`kernel/kalloc.c`). The file has
three parts, and the model keeps all three:

- **The free-page pool.** `kfree` pushes a 4096-byte frame on a LIFO free
  list and `kalloc` pops one. A freed page is filled with byte 1 and an
  allocated page with byte 5.
- **The reference-count table `cow_count`.** It has one `int` per frame of
  RAM, indexed by `(pa - KERNBASE) / PGSIZE`. `kfree` only drops a reference
  while the count is above 1. A flag, `cow_init`, switches on the
  "count <= 0 means double free" panic once `kinit` has seeded the pool
  through `freerange`.
- **The copy-on-write fault handler `cow_kalloc`.** It looks up the faulting
  page's entry, clears the COW bit and sets the W bit, unmaps the page with
  free (dropping one reference), allocates a frame, copies the old frame into
  it and maps it.

Layout:

- `memlayout.dfy` (`Memlayout`): the page size, the RAM range
  `[KERNBASE, PHYSTOP)`, `PGROUNDUP`, and the translation between a frame's
  address and its slot in the count table.
- `kalloc.dfy` (`Kalloc`): the allocator state as a value (`KState`: free
  list as a sequence of slots, head first; the count table; page contents by
  slot; the flag). It also holds
  - one specification function per operation, which returns a `Status`
    (`Done` or `Panic(msg)`, the kernel's `panic`);
  - the invariant `Inv` and the lemmas about it;
  - the class `Kmem`, which holds the globals (`kmem.freelist`, the
    `cow_count` array, `cow_init`, and RAM). Its methods `Kinit`, `FreeRange`,
    `Kfree` and `Kalloc` update them in place and are each proved equal to
    their specification function.
- `vm.dfy` (`Vm`): the page table seen abstractly as a map from virtual
  address to (frame, permission bits), with `mappages` and the page-table
  half of `uvmunmap`.
- `cow.dfy` (`Cow`): `cow_kalloc` as written, as a specification function and
  as a method over `Kmem` and `PageTable`. It also holds its properties, the
  finding below, and the corrected handler.

## Model

| member | source | states |
|---|---|---|
| Memlayout.Index | kernel/kalloc.c:59 | The table slot of an address in `[KERNBASE, PHYSTOP)` lies within the table (`< NFRAMES`), and it is the frame whose page contains the address. |
| Memlayout.PgRoundUp | kernel/kalloc.c:42 | `PGROUNDUP(pa_start)` is page-aligned and is the first page boundary at or after `pa_start`. |
| Memlayout.PgRoundUpLeast | kernel/kalloc.c:42 | No page boundary lies between `pa_start` and `PGROUNDUP(pa_start)`. |
| Memlayout.Filled | kernel/kalloc.c:70 | `memset(pa, b, PGSIZE)` leaves a page of exactly PGSIZE bytes, each equal to `b`. |
| Kalloc.KfreeSpec | kernel/kalloc.c:52-78 | kfree succeeds exactly when `pa` is aligned, lies in `[end, PHYSTOP)`, and does not, once seeded, have count <= 0. `end` and the flag are never changed. |
| Kalloc.KfreePanics | kernel/kalloc.c:56-61 | A misaligned or out-of-range address panics with "kfree". An address that passes that check but has count <= 0 after seeding panics with "kfree: cow_count". Either way the state is left as it was. |
| Kalloc.KfreeShared | kernel/kalloc.c:63-66 | On a shared frame (count > 1) kfree lowers that count by exactly 1. The free list, every page and every other count are unchanged. |
| Kalloc.KfreeLast | kernel/kalloc.c:68-77 | On the last reference (count 1, or <= 1 before seeding) kfree sets the count to 0, fills the page with byte 1 and pushes the frame at the head of the list, which grows by exactly one. Nothing else changes. |
| Kalloc.KfreeNoDoubleFree | kernel/kalloc.c:60-61 | Once seeded, kfree of a frame that is already on the free list panics with "kfree: cow_count" and changes nothing. |
| Kalloc.KfreePreservesInv | kernel/kalloc.c:52-78 | kfree keeps the invariant: counts are non-negative; listed frames are managed, appear once, have count 0 and hold the free pattern; once seeded, every managed frame with count 0 is on the list. |
| Kalloc.KallocSpec | kernel/kalloc.c:84-101 | kalloc returns 0 exactly when the free list is empty. Otherwise it returns the page-aligned address, below PHYSTOP, of the frame at the head of the list. |
| Kalloc.KallocTakesHead | kernel/kalloc.c:88-100 | An empty pool leaves the whole state unchanged. Otherwise the head is removed, its page is filled with byte 5 and its count is set to 1; the tail of the list and every other page and count are unchanged. |
| Kalloc.KallocPreservesInv | kernel/kalloc.c:84-101 | kalloc keeps the invariant. The frame it returns is a managed frame that is no longer on the free list. |
| Kalloc.FreeThenAllocReuses | kernel/kalloc.c:68-97 | Freeing a frame's last reference and then allocating returns that same frame, holding byte 5. The counts and the free list end as they began (LIFO reuse). |
| Kalloc.FreeRangeSpec | kernel/kalloc.c:38-45 | freerange never changes `end` or the flag, and keeps the state well formed. |
| Kalloc.FreedStackAt | kernel/kalloc.c:42-44 | The frames released by `freerange(p, e)` are exactly `p, p+PGSIZE, ...` while a whole page fits below `e`. There are as many as there are whole pages, and the last released frame is at the head of the list. |
| Kalloc.FreeRangeBootstrap | kernel/kalloc.c:38-45 | Before seeding, freerange over frames above `end` with counts <= 1 never panics. |
| Kalloc.FreeRangeBootstrapList | kernel/kalloc.c:42-44 | That same freerange pushes its frames in address order on top of the existing list, the highest frame ending at the head. |
| Kalloc.FreeRangeBootstrapSeeds | kernel/kalloc.c:42-44 | That same freerange sets the count of every frame in the range to 0 and fills its page with byte 1. Every frame outside the range is untouched. |
| Kalloc.FreeRangeBootstrapInv | kernel/kalloc.c:38-45 | That same freerange keeps the invariant when its frames lie above every frame already free. |
| Kalloc.FreedStackIsManaged | kernel/kalloc.c:34-44 | A frame is released by `freerange(end, PHYSTOP)` exactly when it lies between the end of the kernel image and PHYSTOP. |
| Kalloc.KinitSpec | kernel/kalloc.c:30-36 | kinit is freerange from `PGROUNDUP(end)` to PHYSTOP, starting from the zeroed table and the empty list, followed by setting `cow_init`. It keeps `end`, leaves the flag set and the state well formed. |
| Kalloc.KinitEstablishesInv | kernel/kalloc.c:30-36 | kinit never panics and leaves `cow_init` set, with the invariant in force. Every managed frame, and nothing else, is on the free list, once, highest first. Every count is 0. |
| Kalloc.Kmem.Kinit | kernel/kalloc.c:30-36 | The in-place kinit (zeroed table, seeding loop, then the flag) reaches the state of its specification, with the invariant and the flag set. |
| Kalloc.Kmem.FreeRange | kernel/kalloc.c:38-45 | The page-stepping loop over the globals reaches the state and status of the specification, stopping at the first panic. |
| Kalloc.Kmem.Kfree | kernel/kalloc.c:52-78 | The in-place kfree (array update, page fill, list push) reaches the state and status of the specification. |
| Kalloc.Kmem.Kalloc | kernel/kalloc.c:84-101 | The in-place kalloc (list pop, page fill, count set) returns the address and reaches the state of the specification. |
| Vm.PageTable.MapPages | kernel/kalloc.c:138 | Mapping an unmapped address adds exactly that entry, with the given permissions plus the valid bit. |
| Vm.PageTable.Unmap | kernel/kalloc.c:125 | The page-table side of uvmunmap removes exactly that entry. |
| Cow.CowPerm | kernel/kalloc.c:117-119 | The new permissions have W set and COW clear, with every other flag bit kept. |
| Cow.UvmUnmapSpec | kernel/kalloc.c:125 | uvmunmap with free leaves the allocator exactly as kfree of the mapped frame does, with kfree's status. On success the frame passed kfree's checks and the entry is removed. A panic leaves the page table unchanged. |
| Cow.UvmUnmap | kernel/kalloc.c:125 | The in-place uvmunmap on `Kmem` and `PageTable` reaches the state of its specification. |
| Cow.CowKallocNoPte | kernel/kalloc.c:114-115 | A fault on an address with no entry panics with "cow_kalloc: old_pte should exist" and changes nothing. |
| Cow.CowKallocBadFrame | kernel/kalloc.c:125 | When the mapped frame fails kfree's checks, the handler panics with kfree's message: "kfree" for a bad address, "kfree: cow_count" for a count <= 0. The allocator and the page table are unchanged. |
| Cow.CowKallocShared | kernel/kalloc.c:114-141 | On a shared frame (count >= 2) the old frame loses exactly one reference, and the handler never panics. If the pool is empty it returns 0 and leaves `va` unmapped. Otherwise `va` maps the old head of the free list, a different frame, holding a copy of the old page with count 1 and the new permissions. The invariant is kept. |
| Cow.CowKallocSoleOwner | kernel/kalloc.c:125-134 | On a frame with a single reference, the handler returns the same frame, now filled with byte 5, with the new permissions. Counts and free list end as they began, and the invariant is kept. |
| Cow.CowKallocSoleOwnerLosesContents | kernel/kalloc.c:125-134 | As written, a sole owner's page contents do not survive the fault unless they were all 5s. |
| Cow.CowKallocSpec | kernel/kalloc.c:104-142 | cow_kalloc as written, in source order (lookup, permissions, unmap with free, kalloc, copy, map), keeps the allocator state well formed. |
| Cow.CowKalloc | kernel/kalloc.c:104-142 | The in-place handler over `Kmem` and `PageTable`, in source order, reaches the outcome of its specification. |
| Cow.CowKallocCopyFirstKeepsContents | kernel/kalloc.c:106-136 | With the copy taken before the old reference is dropped, every fault on a live frame ends one of two ways, and the invariant is kept. If memory runs out, nothing changes. Otherwise `va` maps the old head of the free list, a different frame, holding exactly the old contents with count 1 and the new permissions. The old frame loses one reference; if that was its last, it is filled with byte 1 and pushed on the list. The whole new state is given: every other count and page, and the rest of the list, are unchanged. |
| Cow.CowKallocCopyFirstSpec | kernel/kalloc.c:104-142 | The handler with kalloc and the copy taken before the unmap with free, then the map. It keeps the allocator state well formed. |
| Cow.CowKallocCopyFirst | kernel/kalloc.c:104-142 | The in-place corrected handler reaches the outcome of its specification. |

## Left out

- The spinlock `kmem.lock` and its acquire/release are not modelled. Every operation is sequential and atomic.
- The diagnostic `printf` in cow_kalloc is I/O and is not modelled.
- `walk`, the PTE encoding, and the internals of `uvmunmap` and `mappages` are not part of this model. The page table is a map from virtual address to (frame, flags), and `PTE2PA`/`PTE_FLAGS` are its two fields.
- A `walk` that reaches a leaf entry without the valid bit is not modelled apart from a missing entry. Both give the "cow_kalloc: old_pte should exist" panic; in the source, the invalid-leaf case would instead go on and panic inside uvmunmap with that function's own message. Entries in the map are the valid leaf entries.
- The faulting `va` is taken page-aligned: the map's keys are page addresses. An unaligned `va` is simply absent from the map, so it panics with "cow_kalloc: old_pte should exist". The source's `walk` would find the entry of the page holding it, and uvmunmap would then panic with its own "not aligned" message; that panic is not modelled.
- The `mappages` failure panic in cow_kalloc cannot arise in the model: `va` has just been unmapped, and `MapPages` requires an unmapped address.
- The intrusive free list, whose `next` pointer overwrites the first word of a free page, is not modelled. The list is kept apart from the page contents.
- `end` (a linker symbol) is a parameter with `KERNBASE <= end <= PHYSTOP`. `memlayout.h` and `riscv.h` are not part of this model. KERNBASE, PHYSTOP (128 MB of RAM) and PGSIZE take the standard values of this kernel, and `PTE_COW` is taken to be bit 8, one of the bits reserved for software.
- Reference counts are also raised outside this file, when fork shares a page. That code is not part of this model, so a count can start at any value in a given state.
- Addresses are unbounded naturals; 64-bit wrap-around of `pa`, `p + PGSIZE` and the counts is not modelled.
- `memset` and `memmove` are whole-page assignments in the contents map.
- What RAM holds at boot is a parameter of `Kinit`.
- Kalloc.KfreePreservesInv: requires that, before seeding, kfree is not handed a frame already on the free list. The source does not check this case and would push the frame twice. After seeding it panics instead (`KfreeNoDoubleFree`).
- Cow.CowKallocCopyFirstSpec: requires the mapped address to lie in RAM, so that the copy can read the old frame before kfree checks it.
- Cow.CowKallocCopyFirst: allocates before it unmaps, so when memory runs out `va` stays mapped to the old frame. The comment at kernel/kalloc.c:106-108 clears the entry first, which would leave `va` unmapped in that case. The corrected handler follows the copy-on-write design, where a failed fault leaves the process's mapping intact, rather than the comment's order.

## Findings

| source | as written | input that shows it | evidently intended | confidence | as-written member | corrected member |
|---|---|---|---|---|---|---|
| kernel/kalloc.c:125-134 | The old page is unmapped with free before the new page is allocated and the old one copied. When the faulting process is the frame's only owner (count 1), kfree pushes the frame on the LIFO free list, and kalloc hands back that very frame after overwriting it with byte 5. The memmove then copies the frame onto itself. | A writable COW fault on `va` mapped to a frame with count 1 whose page is not all 5s. The handler returns the same frame, now all 5s. | Copy the old frame before its reference is dropped, as the comment at lines 106-108 describes and the commented-out `kfree` at line 136 suggests, so that the page's contents are preserved. The corrected handler also allocates before it unmaps, so when memory runs out it leaves `va` mapped. That follows the copy-on-write design rather than the comment, which clears the entry first. | not executed; medium: the fault dispatcher, which is not part of this model, may skip the call when the count is 1 | Cow.CowKallocSoleOwnerLosesContents | Cow.CowKallocCopyFirstKeepsContents |
