# Buffer cache and page allocator of a teaching kernel, in Dafny

This project models two parts of an xv6-derived RISC-V kernel.

**The sharded disk-block buffer cache** (`kernel/bio.c`). A fixed arena of
`NBUF = 30` buffer slots is spread over `NBUCKET = 13` hash buckets. Each
bucket is a circular doubly linked ring through the slots' `next`/`prev`
links and hangs off a sentinel head. The model keeps the links in two
arrays over `NBUF + NBUCKET` node indices; nodes `NBUF ..` are the heads.
Slot metadata (`dev`, `blockno`, `refcnt`, `valid`, `lastuse` and the sleep
lock `held`) lives in a third array. Ghost state records each bucket's ring
contents (`rings`) and each slot's bucket (`home`).

The class invariant `BCache.Valid` says four things:
- every ring is well linked from its head, in both directions;
- the rings partition the slots;
- every slot sits in the bucket `Hash(blockno)`;
- whenever two slots of a bucket carry the same block, the later one is
  unreferenced and not loaded.

The constructor (`binit`) and every operation preserve it. The operations
are:
- `bget`: hit, local LRU eviction, cross-bucket steal, or the "no buffers"
  panic;
- `bread`, `bwrite`, `brelse`, `bpin` and `bunpin`.

The pure module `RingArena` proves that the unlink and front-push link
writes keep rings well formed. It also proves that moving a slot between
rings keeps the arena partitioned.

**The physical page allocator** (`kernel/kalloc.c`). Free pages form a LIFO
list, and every page has a copy-on-write reference count `page_ref`. Class
`Kmem` holds the list as a sequence and the counts as an array. Its methods
`Kfree`, `Kalloc` and `FreeRange` are proved equal to the value-level
functions `Freed`, `Allocated` and `FreeAll`. Lemmas about those functions
state the allocator's properties: the panic condition, shared versus
unshared frees, LIFO round trips, and what `kinit` leaves behind.

`Wrappers.Option` is the result type of the operations where the kernel
panics or has nothing to hand out.

## Model

| member | source | states |
|---|---|---|
| Bio.Hash | kernel/bio.c:41-45 | the bucket of a block number is always one of the `NBUCKET` buckets |
| Bio.HashAsWritten | kernel/bio.c:41-45 | `hash` with its signed parameter and C's truncating `%` stays within (-13, 13), and agrees with `Hash` below 2^31 |
| Bio.HashAsWrittenOutOfRange | kernel/bio.c:41-45 | as written, block 2^31 is sent to bucket -11 |
| Bio.InitLinks | kernel/bio.c:57-67 | after the two `binit` loops, head 0's ring holds slots NBUF-1 … 0 (each pushed at the front) and the other heads are self-linked |
| Bio.PushSlot | kernel/bio.c:62-66 | one iteration of the `binit` loop writes exactly the front-push links for slot `b` |
| Bio.InitialArena | kernel/bio.c:57-67 | the links `binit` builds form a well-formed arena with every slot in bucket 0 and buckets 1..12 empty |
| Bio.BCache.constructor | kernel/bio.c:47-68 | the cache starts valid, with bucket 0 holding every slot exactly once in reverse order, the other rings empty, and all slots zeroed |
| RingArena.Unlink | kernel/bio.c:142-143 | unlinking position `p` leaves a well-linked ring holding the other slots in their old order |
| RingArena.PushFront | kernel/bio.c:146-149 | pushing a detached slot after the head makes it the first element of a well-linked ring |
| RingArena.UnlinkKeepsOther | kernel/bio.c:142-143 | unlinking a slot of one ring leaves every other ring well linked |
| RingArena.PushKeepsOther | kernel/bio.c:146-149 | pushing a slot on one ring leaves every other ring well linked |
| RingArena.MovePartition | kernel/bio.c:141-149 | moving a slot from ring `j` to the front of ring `i` keeps the rings a partition of the slots, with the slot's home now `i` |
| RingArena.MoveAllLinked | kernel/bio.c:141-149 | after the six link writes of a move, every ring is well linked to its head |
| RingArena.Move | kernel/bio.c:141-149 | the move keeps the whole arena well formed: ring `j` loses exactly the slot, ring `i` gains it at its head, every other ring is untouched |
| Bio.BCache.ScanHit | kernel/bio.c:82-89 | the hit scan returns -1 exactly when no slot of the bucket holds the block, otherwise the first slot in ring order that does |
| Bio.BCache.ScanLru | kernel/bio.c:109-115 | the eviction scan returns -1 exactly when every slot of the bucket is referenced, otherwise the unreferenced slot with the least `lastuse`, the first one on a tie |
| Bio.FirstMatchUnique | kernel/bio.c:82-88 | a block has at most one first match in a bucket, so the hit slot is determined |
| Bio.VictimUnique | kernel/bio.c:109-115 | the eviction choice within a bucket is unique |
| Bio.BCache.CachedOnlyAtHome | kernel/bio.c:78-89 | a block cached anywhere is cached in bucket `Hash(blockno)`, so scanning that bucket alone decides a hit |
| Bio.BCache.OneLiveCopy | kernel/bio.c:100-125 | of two slots carrying the same block, one is unreferenced and not loaded: no two live copies of a block exist |
| Bio.BCache.InHomeBucket | kernel/bio.c:195-197 | every slot sits in the ring of bucket `Hash(blockno)`, the bucket whose lock `brelse`, `bpin` and `bunpin` take |
| Bio.BCache.Grab | kernel/bio.c:82-88 | the hit path adds one reference to the matching slot, takes its sleep lock and changes nothing else |
| Bio.BCache.Claim | kernel/bio.c:116-126 | local eviction relabels the victim with the block, one reference, not valid, its sleep lock held, and leaves the rings alone |
| Bio.ProbeStep | kernel/bio.c:128 | `hash(j + 1)` steps to the next bucket in probe order, and the probe returns to the home bucket exactly after `NBUCKET` steps |
| Bio.BCache.FindDonor | kernel/bio.c:128-135 | the probe returns the first bucket after `i`, in successor order, with an unreferenced slot, and its eviction victim; -1 exactly when no other bucket has one |
| Bio.Exhausted | kernel/bio.c:127-159 | when the home bucket and all probed buckets lack an unreferenced slot, every slot of the cache is referenced |
| Bio.StealKeepsInv | kernel/bio.c:136-153 | relabelling a stolen victim and splicing it into the home bucket preserves the cache invariant |
| Bio.BCache.Splice | kernel/bio.c:142-149 | the six link writes of a steal produce exactly the spliced link tables |
| Bio.BCache.Move | kernel/bio.c:136-153 | a steal relabels the victim (one reference, not valid, held), moves it to the front of the home ring, and keeps the invariant |
| Bio.BCache.Steal | kernel/bio.c:127-159 | the steal path panics exactly when every slot is referenced; otherwise it moves the victim of the first donor bucket into the home bucket |
| Bio.BCache.Get | kernel/bio.c:73-160 | `bget` returns a slot holding the block, referenced and held, with every other slot unchanged. A hit gives the first match with one more reference. A miss gives the home bucket's LRU victim, else a stolen victim. It panics exactly when the block is not cached and every slot is referenced. The slot is valid exactly when a loaded copy was cached |
| Bio.BCache.Load | kernel/bio.c:169-172 | a slot that is not valid is filled by exactly one disk read and becomes valid |
| Bio.BCache.Read | kernel/bio.c:163-174 | `bread` returns a valid, held slot for the block, issuing a disk read exactly when no loaded copy was cached. The slot is the one `bget` picks: the first match on a hit, leaving the rings alone; the home bucket's victim on a local eviction, leaving the rings alone; the first donor's victim on a steal, with the rings becoming `Moved` |
| Bio.BCache.Write | kernel/bio.c:177-183 | `bwrite` writes once when the caller holds the sleep lock and otherwise panics without effect |
| Bio.BCache.Release | kernel/bio.c:187-211 | `brelse` panics without the sleep lock; otherwise it releases the lock, drops one reference, stamps `lastuse := ticks` exactly when the count reaches 0, and leaves ring order alone |
| Bio.BCache.Pin | kernel/bio.c:213-219 | `bpin` raises only the slot's reference count, by one |
| Bio.BCache.Unpin | kernel/bio.c:221-227 | `bunpin` lowers only the slot's reference count, by one |
| Bio.BCache.LoadedIsFirst | kernel/bio.c:82-88 | a loaded slot is the first copy of its block in its bucket, so the next `bget` of that block finds it |
| Bio.BCache.ReadReleaseRead | kernel/bio.c:163-211 | in `bread`, `brelse`, `bread` of one block, the second `bread` returns the same slot, and the pair issues one disk read exactly when no loaded copy was cached beforehand, none otherwise |
| Kalloc.PgRoundUp | kernel/kalloc.c:39 | `PGROUNDUP(a)` is the least page boundary at or above `a` |
| Kalloc.Index | kernel/kalloc.c:17 | every page between `KERNBASE` and `PHYSTOP` has a slot in `page_ref` |
| Kalloc.IndexInjective | kernel/kalloc.c:17 | distinct accepted pages have distinct `page_ref` slots |
| Kalloc.Freed | kernel/kalloc.c:48-71 | `kfree` panics exactly when the address is unaligned, below `end`, or at or above `PHYSTOP`, and otherwise keeps the list made of accepted pages |
| Kalloc.FreeShared | kernel/kalloc.c:56-59 | freeing a page with count above 1 only drops that count by one; the free list and every other count stay |
| Kalloc.FreeUnshared | kernel/kalloc.c:60-70 | freeing a page with count at most 1 zeroes its count and pushes it on the front of the free list; no other count changes |
| Kalloc.Allocated | kernel/kalloc.c:76-92 | `kalloc` returns 0 exactly when the free list is empty, and otherwise an accepted page |
| Kalloc.AllocPops | kernel/kalloc.c:81-90 | `kalloc` returns the head, leaves the old tail as the list, sets the page's count to 1 and changes no other count; on an empty list nothing changes |
| Kalloc.FreeThenAlloc | kernel/kalloc.c:67-84 | LIFO: freeing an unshared page and then allocating returns that page and restores the free list (for a page already listed, this is the model's list, not the kernel's: see `DoubleFree`) |
| Kalloc.FreeKeepsListOk | kernel/kalloc.c:53-70 | freeing an accepted page that is not on the free list keeps every listed page listed once and counted 0 |
| Kalloc.AllocKeepsListOk | kernel/kalloc.c:81-89 | allocating keeps every listed page listed once and counted 0 |
| Kalloc.DoubleFree | kernel/kalloc.c:60-70 | freeing a page already on a well-formed free list pushes it a second time, and the list is no longer well formed |
| Kalloc.AllocThenFree | kernel/kalloc.c:60-89 | allocating and then freeing the page returns the allocator to its previous state |
| Kalloc.PagesAt | kernel/kalloc.c:38-41 | the pages `freerange` visits are whole pages below the end of the range, aligned when the start is |
| Kalloc.PagesExact | kernel/kalloc.c:38-41 | the pages from `p0` are exactly `p0 + q * PGSIZE`, as many as fit whole below the end of the range |
| Kalloc.RangePages | kernel/kalloc.c:38-41 | every page `freerange` visits is page aligned, at or above `start` and ends at or before `end` |
| Kalloc.RangePagesExact | kernel/kalloc.c:38-41 | `freerange` visits `PGROUNDUP(start) + q * PGSIZE` for `q = 0, 1, ...`, in increasing order, and every aligned `p` with `PGROUNDUP(start) <= p` and `p + PGSIZE <= end` among them |
| Kalloc.FreeAll | kernel/kalloc.c:38-41 | `kfree` applied to a run of pages in turn, stopping at the first panic, keeps the list made of accepted pages |
| Kalloc.FreeAllStuck | kernel/kalloc.c:53-54 | once `kfree` panics on a page, no later page of the range is freed |
| Kalloc.FreeAllOk | kernel/kalloc.c:38-41 | freeing a run of pages gets through exactly when every page passes the `kfree` check |
| Kalloc.FreeAllUnshared | kernel/kalloc.c:35-42 | freeing unshared accepted pages in turn leaves them on the list last-freed first, counted 0, with every other count unchanged |
| Kalloc.KinitFreesAll | kernel/kalloc.c:28-42 | `kinit` on zeroed counts lists the `(PHYSTOP - PGROUNDUP(end)) / PGSIZE` whole pages from `PGROUNDUP(end)` up, highest address first, all counted 0 |
| Kalloc.KinitListOk | kernel/kalloc.c:28-42 | the free list `kinit` builds lists every page once, all counted 0 |
| Kalloc.Kmem.constructor | kernel/kalloc.c:28-33 | `kinit` leaves the `(PHYSTOP - PGROUNDUP(end)) / PGSIZE` whole pages from `PGROUNDUP(end)` on the free list, highest address first, with zero counts, and the list well formed |
| Kalloc.Kmem.Kfree | kernel/kalloc.c:48-71 | `kfree` updates the list and counts as `Freed` says, on a panic changes nothing, and keeps the free list well formed when the page is not already on it |
| Kalloc.Kmem.Kalloc | kernel/kalloc.c:76-92 | `kalloc` returns the page, leaves the state `Allocated` gives, and keeps the free list well formed |
| Kalloc.Kmem.FreeRange | kernel/kalloc.c:35-42 | `freerange` reaches the state `FreeAll` gives for its pages, and reports the first `kfree` panic |

## Left out

- Spinlocks, the eviction lock and sleep-lock waiting are not modelled. Each operation is one atomic sequential step, and `acquiresleep` becomes setting `held`. The second hit scan that `bget` repeats under the eviction lock (kernel/bio.c:97-108) sees the same state in a sequential model, so it is folded into the first.
- Block contents and `virtio_disk_rw` are not modelled. Disk transfers are the ghost counters `diskReads` and `diskWrites`. The clock `ticks` is a parameter of `Release`.
- The junk fills (`memset`) of `kfree` and `kalloc` are not modelled, and neither is `cow_alloc`, whose page-table helpers are not part of this model.
- `param.h` and `memlayout.h` are not part of this model. `NBUF = 30`, `KERNBASE = 0x80000000` and `PHYSTOP = KERNBASE + 128 MiB` are xv6's usual values. The `page_ref` slot of a page is assumed to be its offset from `KERNBASE` in pages.
- The kernel's `end` symbol is a constructor parameter of `Kmem`. Overflow of 64-bit address arithmetic near 2^64 in `freerange` is not modelled.
- Bio.BCache.OneLiveCopy: the cache starts zero-initialised, so all slots carry block (0, 0). Literal uniqueness of `(dev, blockno)` is therefore false. What is proved is that of any two copies one is unreferenced and not loaded.
- Bio.BCache.Release: requires a held slot to have a positive reference count, so the unsigned decrement cannot wrap. The "brelse" panic for a caller without the sleep lock returns `false` with nothing changed, rather than halting.
- Bio.BCache.Pin: requires a positive reference count. The source does not check, but a caller pins a buffer it holds.
- Bio.BCache.Unpin: requires a positive reference count, so the unsigned decrement cannot wrap.
- Bio.BCache.Write: the "must be locked" panic returns `false` with nothing changed, rather than halting.
- Bio.BCache.Get: the "no buffers" panic returns `None` with nothing changed, rather than halting.
- Kalloc.Kmem.Kfree: the "kfree" panic for a bad address returns `false` with nothing changed, rather than halting.
- Kalloc.Kmem.Kfree: the kernel's free list is intrusive: a free page's first word is its `next` link. A double free overwrites that link, which makes the list a cycle and loses its tail. The model keeps the list as a sequence, so a double free lists the page twice, and the list is no longer well formed (`Kalloc.DoubleFree`). The same applies to `Kalloc.Freed` and `Kalloc.FreeThenAlloc`. Well-formedness is proved preserved only for frees of pages not on the list.
- Kalloc.Kmem.FreeRange: after a `kfree` panic, the state up to that page is reported rather than the kernel halting.
- The signed comparison of `lastuse` with `int min_ticks` is taken on unbounded naturals.

## Findings

| source | as written | input that shows it | evidently intended | confidence | as-written member | corrected member |
|---|---|---|---|---|---|---|
| kernel/bio.c:41-45 | `hash` takes an `int`, so an unsigned block number of 2^31 or more arrives negative, and C's `%` then gives a negative bucket, indexing outside `bcache.lock` and `bcache.head` | blockno = 0x80000000 gives bucket -11 | the bucket of the unsigned block number, `blockno % NBUCKET`, always in [0, 13) | not executed | Bio.HashAsWrittenOutOfRange | Bio.Hash |
