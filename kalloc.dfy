/** The physical page allocator with copy-on-write reference counts.

    Free pages form a LIFO list threaded through the pages themselves; here
    the list is the sequence of page addresses from its head.  Each page
    between `KERNBASE` and `PHYSTOP` has a reference count in `page_ref`,
    indexed by the page's offset from `KERNBASE` in pages.  Freeing a page
    that is still shared only drops its count; freeing an unshared page
    clears its count and pushes it on the list; allocating pops the head and
    gives it a count of one.  Page contents (the junk fills) and the lock are
    not modelled.
 */
module Kalloc {
  import opened Wrappers

  /** Bytes per page. */
  const PGSIZE: nat := 4096
  /** First physical address of RAM (xv6's `KERNBASE`). */
  const KERNBASE: nat := 0x8000_0000
  /** End of usable RAM (xv6's `PHYSTOP`: 128 MiB above `KERNBASE`). */
  const PHYSTOP: nat := KERNBASE + 128 * 1024 * 1024
  /** Entries of `page_ref`: one per page from `KERNBASE` to `PHYSTOP`. */
  const NPAGES: nat := (PHYSTOP - KERNBASE) / PGSIZE

  /** `PGROUNDUP`: the first page boundary at or above `a`. */
  function PgRoundUp(a: nat): (r: nat)
    ensures a <= r < a + PGSIZE && r % PGSIZE == 0
  {
    (a + PGSIZE - 1) / PGSIZE * PGSIZE
  }

  /** `kfree` accepts `pa`: page aligned, not below the kernel's end `kend`,
      and below `PHYSTOP`. */
  predicate InRange(kend: nat, pa: nat)
  {
    pa % PGSIZE == 0 && kend <= pa < PHYSTOP
  }

  /** The `page_ref` slot of the page at `pa`. */
  function Index(pa: nat): (i: nat)
    requires KERNBASE <= pa < PHYSTOP
    ensures i < NPAGES
  {
    (pa - KERNBASE) / PGSIZE
  }

  /** Two accepted pages share a `page_ref` slot only if they are the same
      page. */
  lemma IndexInjective(kend: nat, a: nat, b: nat)
    requires KERNBASE <= kend && InRange(kend, a) && InRange(kend, b) && Index(a) == Index(b)
    ensures a == b
  {
    assert a == KERNBASE + Index(a) * PGSIZE;
    assert b == KERNBASE + Index(b) * PGSIZE;
  }

  /** Every address of `s` is an accepted page. */
  predicate AllInRange(kend: nat, s: seq<nat>)
  {
    forall q | 0 <= q < |s| :: InRange(kend, s[q])
  }

  /** The allocator's state as values: the free list from its head, and the
      reference count of every page. */
  datatype Pool = Pool(freelist: seq<nat>, refs: seq<nat>)

  /** A pool the allocator can be in: one count per page and only accepted
      pages on the free list. */
  predicate PoolOk(kend: nat, pool: Pool)
  {
    KERNBASE <= kend && |pool.refs| == NPAGES && AllInRange(kend, pool.freelist)
  }

  /** `kfree(pa)`: `None` where the kernel panics; a shared page loses one
      reference; any other page gets count 0 and goes on the front of the
      free list. */
  function Freed(kend: nat, pool: Pool, pa: nat): (r: Option<Pool>)
    requires PoolOk(kend, pool)
    ensures r.None? <==> !InRange(kend, pa)
    ensures r.Some? ==> PoolOk(kend, r.value)
  {
    if pa % PGSIZE != 0 || pa < kend || pa >= PHYSTOP then None
    else
      var i := Index(pa);
      if pool.refs[i] > 1 then Some(Pool(pool.freelist, pool.refs[i := pool.refs[i] - 1]))
      else Some(Pool([pa] + pool.freelist, pool.refs[i := 0]))
  }

  /** `kalloc()`: 0 and the pool unchanged when the free list is empty,
      otherwise the head page, now counted once, with the tail as the new
      list. */
  function Allocated(kend: nat, pool: Pool): (r: (nat, Pool))
    requires PoolOk(kend, pool)
    ensures r.0 == 0 <==> pool.freelist == []
    ensures r.0 != 0 ==> InRange(kend, r.0)
    ensures PoolOk(kend, r.1)
  {
    if pool.freelist == [] then (0, pool)
    else
      var pa := pool.freelist[0];
      (pa, Pool(pool.freelist[1..], pool.refs[Index(pa) := 1]))
  }

  /** `kalloc` hands out the head of the free list, leaves the old tail as
      the list, counts the page once and changes no other count; with an
      empty list it changes nothing. */
  lemma AllocPops(kend: nat, pool: Pool)
    requires PoolOk(kend, pool)
    ensures var (pa, p1) := Allocated(kend, pool);
            if pool.freelist == [] then p1 == pool
            else pa == pool.freelist[0] && p1.freelist == pool.freelist[1..]
                 && p1.refs[Index(pa)] == 1
                 && forall i | 0 <= i < NPAGES && i != Index(pa) :: p1.refs[i] == pool.refs[i]
  {
  }

  /** Freeing a page that is still shared elsewhere leaves the free list
      alone and drops exactly that page's count by one. */
  lemma FreeShared(kend: nat, pool: Pool, pa: nat)
    requires PoolOk(kend, pool) && InRange(kend, pa) && pool.refs[Index(pa)] > 1
    ensures Freed(kend, pool, pa).Some?
    ensures Freed(kend, pool, pa).value.freelist == pool.freelist
    ensures Freed(kend, pool, pa).value.refs[Index(pa)] == pool.refs[Index(pa)] - 1
    ensures forall i | 0 <= i < NPAGES && i != Index(pa) :: Freed(kend, pool, pa).value.refs[i] == pool.refs[i]
  {
  }

  /** Freeing an unshared page puts it at the head of the free list, clears
      its count, and changes no other count. */
  lemma FreeUnshared(kend: nat, pool: Pool, pa: nat)
    requires PoolOk(kend, pool) && InRange(kend, pa) && pool.refs[Index(pa)] <= 1
    ensures Freed(kend, pool, pa).Some?
    ensures Freed(kend, pool, pa).value.freelist == [pa] + pool.freelist
    ensures Freed(kend, pool, pa).value.refs[Index(pa)] == 0
    ensures forall i | 0 <= i < NPAGES && i != Index(pa) :: Freed(kend, pool, pa).value.refs[i] == pool.refs[i]
  {
  }

  /** The free list is LIFO: freeing an unshared page and then allocating
      hands that same page back, restores the free list, and leaves the page
      counted once. */
  lemma FreeThenAlloc(kend: nat, pool: Pool, pa: nat)
    requires PoolOk(kend, pool) && InRange(kend, pa) && pool.refs[Index(pa)] <= 1
    ensures Freed(kend, pool, pa).Some?
    ensures Allocated(kend, Freed(kend, pool, pa).value)
            == (pa, Pool(pool.freelist, pool.refs[Index(pa) := 1]))
  {
    var p1 := Freed(kend, pool, pa).value;
    assert p1.freelist == [pa] + pool.freelist;
    assert p1.freelist[1..] == pool.freelist;
    assert pool.refs[Index(pa) := 0][Index(pa) := 1] == pool.refs[Index(pa) := 1];
  }

  /** Allocating a page and freeing it again returns the allocator to where
      it was, provided the page was counted zero while on the free list. */
  lemma AllocThenFree(kend: nat, pool: Pool)
    requires PoolOk(kend, pool) && pool.freelist != []
    requires pool.refs[Index(pool.freelist[0])] == 0
    ensures Freed(kend, Allocated(kend, pool).1, Allocated(kend, pool).0) == Some(pool)
  {
    var pa := pool.freelist[0];
    assert [pa] + pool.freelist[1..] == pool.freelist;
    assert pool.refs[Index(pa) := 1][Index(pa) := 0] == pool.refs;
  }

  /** What the kernel's intrusive free list relies on: each listed page is
      listed once (its first word holds one `next` link), and a listed page
      is counted zero. */
  predicate FreeListOk(kend: nat, pool: Pool)
  {
    PoolOk(kend, pool)
    && (forall p, q | 0 <= p < q < |pool.freelist| :: pool.freelist[p] != pool.freelist[q])
    && forall q | 0 <= q < |pool.freelist| :: pool.refs[Index(pool.freelist[q])] == 0
  }

  /** Freeing an accepted page that is not on the free list keeps the list
      well formed. */
  lemma FreeKeepsListOk(kend: nat, pool: Pool, pa: nat)
    requires FreeListOk(kend, pool) && InRange(kend, pa) && pa !in pool.freelist
    ensures Freed(kend, pool, pa).Some? && FreeListOk(kend, Freed(kend, pool, pa).value)
  {
    var l := pool.freelist;
    forall q | 0 <= q < |l| ensures Index(l[q]) != Index(pa) {
      if Index(l[q]) == Index(pa) { IndexInjective(kend, l[q], pa); }
    }
    var p1 := Freed(kend, pool, pa).value;
    if pool.refs[Index(pa)] <= 1 {
      assert p1.freelist == [pa] + l;
      forall q | 0 <= q < |p1.freelist| ensures p1.refs[Index(p1.freelist[q])] == 0 {
        if q > 0 { assert p1.freelist[q] == l[q - 1]; }
      }
    }
  }

  /** Allocating keeps the free list well formed. */
  lemma AllocKeepsListOk(kend: nat, pool: Pool)
    requires FreeListOk(kend, pool)
    ensures FreeListOk(kend, Allocated(kend, pool).1)
  {
    var l := pool.freelist;
    if l != [] {
      var p1 := Allocated(kend, pool).1;
      forall q | 0 <= q < |p1.freelist| ensures p1.refs[Index(p1.freelist[q])] == 0 {
        assert p1.freelist[q] == l[q + 1] != l[0];
        if Index(l[q + 1]) == Index(l[0]) { IndexInjective(kend, l[q + 1], l[0]); }
      }
    }
  }

  /** A double free: freeing a page that is already on a well-formed free
      list pushes it a second time, and the list is no longer well formed.
      The kernel's intrusive list is corrupted at this point instead. */
  lemma DoubleFree(kend: nat, pool: Pool, pa: nat)
    requires FreeListOk(kend, pool) && pa in pool.freelist
    ensures Freed(kend, pool, pa) == Some(Pool([pa] + pool.freelist, pool.refs))
    ensures !FreeListOk(kend, Freed(kend, pool, pa).value)
  {
    var l := pool.freelist;
    var j :| 0 <= j < |l| && l[j] == pa;
    assert pool.refs[Index(pa)] == 0;
    assert pool.refs[Index(pa) := 0] == pool.refs;
    var l1 := [pa] + l;
    assert l1[0] == l1[j + 1];
  }

  /** The addresses `freerange` hands to `kfree`, in order: every `p` from
      `p0` in steps of `PGSIZE` with `p + PGSIZE <= e`. */
  function Pages(p0: nat, e: nat): (ps: seq<nat>)
    decreases e - p0
  {
    if p0 + PGSIZE <= e then [p0] + Pages(p0 + PGSIZE, e) else []
  }

  /** The pages from `p0` are whole pages below `e`, `PGSIZE` apart, so
      page aligned when `p0` is. */
  lemma {:induction false} PagesAt(p0: nat, e: nat)
    ensures forall q | 0 <= q < |Pages(p0, e)| ::
              p0 <= Pages(p0, e)[q] && Pages(p0, e)[q] + PGSIZE <= e
              && (p0 % PGSIZE == 0 ==> Pages(p0, e)[q] % PGSIZE == 0)
    decreases e - p0
  {
    if p0 + PGSIZE <= e {
      PagesAt(p0 + PGSIZE, e);
      var ps := Pages(p0, e);
      forall q | 0 <= q < |ps|
        ensures p0 <= ps[q] && ps[q] + PGSIZE <= e && (p0 % PGSIZE == 0 ==> ps[q] % PGSIZE == 0)
      {
        if q > 0 { assert ps[q] == Pages(p0 + PGSIZE, e)[q - 1]; }
      }
    }
  }

  /** `s` back to front, as a LIFO list holds what was pushed on it. */
  function Reverse(s: seq<nat>): (r: seq<nat>)
    ensures |r| == |s|
    ensures forall q | 0 <= q < |s| :: r[q] == s[|s| - 1 - q]
  {
    if s == [] then [] else [s[|s| - 1]] + Reverse(s[..|s| - 1])
  }

  /** Freeing the pages `ps` one after another, stopping at the first one
      `kfree` rejects; the flag says whether every page was accepted. */
  function FreeAll(kend: nat, pool: Pool, ps: seq<nat>): (r: (Pool, bool))
    requires PoolOk(kend, pool)
    ensures PoolOk(kend, r.0)
    decreases |ps|
  {
    if ps == [] then (pool, true)
    else
      var (p1, ok) := FreeAll(kend, pool, ps[..|ps| - 1]);
      if !ok then (p1, false)
      else match Freed(kend, p1, ps[|ps| - 1])
        case None => (p1, false)
        case Some(p2) => (p2, true)
  }

  /** Freeing one more page after an accepted run is one `kfree` on the
      pool the run left. */
  lemma FreeAllStep(kend: nat, pool: Pool, a: seq<nat>, x: nat)
    requires PoolOk(kend, pool) && FreeAll(kend, pool, a).1
    ensures var p1 := FreeAll(kend, pool, a).0;
            FreeAll(kend, pool, a + [x])
            == if InRange(kend, x) then (Freed(kend, p1, x).value, true) else (p1, false)
  {
    assert (a + [x])[..|a|] == a;
  }

  /** Once a page has been rejected, later pages are not freed. */
  lemma {:induction false} FreeAllStuck(kend: nat, pool: Pool, a: seq<nat>, b: seq<nat>)
    requires PoolOk(kend, pool) && !FreeAll(kend, pool, a).1
    ensures FreeAll(kend, pool, a + b) == FreeAll(kend, pool, a)
    decreases |b|
  {
    if b != [] {
      var b' := b[..|b| - 1];
      assert (a + b)[..|a + b| - 1] == a + b';
      FreeAllStuck(kend, pool, a, b');
    } else {
      assert a + b == a;
    }
  }

  /** A run of frees goes through exactly when `kfree` accepts every page. */
  lemma {:induction false} FreeAllOk(kend: nat, pool: Pool, ps: seq<nat>)
    requires PoolOk(kend, pool)
    ensures FreeAll(kend, pool, ps).1 <==> AllInRange(kend, ps)
    decreases |ps|
  {
    if ps != [] {
      var ps' := ps[..|ps| - 1];
      FreeAllOk(kend, pool, ps');
      assert AllInRange(kend, ps) <==> AllInRange(kend, ps') && InRange(kend, ps[|ps| - 1]) by {
        if AllInRange(kend, ps') && InRange(kend, ps[|ps| - 1]) {
          forall q | 0 <= q < |ps| ensures InRange(kend, ps[q]) {
            if q < |ps| - 1 { assert ps[q] == ps'[q]; }
          }
        }
      }
    }
  }

  /** Freeing accepted pages none of which is shared pushes them in turn,
      so the list ends up holding them last-freed first; their counts become
      0 and no other count changes. */
  lemma {:induction false} FreeAllUnshared(kend: nat, pool: Pool, ps: seq<nat>)
    requires PoolOk(kend, pool) && AllInRange(kend, ps)
    requires forall q | 0 <= q < |ps| :: pool.refs[Index(ps[q])] <= 1
    ensures FreeAll(kend, pool, ps).1
    ensures FreeAll(kend, pool, ps).0.freelist == Reverse(ps) + pool.freelist
    ensures forall i | 0 <= i < NPAGES :: FreeAll(kend, pool, ps).0.refs[i] <= pool.refs[i]
    ensures forall q | 0 <= q < |ps| :: FreeAll(kend, pool, ps).0.refs[Index(ps[q])] == 0
    ensures forall i | 0 <= i < NPAGES && (forall q | 0 <= q < |ps| :: Index(ps[q]) != i) ::
              FreeAll(kend, pool, ps).0.refs[i] == pool.refs[i]
    decreases |ps|
  {
    if ps != [] {
      var ps', x := ps[..|ps| - 1], ps[|ps| - 1];
      assert AllInRange(kend, ps') by {
        forall q | 0 <= q < |ps'| ensures InRange(kend, ps'[q]) { assert ps'[q] == ps[q]; }
      }
      forall q | 0 <= q < |ps'| ensures pool.refs[Index(ps'[q])] <= 1 { assert ps'[q] == ps[q]; }
      FreeAllUnshared(kend, pool, ps');
      var p1 := FreeAll(kend, pool, ps').0;
      assert p1.refs[Index(x)] <= 1;
      FreeUnshared(kend, p1, x);
      assert Reverse(ps) == [x] + Reverse(ps');
      forall q | 0 <= q < |ps| ensures FreeAll(kend, pool, ps).0.refs[Index(ps[q])] == 0 {
        if q < |ps| - 1 { assert ps[q] == ps'[q]; }
      }
      forall i | 0 <= i < NPAGES && (forall q | 0 <= q < |ps| :: Index(ps[q]) != i)
        ensures FreeAll(kend, pool, ps).0.refs[i] == pool.refs[i]
      {
        assert Index(ps[|ps| - 1]) != i;
        forall q | 0 <= q < |ps'| ensures Index(ps'[q]) != i { assert ps'[q] == ps[q]; }
      }
    }
  }

  /** The pages `freerange(pa_start, pa_end)` frees. */
  function RangePages(start: nat, end: nat): (ps: seq<nat>)
    ensures forall q | 0 <= q < |ps| :: start <= ps[q] && ps[q] + PGSIZE <= end && ps[q] % PGSIZE == 0
  {
    PagesAt(PgRoundUp(start), end);
    Pages(PgRoundUp(start), end)
  }

  /** The pages from `p0` are exactly `p0, p0 + PGSIZE, ...`, as many as fit
      whole below `e`. */
  lemma {:induction false} PagesExact(p0: nat, e: nat)
    ensures |Pages(p0, e)| == if p0 + PGSIZE <= e then (e - p0) / PGSIZE else 0
    ensures forall q | 0 <= q < |Pages(p0, e)| :: Pages(p0, e)[q] == p0 + q * PGSIZE
    decreases e - p0
  {
    if p0 + PGSIZE <= e {
      PagesExact(p0 + PGSIZE, e);
      var ps, rest := Pages(p0, e), Pages(p0 + PGSIZE, e);
      assert |ps| == |rest| + 1;
      assert (e - p0) / PGSIZE == (e - (p0 + PGSIZE)) / PGSIZE + 1;
      forall q | 0 <= q < |ps| ensures ps[q] == p0 + q * PGSIZE {
        if q > 0 {
          assert ps[q] == rest[q - 1] == p0 + PGSIZE + (q - 1) * PGSIZE;
        }
      }
    }
  }

  /** `p` is a whole aligned page of the range `freerange(start, end)`
      walks: at or above `PGROUNDUP(start)`, and ending at or before `end`. */
  predicate WholePage(start: nat, end: nat, p: nat)
  {
    PgRoundUp(start) <= p && p % PGSIZE == 0 && p + PGSIZE <= end
  }

  /** `freerange` visits the whole aligned pages of its range in increasing
      order, `PGSIZE` apart from `PGROUNDUP(start)`, and misses none of
      them. */
  lemma RangePagesExact(start: nat, end: nat)
    ensures var ps := RangePages(start, end);
            (forall q | 0 <= q < |ps| :: ps[q] == PgRoundUp(start) + q * PGSIZE && WholePage(start, end, ps[q]))
            && (forall q | 0 < q < |ps| :: ps[q - 1] < ps[q])
            && (forall p: nat | WholePage(start, end, p) :: exists q :: 0 <= q < |ps| && ps[q] == p)
  {
    var p0, ps := PgRoundUp(start), RangePages(start, end);
    PagesExact(p0, end);
    forall p: nat | WholePage(start, end, p) ensures exists q :: 0 <= q < |ps| && ps[q] == p {
      var q := (p - p0) / PGSIZE;
      assert p == p0 + q * PGSIZE;
      assert q < |ps|;
      assert ps[q] == p;
    }
  }

  /** `kinit` on zeroed counts frees every whole page from the kernel's end
      to `PHYSTOP`, leaving them listed highest address first, all counted
      zero. */
  lemma KinitFreesAll(kend: nat)
    requires KERNBASE <= kend <= PHYSTOP
    ensures var r := FreeAll(kend, Pool([], seq(NPAGES, _ => 0)), RangePages(kend, PHYSTOP));
            r.1 && r.0.freelist == Reverse(RangePages(kend, PHYSTOP))
            && r.0.refs == seq(NPAGES, _ => 0)
    ensures var r := FreeAll(kend, Pool([], seq(NPAGES, _ => 0)), RangePages(kend, PHYSTOP));
            var n := |r.0.freelist|;
            n == (PHYSTOP - PgRoundUp(kend)) / PGSIZE
            && forall q | 0 <= q < n :: r.0.freelist[q] == PgRoundUp(kend) + (n - 1 - q) * PGSIZE
  {
    RangePagesExact(kend, PHYSTOP);
    PagesExact(PgRoundUp(kend), PHYSTOP);
    var pool := Pool([], seq(NPAGES, _ => 0));
    var ps := RangePages(kend, PHYSTOP);
    FreeAllUnshared(kend, pool, ps);
    var refs := FreeAll(kend, pool, ps).0.refs;
    assert refs == pool.refs by {
      forall i | 0 <= i < NPAGES ensures refs[i] == 0 { assert refs[i] <= pool.refs[i]; }
    }
  }

  /** The free list `kinit` builds is well formed: every page on it once,
      all counted zero. */
  lemma KinitListOk(kend: nat)
    requires KERNBASE <= kend <= PHYSTOP
    ensures FreeListOk(kend, FreeAll(kend, Pool([], seq(NPAGES, _ => 0)), RangePages(kend, PHYSTOP)).0)
  {
    KinitFreesAll(kend);
    RangePagesExact(kend, PHYSTOP);
    ReverseDistinct(RangePages(kend, PHYSTOP));
  }

  /** Reversing a strictly ascending sequence lists no element twice. */
  lemma ReverseDistinct(ps: seq<nat>)
    requires forall q | 0 < q < |ps| :: ps[q - 1] < ps[q]
    ensures forall p, q | 0 <= p < q < |Reverse(ps)| :: Reverse(ps)[p] != Reverse(ps)[q]
  {
    var l := Reverse(ps);
    forall p, q | 0 <= p < q < |l| ensures l[p] != l[q] {
      Ascending(ps, |ps| - 1 - q, |ps| - 1 - p);
    }
  }

  /** A strictly ascending sequence is ordered between any two positions. */
  lemma {:induction false} Ascending(ps: seq<nat>, a: nat, b: nat)
    requires forall q | 0 < q < |ps| :: ps[q - 1] < ps[q]
    requires a < b < |ps|
    ensures ps[a] < ps[b]
    decreases b - a
  {
    if a + 1 < b { Ascending(ps, a + 1, b); }
  }

  /** The allocator: the free list, and the reference counts in an array. */
  class Kmem {
    /** `end`: the first address after the kernel image. */
    const kend: nat
    /** `kmem.freelist`, from its head. */
    var freelist: seq<nat>
    /** `page_ref`. */
    const pageRef: array<nat>

    ghost predicate Valid()
      reads this, pageRef
    {
      pageRef.Length == NPAGES && kend <= PHYSTOP && PoolOk(kend, State())
    }

    /** The allocator's state as a value. */
    function State(): (pool: Pool)
      reads this, pageRef
      ensures pool.freelist == freelist && pool.refs == pageRef[..]
    {
      Pool(freelist, pageRef[..])
    }

    /** `kinit`: zeroed counts, then every whole page from the kernel's end to
        `PHYSTOP` freed, highest address ending up at the head. */
    constructor (kernelEnd: nat)
      requires KERNBASE <= kernelEnd <= PHYSTOP
      ensures Valid() && kend == kernelEnd && fresh(pageRef)
      ensures freelist == Reverse(RangePages(kernelEnd, PHYSTOP))
      ensures |freelist| == (PHYSTOP - PgRoundUp(kernelEnd)) / PGSIZE
      ensures forall q | 0 <= q < |freelist| ::
                freelist[q] == PgRoundUp(kernelEnd) + (|freelist| - 1 - q) * PGSIZE
      ensures pageRef[..] == seq(NPAGES, _ => 0)
      ensures FreeListOk(kend, State())
    {
      kend := kernelEnd;
      freelist := [];
      pageRef := new nat[NPAGES](_ => 0);
      new;
      assert pageRef[..] == seq(NPAGES, _ => 0);
      var ok := FreeRange(kernelEnd, PHYSTOP);
      KinitFreesAll(kernelEnd);
      KinitListOk(kernelEnd);
    }

    /** `kfree(pa)`: `false` where the kernel panics, with nothing changed;
        otherwise the state `Freed` describes. */
    method Kfree(pa: nat) returns (ok: bool)
      requires Valid()
      modifies this, pageRef
      ensures Valid()
      ensures Freed(kend, old(State()), pa) == if ok then Some(State()) else None
      ensures !ok ==> State() == old(State())
      ensures old(FreeListOk(kend, State())) && pa !in old(freelist) ==> FreeListOk(kend, State())
    {
      if FreeListOk(kend, State()) && pa !in freelist && InRange(kend, pa) {
        FreeKeepsListOk(kend, State(), pa);
      }
      if pa % PGSIZE != 0 || pa < kend || pa >= PHYSTOP {
        return false;
      }
      var i := Index(pa);
      if pageRef[i] > 1 {
        pageRef[i] := pageRef[i] - 1;
        return true;
      }
      pageRef[i] := 0;
      freelist := [pa] + freelist;
      ok := true;
    }

    /** `kalloc()`: 0 when no page is free, otherwise the head page, popped
        and counted once. */
    method Kalloc() returns (pa: nat)
      requires Valid()
      modifies this, pageRef
      ensures Valid()
      ensures (pa, State()) == Allocated(kend, old(State()))
      ensures old(FreeListOk(kend, State())) ==> FreeListOk(kend, State())
    {
      if FreeListOk(kend, State()) { AllocKeepsListOk(kend, State()); }
      if freelist == [] {
        return 0;
      }
      pa := freelist[0];
      freelist := freelist[1..];
      pageRef[Index(pa)] := 1;
    }

    /** `freerange(start, end)`: `kfree` on each whole page of the range in
        increasing order; `false` at the first page `kfree` rejects, where
        the kernel panics. */
    method FreeRange(start: nat, end: nat) returns (ok: bool)
      requires Valid()
      modifies this, pageRef
      ensures Valid()
      ensures (State(), ok) == FreeAll(kend, old(State()), RangePages(start, end))
    {
      ghost var s0 := State();
      ghost var all := RangePages(start, end);
      ghost var done: seq<nat> := [];
      var p := PgRoundUp(start);
      while p + PGSIZE <= end
        invariant Valid()
        invariant all == done + Pages(p, end)
        invariant FreeAll(kend, s0, done) == (State(), true)
        decreases end - p
      {
        ghost var done' := done + [p];
        assert all == done' + Pages(p + PGSIZE, end) by {
          assert Pages(p, end) == [p] + Pages(p + PGSIZE, end);
        }
        FreeAllStep(kend, s0, done, p);
        ok := Kfree(p);
        if !ok {
          FreeAllStuck(kend, s0, done', Pages(p + PGSIZE, end));
          return;
        }
        done := done';
        p := p + PGSIZE;
      }
      assert all == done;
      ok := true;
    }
  }
}
