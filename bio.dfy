/** The sharded disk-block buffer cache.

    A fixed arena of `NBUF` buffer slots is spread over `NBUCKET` hash
    buckets.  Each bucket is a circular doubly linked ring through the slots'
    `next`/`prev` links, anchored at a sentinel head.  A block `(dev, blockno)`
    lives in bucket `Hash(blockno)`.  Locks are not modelled: every operation
    is one atomic sequential step, and a buffer's sleep lock is the flag
    `held`.  Block contents and the disk driver are abstract; the ghost
    counters `diskReads`/`diskWrites` count the transfers the cache asks for.
 */
module Bio {
  import opened RingArena
  import opened Wrappers

  /** Number of hash buckets. */
  const NBUCKET: nat := 13
  /** Number of buffer slots (xv6 sets `NBUF` to 30). */
  const NBUF: nat := 30
  /** Nodes of the link arena: the slots, then one sentinel head per bucket. */
  const NODES: nat := NBUF + NBUCKET

  /** The metadata of one buffer slot; `held` is its sleep lock. */
  datatype Buf = Buf(dev: nat, blockno: nat, refcnt: nat, valid: bool, lastuse: nat, held: bool)

  /** A slot as the zero-initialised cache array holds it before first use. */
  const ZeroBuf := Buf(0, 0, 0, false, 0, false)

  /** The bucket a block number belongs to, for block numbers taken as
      unsigned values (the corrected form of `hash`). */
  function Hash(blockno: nat): (k: nat)
    ensures k < NBUCKET
  {
    blockno % NBUCKET
  }

  /** `hash` as written: its `int` parameter receives the 32-bit unsigned
      block number reinterpreted as two's complement, and C's `%` truncates
      toward zero, so the result is negative for numbers of 2^31 and above. */
  function HashAsWritten(blockno: nat): (k: int)
    requires blockno < 0x1_0000_0000
    ensures -(NBUCKET as int) < k < NBUCKET
    ensures blockno < 0x8000_0000 ==> k == Hash(blockno)
  {
    var signed: int := if blockno < 0x8000_0000 then blockno else blockno - 0x1_0000_0000;
    if signed >= 0 then signed % NBUCKET else -((-signed) % NBUCKET)
  }

  /** Block 2^31 is sent to bucket -11, outside the bucket table. */
  lemma HashAsWrittenOutOfRange()
    ensures HashAsWritten(0x8000_0000) == -11
  {
  }

  /** Every slot named in `r` is an index of `bufs`. */
  ghost predicate Slots(bufs: seq<Buf>, r: seq<int>)
  {
    forall q | 0 <= q < |r| :: 0 <= r[q] < |bufs|
  }

  /** Every ring's slots are indexes of `bufs`. */
  ghost predicate AllSlots(bufs: seq<Buf>, rings: seq<seq<int>>)
  {
    forall k {:trigger Slots(bufs, rings[k])} | 0 <= k < |rings| :: Slots(bufs, rings[k])
  }

  /** Buffer `b` carries the identity `(dev, blockno)`. */
  predicate Holds(b: Buf, dev: nat, blockno: nat)
  {
    b.dev == dev && b.blockno == blockno
  }

  /** Two buffers carry the same block identity. */
  predicate SameBlock(b: Buf, c: Buf)
  {
    b.dev == c.dev && b.blockno == c.blockno
  }

  /** Position `p` is the first slot of ring `r` that carries `(dev, blockno)`. */
  ghost predicate FirstMatch(bufs: seq<Buf>, r: seq<int>, dev: nat, blockno: nat, p: int)
    requires Slots(bufs, r)
  {
    0 <= p < |r| && Holds(bufs[r[p]], dev, blockno)
    && forall q | 0 <= q < p :: !Holds(bufs[r[q]], dev, blockno)
  }

  /** Some slot of ring `r` carries `(dev, blockno)`. */
  ghost predicate Cached(bufs: seq<Buf>, r: seq<int>, dev: nat, blockno: nat)
    requires Slots(bufs, r)
  {
    exists p | 0 <= p < |r| :: Holds(bufs[r[p]], dev, blockno)
  }

  /** The first slot of ring `r` carrying `(dev, blockno)` has its contents loaded. */
  ghost predicate CachedValid(bufs: seq<Buf>, r: seq<int>, dev: nat, blockno: nat)
    requires Slots(bufs, r)
  {
    exists p | 0 <= p < |r| :: FirstMatch(bufs, r, dev, blockno, p) && bufs[r[p]].valid
  }

  /** The first match decides whether the cached copy is loaded. */
  lemma CachedValidAt(bufs: seq<Buf>, r: seq<int>, dev: nat, blockno: nat, p: int)
    requires Slots(bufs, r) && FirstMatch(bufs, r, dev, blockno, p)
    ensures CachedValid(bufs, r, dev, blockno) <==> bufs[r[p]].valid
  {
    if CachedValid(bufs, r, dev, blockno) {
      var p' :| 0 <= p' < |r| && FirstMatch(bufs, r, dev, blockno, p') && bufs[r[p']].valid;
      assert !(p' < p) && !(p < p');
    }
  }

  /** Some slot of ring `r` is unreferenced, hence may be recycled. */
  ghost predicate HasFree(bufs: seq<Buf>, r: seq<int>)
    requires Slots(bufs, r)
  {
    exists p | 0 <= p < |r| :: bufs[r[p]].refcnt == 0
  }

  /** Position `p` holds the least recently released unreferenced slot of
      ring `r`, the first such in ring order when several tie. */
  ghost predicate IsVictim(bufs: seq<Buf>, r: seq<int>, p: int)
    requires Slots(bufs, r)
  {
    0 <= p < |r| && bufs[r[p]].refcnt == 0
    && (forall q | 0 <= q < |r| && bufs[r[q]].refcnt == 0 :: bufs[r[p]].lastuse <= bufs[r[q]].lastuse)
    && (forall q | 0 <= q < p && bufs[r[q]].refcnt == 0 :: bufs[r[p]].lastuse < bufs[r[q]].lastuse)
  }

  /** The eviction choice within a ring is determined: at most one position
      is the victim. */
  lemma VictimUnique(bufs: seq<Buf>, r: seq<int>, p1: int, p2: int)
    requires Slots(bufs, r) && IsVictim(bufs, r, p1) && IsVictim(bufs, r, p2)
    ensures p1 == p2
  {
  }

  /** A block has at most one first match in a ring, so a hit is determined. */
  lemma FirstMatchUnique(bufs: seq<Buf>, r: seq<int>, dev: nat, blockno: nat, p1: int, p2: int)
    requires Slots(bufs, r) && FirstMatch(bufs, r, dev, blockno, p1) && FirstMatch(bufs, r, dev, blockno, p2)
    ensures p1 == p2
  {
  }

  /** The `d`-th bucket probed after bucket `i`. */
  function Probe(i: nat, d: nat): (k: nat)
    ensures k < NBUCKET
  {
    (i + d) % NBUCKET
  }

  /** The probe after `Probe(i, d)` is the successor bucket, and the probe
      returns to `i` exactly after `NBUCKET` steps. */
  lemma ProbeStep(i: nat, d: nat)
    requires i < NBUCKET && d < NBUCKET
    ensures Hash(Probe(i, d) + 1) == Probe(i, d + 1)
    ensures Probe(i, d + 1) == i <==> d + 1 == NBUCKET
  {
  }

  /** Probing the buckets after `i` in successor order, bucket `Probe(i, d)`
      is the first one holding an unreferenced slot. */
  ghost predicate Donor(bufs: seq<Buf>, rings: seq<seq<int>>, i: nat, d: nat)
    requires |rings| == NBUCKET && AllSlots(bufs, rings)
  {
    1 <= d < NBUCKET && HasFree(bufs, rings[Probe(i, d)])
    && forall e | 1 <= e < d :: !HasFree(bufs, rings[Probe(i, e)])
  }

  /** Once the home bucket and every other bucket have been probed without
      finding an unreferenced slot, every slot of the cache is referenced. */
  lemma Exhausted(bufs: seq<Buf>, rings: seq<seq<int>>, home: seq<int>, i: nat)
    requires |rings| == NBUCKET && Partition(rings, home, |bufs|) && AllSlots(bufs, rings) && i < NBUCKET
    requires !HasFree(bufs, rings[i])
    requires forall e | 1 <= e < NBUCKET :: !HasFree(bufs, rings[Probe(i, e)])
    ensures forall s | 0 <= s < |bufs| :: bufs[s].refcnt > 0
  {
    forall s | 0 <= s < |bufs|
      ensures bufs[s].refcnt > 0
    {
      var k := home[s];
      var q := HomePos(rings, home, |bufs|, s);
      if k != i {
        var e := if k > i then k - i else k + NBUCKET - i;
        assert Probe(i, e) == k;
        assert !HasFree(bufs, rings[Probe(i, e)]);
      }
    }
  }

  /** A referenced slot everywhere means no bucket has an unreferenced slot. */
  lemma NoneFree(bufs: seq<Buf>, rings: seq<seq<int>>, k: nat)
    requires AllSlots(bufs, rings) && k < |rings|
    requires forall s | 0 <= s < |bufs| :: bufs[s].refcnt > 0
    ensures !HasFree(bufs, rings[k])
  {
    assert Slots(bufs, rings[k]);
  }

  /** Duplicates are harmless leftovers: whenever two slots of a ring carry
      the same block, the later one is unreferenced and not valid, so only the
      first one is ever returned, read or written. */
  ghost predicate RingIdle(bufs: seq<Buf>, r: seq<int>)
    requires Slots(bufs, r)
  {
    forall p, q | 0 <= p < q < |r| && SameBlock(bufs[r[p]], bufs[r[q]]) ::
      bufs[r[q]].refcnt == 0 && !bufs[r[q]].valid
  }

  /** Every ring of the cache keeps its duplicates idle. */
  ghost predicate AllIdle(bufs: seq<Buf>, rings: seq<seq<int>>)
    requires AllSlots(bufs, rings)
  {
    forall k {:trigger RingIdle(bufs, rings[k])} | 0 <= k < |rings| :: RingIdle(bufs, rings[k])
  }

  /** A referenced slot comes first among the slots of its ring that carry
      its block. */
  lemma BusyIsFirst(bufs: seq<Buf>, r: seq<int>, q: int)
    requires Slots(bufs, r) && RingIdle(bufs, r) && 0 <= q < |r| && bufs[r[q]].refcnt > 0
    ensures forall p | 0 <= p < q :: !SameBlock(bufs[r[p]], bufs[r[q]])
  {
  }

  /** Changing the metadata of the first slot carrying its block, without
      changing the block, keeps duplicates idle. */
  lemma IdleKeepFirst(bufs: seq<Buf>, r: seq<int>, q: int, nb: Buf)
    requires Slots(bufs, r) && RingIdle(bufs, r) && Distinct(r) && 0 <= q < |r|
    requires SameBlock(nb, bufs[r[q]])
    requires forall p | 0 <= p < q :: !SameBlock(bufs[r[p]], bufs[r[q]])
    ensures RingIdle(bufs[r[q] := nb], r)
  {
    var b := r[q];
    var bufs' := bufs[b := nb];
    forall p1, q1 | 0 <= p1 < q1 < |r| && SameBlock(bufs'[r[p1]], bufs'[r[q1]])
      ensures bufs'[r[q1]].refcnt == 0 && !bufs'[r[q1]].valid
    {
      if r[q1] == b {
        assert q1 == q;
        assert r[p1] != b;
        assert SameBlock(bufs[r[p1]], bufs[b]);
        assert false;
      } else if r[p1] == b {
        assert SameBlock(bufs[r[p1]], bufs[r[q1]]);
      }
    }
  }

  /** Giving slot `b` a block that no other slot of the ring carries keeps
      duplicates idle. */
  lemma IdleRelabel(bufs: seq<Buf>, r: seq<int>, b: int, nb: Buf)
    requires Slots(bufs, r) && RingIdle(bufs, r) && Distinct(r) && 0 <= b < |bufs|
    requires forall q | 0 <= q < |r| && r[q] != b :: !SameBlock(bufs[r[q]], nb)
    ensures RingIdle(bufs[b := nb], r)
  {
    var bufs' := bufs[b := nb];
    forall p1, q1 | 0 <= p1 < q1 < |r| && SameBlock(bufs'[r[p1]], bufs'[r[q1]])
      ensures bufs'[r[q1]].refcnt == 0 && !bufs'[r[q1]].valid
    {
      assert r[p1] != r[q1];
      if r[q1] == b || r[p1] == b {
        assert false;
      }
    }
  }

  /** Taking a slot out of a ring keeps duplicates idle. */
  lemma IdleRemove(bufs: seq<Buf>, r: seq<int>, p: nat)
    requires Slots(bufs, r) && RingIdle(bufs, r) && p < |r|
    ensures Slots(bufs, Without(r, p)) && RingIdle(bufs, Without(r, p))
  {
    var r' := Without(r, p);
    forall p1, q1 | 0 <= p1 < q1 < |r'| && SameBlock(bufs[r'[p1]], bufs[r'[q1]])
      ensures bufs[r'[q1]].refcnt == 0 && !bufs[r'[q1]].valid
    {
      var p0 := if p1 < p then p1 else p1 + 1;
      var q0 := if q1 < p then q1 else q1 + 1;
      assert r'[p1] == r[p0] && r'[q1] == r[q0] && p0 < q0;
    }
  }

  /** Putting in front of a ring a slot whose block no slot of the ring
      carries keeps duplicates idle. */
  lemma IdlePush(bufs: seq<Buf>, r: seq<int>, b: int)
    requires Slots(bufs, r) && RingIdle(bufs, r) && 0 <= b < |bufs|
    requires forall q | 0 <= q < |r| :: !SameBlock(bufs[r[q]], bufs[b])
    ensures Slots(bufs, [b] + r) && RingIdle(bufs, [b] + r)
  {
    var r' := [b] + r;
    forall p1, q1 | 0 <= p1 < q1 < |r'| && SameBlock(bufs[r'[p1]], bufs[r'[q1]])
      ensures bufs[r'[q1]].refcnt == 0 && !bufs[r'[q1]].valid
    {
      assert r'[q1] == r[q1 - 1];
      if p1 == 0 {
        assert false;
      } else {
        assert r'[p1] == r[p1 - 1];
      }
    }
  }

  /** A ring that does not contain `b` is blind to changes of `b`. */
  lemma IdleFrame(bufs: seq<Buf>, r: seq<int>, b: int, nb: Buf)
    requires Slots(bufs, r) && RingIdle(bufs, r) && 0 <= b < |bufs| && b !in r
    ensures Slots(bufs[b := nb], r) && RingIdle(bufs[b := nb], r)
  {
    var bufs' := bufs[b := nb];
    forall q | 0 <= q < |r| ensures bufs'[r[q]] == bufs[r[q]] { }
  }

  /** Changing slot `b` so that its own ring stays idle keeps every ring idle. */
  lemma IdleAll(bufs: seq<Buf>, rings: seq<seq<int>>, home: seq<int>, b: int, nb: Buf)
    requires Partition(rings, home, |bufs|) && AllSlots(bufs, rings)
    requires AllIdle(bufs, rings)
    requires 0 <= b < |bufs| && RingIdle(bufs[b := nb], rings[home[b]])
    ensures AllSlots(bufs[b := nb], rings) && AllIdle(bufs[b := nb], rings)
  {
    forall k | 0 <= k < |rings| && k != home[b]
      ensures RingIdle(bufs[b := nb], rings[k])
    {
      assert b !in rings[k];
      IdleFrame(bufs, rings[k], b, nb);
    }
  }

  /** Changing the metadata of a referenced slot without changing its block
      keeps every ring idle. */
  lemma IdleBusyUpdate(bufs: seq<Buf>, rings: seq<seq<int>>, home: seq<int>, b: int, nb: Buf)
    requires Partition(rings, home, |bufs|) && AllSlots(bufs, rings)
    requires AllIdle(bufs, rings)
    requires 0 <= b < |bufs| && bufs[b].refcnt > 0 && SameBlock(nb, bufs[b])
    ensures AllSlots(bufs[b := nb], rings) && AllIdle(bufs[b := nb], rings)
  {
    var r := rings[home[b]];
    var q := HomePos(rings, home, |bufs|, b);
    BusyIsFirst(bufs, r, q);
    IdleKeepFirst(bufs, r, q, nb);
    IdleAll(bufs, rings, home, b, nb);
  }

  /** A ring of slots that are all unreferenced and not valid is idle,
      whatever blocks they carry. */
  lemma IdleUnused(bufs: seq<Buf>, r: seq<int>)
    requires Slots(bufs, r)
    requires forall s | 0 <= s < |bufs| :: bufs[s].refcnt == 0 && !bufs[s].valid
    ensures RingIdle(bufs, r)
  {
  }

  /** The slots `n-1, n-2, ..., 0`: the order `binit` leaves bucket 0 in,
      since it pushes slots 0, 1, ... each on the front. */
  function Countdown(n: nat): (r: seq<int>)
    ensures |r| == n
    ensures forall q | 0 <= q < n :: r[q] == n - 1 - q
  {
    seq(n, q => n - 1 - q)
  }

  /** The rings `binit` builds: every slot in bucket 0, the others empty. */
  function InitialRings(): (rings: seq<seq<int>>)
    ensures |rings| == NBUCKET && rings[0] == Countdown(NBUF)
    ensures forall k | 1 <= k < NBUCKET :: rings[k] == []
  {
    [Countdown(NBUF)] + seq(NBUCKET - 1, _ => [])
  }

  /** Links that chain all slots behind head 0 and leave the other heads
      self-linked form the initial arena. */
  lemma InitialArena(nx: seq<int>, pv: seq<int>)
    requires |nx| == NODES && |pv| == NODES
    requires Linked(nx, pv, NBUF, Countdown(NBUF))
    requires forall n | NBUF < n < NODES :: nx[n] == n && pv[n] == n
    ensures Arena(nx, pv, InitialRings(), seq(NBUF, _ => 0), NBUF)
  {
    var rings, home := InitialRings(), seq(NBUF, _ => 0);
    forall k | 0 <= k < NBUCKET
      ensures LinkedAt(nx, pv, rings, NBUF, k)
    {
      if k > 0 {
        assert nx[NBUF + k] == NBUF + k;
      }
    }
    forall s | 0 <= s < NBUF
      ensures Member(rings[home[s]], s)
    {
      AtMember(rings[0], NBUF - 1 - s);
    }
  }

  /** The cache invariant on the link tables, slot metadata, rings and
      homes: the rings are well formed and partition the slots, every slot is
      linked into the bucket of its block number, and duplicates are idle. */
  ghost predicate CacheInv(nx: seq<int>, pv: seq<int>, bufs: seq<Buf>, rings: seq<seq<int>>, home: seq<int>)
  {
    |bufs| == NBUF && |nx| == NODES && |rings| == NBUCKET
    && Arena(nx, pv, rings, home, NBUF)
    && (forall s | 0 <= s < NBUF :: home[s] == Hash(bufs[s].blockno))
    && AllSlots(bufs, rings)
    && AllIdle(bufs, rings)
  }

  /** Relabelling slot `b` at position `p` of bucket `j` with a block no
      slot of bucket `i` carries, and moving it to the front of bucket `i`,
      keeps duplicates idle in every ring. */
  lemma StealKeepsIdle(bufs: seq<Buf>, rings: seq<seq<int>>, home: seq<int>, j: nat, p: nat, i: nat, nb: Buf)
    requires Partition(rings, home, |bufs|) && AllSlots(bufs, rings) && AllIdle(bufs, rings)
    requires j < |rings| && i < |rings| && j != i && p < |rings[j]|
    requires forall q | 0 <= q < |rings[i]| :: !SameBlock(bufs[rings[i][q]], nb)
    ensures AllSlots(bufs[rings[j][p] := nb], Moved(rings, j, p, i))
    ensures AllIdle(bufs[rings[j][p] := nb], Moved(rings, j, p, i))
  {
    var b := rings[j][p];
    var bufs', rings' := bufs[b := nb], Moved(rings, j, p, i);
    assert Slots(bufs, rings[j]) && RingIdle(bufs, rings[j]) && Distinct(rings[j]);
    IdleRemove(bufs, rings[j], p);
    assert b !in Without(rings[j], p) by {
      forall q | 0 <= q < |rings[j]| - 1
        ensures Without(rings[j], p)[q] != b
      {
        var q0 := if q < p then q else q + 1;
        assert rings[j][q0] != rings[j][p];
      }
    }
    IdleFrame(bufs, Without(rings[j], p), b, nb);
    assert Slots(bufs, rings[i]) && RingIdle(bufs, rings[i]);
    assert b !in rings[i];
    IdleFrame(bufs, rings[i], b, nb);
    IdlePush(bufs', rings[i], b);
    forall k | 0 <= k < |rings'|
      ensures Slots(bufs', rings'[k]) && RingIdle(bufs', rings'[k])
    {
      if k != i && k != j {
        assert Slots(bufs, rings[k]) && RingIdle(bufs, rings[k]);
        assert b !in rings[k];
        IdleFrame(bufs, rings[k], b, nb);
      }
    }
  }

  /** Relabelling the victim at position `p` of bucket `j` with a block of
      bucket `i` that bucket `i` does not hold yet, and splicing it to the
      front of bucket `i`, keeps the cache invariant. */
  lemma StealKeepsInv(nx: seq<int>, pv: seq<int>, bufs: seq<Buf>, rings: seq<seq<int>>, home: seq<int>,
                      j: nat, p: nat, i: nat, dev: nat, blockno: nat)
    requires CacheInv(nx, pv, bufs, rings, home)
    requires i == Hash(blockno) && j < NBUCKET && j != i && p < |rings[j]|
    requires !Cached(bufs, rings[i], dev, blockno)
    ensures var b, h := rings[j][p], NBUF + i;
            0 <= b < NBUF && 0 <= pv[b] < NODES && 0 <= nx[b] < NODES && 0 <= nx[pv[b] := nx[b]][h] < NODES
            && CacheInv(Spliced(nx, pv, b, h).0, Spliced(nx, pv, b, h).1,
                        bufs[b := Buf(dev, blockno, 1, false, bufs[b].lastuse, true)],
                        Moved(rings, j, p, i), home[b := i])
  {
    var b := rings[j][p];
    var nb := Buf(dev, blockno, 1, false, bufs[b].lastuse, true);
    RingArena.Move(nx, pv, rings, home, NBUF, j, p, i);
    assert Slots(bufs, rings[i]);
    StealKeepsIdle(bufs, rings, home, j, p, i, nb);
  }

  /** The link setup of `binit`: each head is made an empty ring, then
      slots `0, 1, ..., NBUF-1` are pushed in turn right after head 0. */
  method InitLinks() returns (nx: array<int>, pv: array<int>)
    ensures fresh(nx) && fresh(pv) && nx.Length == NODES && pv.Length == NODES
    ensures Linked(nx[..], pv[..], NBUF, Countdown(NBUF))
    ensures forall n | NBUF < n < NODES :: nx[n] == n && pv[n] == n
  {
    nx := new int[NODES];
    pv := new int[NODES];
    for i := 0 to NBUCKET
      invariant forall n | NBUF <= n < NBUF + i :: nx[n] == n && pv[n] == n
    {
      nx[NBUF + i] := NBUF + i;
      pv[NBUF + i] := NBUF + i;
    }
    for b := 0 to NBUF
      invariant Linked(nx[..], pv[..], NBUF, Countdown(b))
      invariant forall n | NBUF < n < NODES :: nx[n] == n && pv[n] == n
    {
      ghost var r, nxs, pvs := Countdown(b), nx[..], pv[..];
      assert Distinct(r) && NBUF !in r && b !in r;
      PushFront(nxs, pvs, NBUF, r, b);
      PushSlot(nx, pv, b);
      assert [b] + r == Countdown(b + 1);
    }
  }

  /** The four writes of one `binit` iteration: slot `b` goes in front of
      head 0's ring. */
  method PushSlot(nx: array<int>, pv: array<int>, b: nat)
    requires nx != pv && nx.Length == NODES && pv.Length == NODES && b < NBUF
    requires 0 <= nx[NBUF] < NODES
    modifies nx, pv
    ensures nx[..] == old(nx[..])[b := old(nx[NBUF])][NBUF := b]
    ensures pv[..] == old(pv[..])[b := NBUF][old(nx[NBUF]) := b]
  {
    nx[b] := nx[NBUF];
    pv[b] := NBUF;
    pv[nx[NBUF]] := b;
    nx[NBUF] := b;
  }

  /** The buffer cache: the slot arena, its rings and its slots' metadata. */
  class BCache {
    /** `next` links of the slots, then of the bucket heads. */
    const next: array<int>
    /** `prev` links, laid out as `next`. */
    const prev: array<int>
    /** Metadata of the `NBUF` slots. */
    const buf: array<Buf>
    /** The slots of each bucket's ring, in `next` order from its head. */
    ghost var rings: seq<seq<int>>
    /** The bucket each slot is linked into. */
    ghost var home: seq<int>
    /** Device reads and writes issued so far. */
    ghost var diskReads: nat
    ghost var diskWrites: nat

    /** Rings well formed and partitioning the slots, every slot in the bucket
        of its block number, and duplicate identities idle. */
    ghost predicate Valid()
      reads this, next, prev, buf
    {
      next != prev && next.Length == NODES && prev.Length == NODES && buf.Length == NBUF
      && CacheInv(next[..], prev[..], buf[..], rings, home)
    }

    /** The part of `Valid` a read-only scan relies on: every ring is well
        linked from its head and names slots of the cache. */
    ghost predicate Scannable()
      reads this, next, prev, buf
    {
      next.Length == NODES && prev.Length == NODES && buf.Length == NBUF && |rings| == NBUCKET
      && AllLinked(next[..], prev[..], rings, NBUF) && AllSlots(buf[..], rings)
    }

    /** `binit`: every bucket ring starts empty, then each slot in turn is
        pushed on the front of bucket 0.  The slots' metadata is the static
        zero initialisation of the cache. */
    constructor ()
      ensures Valid() && fresh(next) && fresh(prev) && fresh(buf)
      ensures rings == InitialRings()
      ensures forall s | 0 <= s < NBUF :: buf[s] == ZeroBuf
      ensures diskReads == 0 && diskWrites == 0
    {
      var nx, pv := InitLinks();
      var bs := new Buf[NBUF](_ => ZeroBuf);
      next, prev, buf := nx, pv, bs;
      rings := InitialRings();
      home := seq(NBUF, _ => 0);
      diskReads, diskWrites := 0, 0;
      new;
      InitialArena(next[..], prev[..]);
      forall k | 0 <= k < NBUCKET
        ensures Slots(buf[..], rings[k]) && RingIdle(buf[..], rings[k])
      {
        IdleUnused(buf[..], rings[k]);
      }
      assert next != prev && next.Length == NODES && prev.Length == NODES && buf.Length == NBUF;
      assert |rings| == NBUCKET;
      assert Arena(next[..], prev[..], rings, home, NBUF);
      assert forall s | 0 <= s < NBUF :: home[s] == Hash(buf[s].blockno);
      assert AllSlots(buf[..], rings);
      assert Valid();
    }

    /** The hit scan of `bget`: walk bucket `i` from its head and stop at the
        first slot carrying `(dev, blockno)`; -1 when there is none. */
    method ScanHit(i: nat, dev: nat, blockno: nat) returns (b: int, ghost p: int)
      requires Scannable() && i < NBUCKET
      ensures b == -1 <==> !Cached(buf[..], rings[i], dev, blockno)
      ensures b != -1 ==> FirstMatch(buf[..], rings[i], dev, blockno, p) && b == rings[i][p]
    {
      var h := NBUF + i;
      ghost var r := rings[i];
      assert LinkedAt(next[..], prev[..], rings, NBUF, i) && Slots(buf[..], r);
      b := next[h];
      p := 0;
      while b != h
        invariant 0 <= p <= |r| && b == (if p < |r| then r[p] else h)
        invariant forall q | 0 <= q < p :: !Holds(buf[r[q]], dev, blockno)
        decreases |r| - p
      {
        if buf[b].dev == dev && buf[b].blockno == blockno {
          return;
        }
        assert next[..][r[p]] == After(r, h, p);
        b := next[b];
        p := p + 1;
      }
      b := -1;
    }

    /** The eviction scan of `bget` over bucket `k`: the unreferenced slot with
        the smallest `lastuse`, keeping the earlier one on a tie since only a
        strictly smaller stamp replaces the candidate; -1 when every slot of
        the bucket is referenced. */
    method ScanLru(k: nat) returns (b: int, ghost p: int)
      requires Scannable() && k < NBUCKET
      ensures b == -1 <==> !HasFree(buf[..], rings[k])
      ensures b != -1 ==> IsVictim(buf[..], rings[k], p) && b == rings[k][p]
    {
      var h := NBUF + k;
      ghost var r, B := rings[k], buf[..];
      assert LinkedAt(next[..], prev[..], rings, NBUF, k) && Slots(B, r);
      b, p := -1, -1;
      var minTicks := 0;
      var n := next[h];
      ghost var m := 0;
      while n != h
        invariant 0 <= m <= |r| && n == (if m < |r| then r[m] else h)
        invariant b == -1 ==> forall q | 0 <= q < m :: B[r[q]].refcnt > 0
        invariant b != -1 ==> 0 <= p < m && b == r[p] && B[b].refcnt == 0 && minTicks == B[b].lastuse
        invariant b != -1 ==> forall q | 0 <= q < m && B[r[q]].refcnt == 0 :: minTicks <= B[r[q]].lastuse
        invariant b != -1 ==> forall q | 0 <= q < p && B[r[q]].refcnt == 0 :: minTicks < B[r[q]].lastuse
        decreases |r| - m
      {
        assert buf[n] == B[r[m]];
        if buf[n].refcnt == 0 && (b == -1 || buf[n].lastuse < minTicks) {
          minTicks := buf[n].lastuse;
          b, p := n, m;
        }
        assert next[..][r[m]] == After(r, h, m);
        n := next[n];
        m := m + 1;
      }
    }

    /** Of two slots carrying the same block, one is an unreferenced leftover
        whose contents were never loaded: no two in-use copies of a block
        exist. */
    lemma OneLiveCopy(s: nat, t: nat)
      requires Valid() && s < NBUF && t < NBUF && s != t && SameBlock(buf[s], buf[t])
      ensures (buf[s].refcnt == 0 && !buf[s].valid) || (buf[t].refcnt == 0 && !buf[t].valid)
    {
      var k := home[s];
      assert home[t] == k;
      var r := rings[k];
      var ps := HomePos(rings, home, NBUF, s);
      var pt := HomePos(rings, home, NBUF, t);
      assert RingIdle(buf[..], r);
      if ps < pt {
        assert SameBlock(buf[..][r[ps]], buf[..][r[pt]]);
      } else {
        assert SameBlock(buf[..][r[pt]], buf[..][r[ps]]);
      }
    }

    /** A block can only be cached in its home bucket, so scanning that one
        bucket decides whether the block is cached at all. */
    lemma CachedOnlyAtHome(s: nat, dev: nat, blockno: nat)
      requires Valid() && s < NBUF && Holds(buf[s], dev, blockno)
      ensures Cached(buf[..], rings[Hash(blockno)], dev, blockno)
    {
      var r := rings[home[s]];
      var q := HomePos(rings, home, NBUF, s);
      assert Holds(buf[..][r[q]], dev, blockno);
    }

    /** Slot `s` sits in the ring of bucket `Hash(blockno)`, the bucket whose
        lock `brelse`, `bpin` and `bunpin` take. */
    lemma InHomeBucket(s: nat) returns (p: nat)
      requires Valid() && s < NBUF
      ensures p < |rings[Hash(buf[s].blockno)]| && rings[Hash(buf[s].blockno)][p] == s
    {
      p := HomePos(rings, home, NBUF, s);
    }

    /** The hit path: take another reference on the first slot of bucket `i`
        carrying the block, and its sleep lock. */
    method Grab(i: nat, b: int, ghost p: int, dev: nat, blockno: nat)
      requires Valid() && i < NBUCKET && 0 <= p < |rings[i]| && b == rings[i][p]
      requires FirstMatch(buf[..], rings[i], dev, blockno, p)
      modifies buf
      ensures Valid()
      ensures buf[..] == old(buf[..])[b := old(buf[b]).(refcnt := old(buf[b]).refcnt + 1, held := true)]
    {
      ghost var B := buf[..];
      var nb := buf[b].(refcnt := buf[b].refcnt + 1, held := true);
      assert home[b] == i;
      IdleKeepFirst(B, rings[i], p, nb);
      IdleAll(B, rings, home, b, nb);
      buf[b] := nb;
      assert buf[..] == B[b := nb];
    }

    /** The local eviction path: relabel the victim `b` of the home bucket `i`
        with the requested block, one reference, contents not valid, and take
        its sleep lock.  No link changes. */
    method Claim(i: nat, b: int, ghost p: int, dev: nat, blockno: nat)
      requires Valid() && i == Hash(blockno) && 0 <= p < |rings[i]| && b == rings[i][p]
      requires IsVictim(buf[..], rings[i], p) && !Cached(buf[..], rings[i], dev, blockno)
      modifies buf
      ensures Valid()
      ensures buf[..] == old(buf[..])[b := Buf(dev, blockno, 1, false, old(buf[b]).lastuse, true)]
    {
      ghost var B := buf[..];
      var nb := Buf(dev, blockno, buf[b].refcnt + 1, false, buf[b].lastuse, true);
      assert home[b] == i;
      IdleRelabel(B, rings[i], b, nb);
      IdleAll(B, rings, home, b, nb);
      buf[b] := nb;
      assert buf[..] == B[b := nb];
    }

    /** The steal path of `bget`: probe buckets `i+1, i+2, ...` (mod
        `NBUCKET`), and from the first with an unreferenced slot take its
        victim, relabel it, unlink it and push it on the front of bucket `i`.
        `None` is the "no buffers" panic. */
    method Steal(i: nat, dev: nat, blockno: nat) returns (r: Option<nat>)
      requires Valid() && i == Hash(blockno)
      requires !Cached(buf[..], rings[i], dev, blockno) && !HasFree(buf[..], rings[i])
      modifies this, next, prev, buf
      ensures Valid() && diskReads == old(diskReads) && diskWrites == old(diskWrites)
      ensures r.None? <==> forall s | 0 <= s < NBUF :: old(buf[s]).refcnt > 0
      ensures r.None? ==> buf[..] == old(buf[..]) && rings == old(rings)
                          && next[..] == old(next[..]) && prev[..] == old(prev[..])
      ensures r.Some? ==>
        exists d, p :: Donor(old(buf[..]), old(rings), i, d)
          && IsVictim(old(buf[..]), old(rings[Probe(i, d)]), p) && r.value == old(rings[Probe(i, d)])[p]
          && rings == Moved(old(rings), Probe(i, d), p, i)
      ensures r.Some? ==>
        r.value < NBUF && buf[..] == old(buf[..])[r.value := Buf(dev, blockno, 1, false, old(buf[r.value]).lastuse, true)]
    {
      var j, b, d, p := FindDonor(i);
      if j == -1 {
        Exhausted(buf[..], rings, home, i);
        return None;
      }
      Move(b, j, p, i, dev, blockno);
      r := Some(b);
    }

    /** The probe loop of the steal path: visit buckets `i+1, i+2, ...`
        (mod `NBUCKET`) until one has an unreferenced slot, and return that
        bucket and its eviction victim; `j == -1` when the probe wraps around
        to `i` empty-handed. */
    method FindDonor(i: nat) returns (j: int, b: int, ghost d: nat, ghost p: int)
      requires Scannable() && i < NBUCKET
      ensures j == -1 <==> forall e | 1 <= e < NBUCKET :: !HasFree(buf[..], rings[Probe(i, e)])
      ensures j != -1 ==> Donor(buf[..], rings, i, d) && j == Probe(i, d)
                          && IsVictim(buf[..], rings[j], p) && b == rings[j][p]
    {
      ProbeStep(i, 0);
      j := Hash(i + 1);
      d := 1;
      while j != i
        invariant 1 <= d <= NBUCKET && j == Probe(i, d)
        invariant forall e | 1 <= e < d :: !HasFree(buf[..], rings[Probe(i, e)])
        decreases NBUCKET - d
      {
        b, p := ScanLru(j);
        if b != -1 {
          return;
        }
        ProbeStep(i, d);
        j, d := Hash(j + 1), d + 1;
      }
      j, b, p := -1, -1, -1;
    }

    /** Relabel victim `b` (position `p` of bucket `j`) with the requested
        block and splice it from bucket `j` to the front of bucket `i`. */
    method Move(b: int, j: nat, ghost p: int, i: nat, dev: nat, blockno: nat)
      requires Valid() && i == Hash(blockno) && j < NBUCKET && j != i
      requires IsVictim(buf[..], rings[j], p) && b == rings[j][p]
      requires !Cached(buf[..], rings[i], dev, blockno)
      modifies this, next, prev, buf
      ensures Valid() && diskReads == old(diskReads) && diskWrites == old(diskWrites)
      ensures 0 <= b < NBUF && rings == Moved(old(rings), j, p, i)
      ensures buf[..] == old(buf[..])[b := Buf(dev, blockno, 1, false, old(buf[b]).lastuse, true)]
    {
      ghost var B, R, H := buf[..], rings, home;
      ghost var nx, pv := next[..], prev[..];
      ghost var nb := Buf(dev, blockno, 1, false, B[b].lastuse, true);
      StealKeepsInv(nx, pv, B, R, H, j, p, i, dev, blockno);
      buf[b] := Buf(dev, blockno, buf[b].refcnt + 1, false, buf[b].lastuse, true);
      assert buf[..] == B[b := nb];
      Splice(b, NBUF + i);
      rings := Moved(R, j, p, i);
      home := H[b := i];
      assert CacheInv(next[..], prev[..], buf[..], rings, home);
    }

    /** The six link writes of the steal path: unlink slot `b` from its
        ring, then link it in right after head `h`. */
    method Splice(b: int, h: int)
      requires next != prev && next.Length == NODES && prev.Length == NODES
      requires 0 <= b < NODES && 0 <= h < NODES
      requires 0 <= prev[b] < NODES && 0 <= next[b] < NODES
      requires 0 <= next[..][prev[b] := next[b]][h] < NODES
      modifies next, prev
      ensures next[..] == Spliced(old(next[..]), old(prev[..]), b, h).0
      ensures prev[..] == Spliced(old(next[..]), old(prev[..]), b, h).1
    {
      ghost var nx, pv := next[..], prev[..];
      prev[next[b]] := prev[b];
      next[prev[b]] := next[b];
      next[b] := next[h];
      prev[b] := h;
      prev[next[h]] := b;
      next[h] := b;
      assert next[..] == Spliced(nx, pv, b, h).0;
      assert prev[..] == Spliced(nx, pv, b, h).1;
    }

    /** `bget`: the first slot of the home bucket carrying the block if there
        is one (hit); otherwise the home bucket's eviction victim; otherwise a
        victim stolen from the first other bucket, in probe order, that has an
        unreferenced slot; otherwise the "no buffers" panic (`None`).  The
        second hit check that `bget` repeats under the eviction lock sees the
        same state in a sequential model and is folded into the first. */
    method Get(dev: nat, blockno: nat) returns (r: Option<nat>)
      requires Valid()
      modifies this, next, prev, buf
      ensures Valid() && diskReads == old(diskReads) && diskWrites == old(diskWrites)
      ensures r.None? <==> !Cached(old(buf[..]), old(rings[Hash(blockno)]), dev, blockno)
                           && forall s | 0 <= s < NBUF :: old(buf[s]).refcnt > 0
      ensures r.None? ==> buf[..] == old(buf[..]) && rings == old(rings)
                          && next[..] == old(next[..]) && prev[..] == old(prev[..])
      ensures r.Some? ==> r.value < NBUF && Holds(buf[r.value], dev, blockno)
                          && buf[r.value].held && buf[r.value].refcnt > 0
                          && forall s | 0 <= s < NBUF && s != r.value :: buf[s] == old(buf[s])
      ensures r.Some? ==> (buf[r.value].valid <==> CachedValid(old(buf[..]), old(rings[Hash(blockno)]), dev, blockno))
      // hit
      ensures var i := Hash(blockno);
              Cached(old(buf[..]), old(rings[i]), dev, blockno) ==>
                r.Some? && (exists p :: FirstMatch(old(buf[..]), old(rings[i]), dev, blockno, p)
                                        && r.value == old(rings[i])[p])
                && buf[r.value] == old(buf[r.value]).(refcnt := old(buf[r.value]).refcnt + 1, held := true)
                && rings == old(rings) && next[..] == old(next[..]) && prev[..] == old(prev[..])
      // local eviction
      ensures var i := Hash(blockno);
              !Cached(old(buf[..]), old(rings[i]), dev, blockno) && HasFree(old(buf[..]), old(rings[i])) ==>
                r.Some? && (exists p :: IsVictim(old(buf[..]), old(rings[i]), p) && r.value == old(rings[i])[p])
                && buf[r.value] == Buf(dev, blockno, 1, false, old(buf[r.value]).lastuse, true)
                && rings == old(rings) && next[..] == old(next[..]) && prev[..] == old(prev[..])
      // steal
      ensures var i := Hash(blockno);
              !Cached(old(buf[..]), old(rings[i]), dev, blockno) && !HasFree(old(buf[..]), old(rings[i]))
              && r.Some? ==>
                (exists d, p :: Donor(old(buf[..]), old(rings), i, d)
                  && IsVictim(old(buf[..]), old(rings[Probe(i, d)]), p) && r.value == old(rings[Probe(i, d)])[p]
                  && rings == Moved(old(rings), Probe(i, d), p, i))
                && buf[r.value] == Buf(dev, blockno, 1, false, old(buf[r.value]).lastuse, true)
    {
      var i := Hash(blockno);
      var b, p := ScanHit(i, dev, blockno);
      if b != -1 {
        CachedValidAt(buf[..], rings[i], dev, blockno, p);
        Grab(i, b, p, dev, blockno);
        return Some(b);
      }
      b, p := ScanLru(i);
      if b != -1 {
        Claim(i, b, p, dev, blockno);
        return Some(b);
      }
      r := Steal(i, dev, blockno);
      if r.None? {
        NoneFree(buf[..], rings, i);
      }
    }

    /** `bread`: `bget`, then load the contents from the disk unless the
        slot already holds them.  `None` is the `bget` panic. */
    method Read(dev: nat, blockno: nat) returns (r: Option<nat>)
      requires Valid()
      modifies this, next, prev, buf
      ensures Valid() && diskWrites == old(diskWrites)
      ensures r.None? <==> !Cached(old(buf[..]), old(rings[Hash(blockno)]), dev, blockno)
                           && forall s | 0 <= s < NBUF :: old(buf[s]).refcnt > 0
      ensures r.None? ==> buf[..] == old(buf[..]) && rings == old(rings) && diskReads == old(diskReads)
      ensures r.Some? ==> r.value < NBUF && Holds(buf[r.value], dev, blockno)
                          && buf[r.value].valid && buf[r.value].held
                          && buf[r.value].lastuse == old(buf[r.value]).lastuse
                          && forall s | 0 <= s < NBUF && s != r.value :: buf[s] == old(buf[s])
      ensures r.Some? ==> buf[r.value].refcnt ==
                            if Cached(old(buf[..]), old(rings[Hash(blockno)]), dev, blockno)
                            then old(buf[r.value]).refcnt + 1 else 1
      ensures r.Some? ==> diskReads ==
                            old(diskReads) + if CachedValid(old(buf[..]), old(rings[Hash(blockno)]), dev, blockno) then 0 else 1
      // hit
      ensures var i := Hash(blockno);
              Cached(old(buf[..]), old(rings[i]), dev, blockno) ==>
                r.Some? && (exists p :: FirstMatch(old(buf[..]), old(rings[i]), dev, blockno, p)
                                        && r.value == old(rings[i])[p])
                && rings == old(rings) && next[..] == old(next[..]) && prev[..] == old(prev[..])
      // local eviction
      ensures var i := Hash(blockno);
              !Cached(old(buf[..]), old(rings[i]), dev, blockno) && HasFree(old(buf[..]), old(rings[i])) ==>
                r.Some? && (exists p :: IsVictim(old(buf[..]), old(rings[i]), p) && r.value == old(rings[i])[p])
                && rings == old(rings) && next[..] == old(next[..]) && prev[..] == old(prev[..])
      // steal
      ensures var i := Hash(blockno);
              !Cached(old(buf[..]), old(rings[i]), dev, blockno) && !HasFree(old(buf[..]), old(rings[i]))
              && r.Some? ==>
                exists d, p :: Donor(old(buf[..]), old(rings), i, d)
                  && IsVictim(old(buf[..]), old(rings[Probe(i, d)]), p) && r.value == old(rings[Probe(i, d)])[p]
                  && rings == Moved(old(rings), Probe(i, d), p, i)
    {
      r := Get(dev, blockno);
      if r.Some? {
        Load(r.value);
      }
    }

    /** The second half of `bread`: a referenced slot whose contents are not
        valid is filled by one disk read. */
    method Load(b: nat)
      requires Valid() && b < NBUF && buf[b].refcnt > 0
      modifies this, buf
      ensures Valid() && rings == old(rings) && diskWrites == old(diskWrites)
      ensures buf[..] == old(buf[..])[b := old(buf[b]).(valid := true)]
      ensures diskReads == old(diskReads) + if old(buf[b]).valid then 0 else 1
    {
      if !buf[b].valid {
        diskReads := diskReads + 1;
        var nb := buf[b].(valid := true);
        IdleBusyUpdate(buf[..], rings, home, b, nb);
        buf[b] := nb;
      }
    }

    /** `bwrite`: write the contents of slot `b` to the disk; the caller must
        hold the slot's sleep lock, otherwise the kernel panics (`ok` false)
        and nothing happens. */
    method Write(b: nat) returns (ok: bool)
      requires Valid() && b < NBUF
      modifies this
      ensures Valid() && ok == buf[b].held && rings == old(rings) && diskReads == old(diskReads)
      ensures diskWrites == old(diskWrites) + if ok then 1 else 0
    {
      if !buf[b].held {
        return false;
      }
      diskWrites := diskWrites + 1;
      ok := true;
    }

    /** `brelse`: give up the sleep lock and one reference of slot `b`; the
        slot records the release time when its last reference goes.  Without
        the sleep lock the kernel panics (`ok` false) and nothing changes. */
    method Release(b: nat, ticks: nat) returns (ok: bool)
      requires Valid() && b < NBUF && (buf[b].held ==> buf[b].refcnt > 0)
      modifies buf
      ensures Valid() && ok == old(buf[b].held)
      ensures !ok ==> buf[..] == old(buf[..])
      ensures ok ==> buf[..] == old(buf[..])[b := old(buf[b]).(
                       refcnt := old(buf[b]).refcnt - 1, held := false,
                       lastuse := if old(buf[b]).refcnt == 1 then ticks else old(buf[b]).lastuse)]
    {
      if !buf[b].held {
        return false;
      }
      var nb := buf[b].(held := false, refcnt := buf[b].refcnt - 1);
      if nb.refcnt == 0 {
        nb := nb.(lastuse := ticks);
      }
      IdleBusyUpdate(buf[..], rings, home, b, nb);
      buf[b] := nb;
      ok := true;
    }

    /** `bpin`: take an extra reference on slot `b`, so that it cannot be
        recycled. */
    method Pin(b: nat)
      requires Valid() && b < NBUF && buf[b].refcnt > 0
      modifies buf
      ensures Valid() && buf[..] == old(buf[..])[b := old(buf[b]).(refcnt := old(buf[b]).refcnt + 1)]
    {
      var nb := buf[b].(refcnt := buf[b].refcnt + 1);
      IdleBusyUpdate(buf[..], rings, home, b, nb);
      buf[b] := nb;
    }

    /** `bunpin`: drop the extra reference `bpin` took. */
    method Unpin(b: nat)
      requires Valid() && b < NBUF && buf[b].refcnt > 0
      modifies buf
      ensures Valid() && buf[..] == old(buf[..])[b := old(buf[b]).(refcnt := old(buf[b]).refcnt - 1)]
    {
      var nb := buf[b].(refcnt := buf[b].refcnt - 1);
      IdleBusyUpdate(buf[..], rings, home, b, nb);
      buf[b] := nb;
    }

    /** A slot with loaded contents is the first copy of its block in its
        bucket, so a later `bget` of that block finds exactly this slot. */
    lemma LoadedIsFirst(s: nat)
      requires Valid() && s < NBUF && buf[s].valid
      ensures var i := Hash(buf[s].blockno);
              exists p :: FirstMatch(buf[..], rings[i], buf[s].dev, buf[s].blockno, p) && rings[i][p] == s
      ensures CachedValid(buf[..], rings[Hash(buf[s].blockno)], buf[s].dev, buf[s].blockno)
    {
      var i := home[s];
      var r := rings[i];
      var q := HomePos(rings, home, NBUF, s);
      assert Slots(buf[..], r) && RingIdle(buf[..], r);
      forall p | 0 <= p < q
        ensures !Holds(buf[..][r[p]], buf[s].dev, buf[s].blockno)
      {
      }
      assert FirstMatch(buf[..], r, buf[s].dev, buf[s].blockno, q);
    }

    /** Reading a block, releasing it and reading it again: the second
        `bread` is a hit on the same slot, so the pair costs one disk read
        exactly when no loaded copy was cached beforehand. */
    method ReadReleaseRead(dev: nat, blockno: nat, ticks: nat) returns (r1: Option<nat>, r2: Option<nat>)
      requires Valid()
      modifies this, next, prev, buf
      ensures Valid()
      ensures r1.Some? ==> r2 == r1
      ensures diskReads == old(diskReads) +
                if r1.None? || CachedValid(old(buf[..]), old(rings[Hash(blockno)]), dev, blockno) then 0 else 1
    {
      r1 := Read(dev, blockno);
      if r1.None? {
        return r1, r1;
      }
      var s := r1.value;
      var ok := Release(s, ticks);
      LoadedIsFirst(s);
      ghost var i := Hash(blockno);
      ghost var B, R := buf[..], rings[i];
      ghost var q :| FirstMatch(B, R, dev, blockno, q) && R[q] == s;
      r2 := Read(dev, blockno);
      ghost var p :| FirstMatch(B, R, dev, blockno, p) && r2.value == R[p];
      FirstMatchUnique(B, R, dev, blockno, p, q);
    }
  }
}
