/** Intrusive circular doubly linked rings over an index arena.

    The buffer cache threads every buffer onto one of several circular lists
    through its `next`/`prev` fields, each list hanging off a sentinel head.
    Here a node is an index into two link tables `nx` (next) and `pv` (prev);
    nodes `0 .. nslots-1` are buffer slots and node `nslots + k` is the
    sentinel of ring `k`.  A ring's abstract contents is the sequence of slots
    met when following `nx` from its sentinel.
 */
module RingArena {

  /** No slot occurs twice in `r`. */
  ghost predicate Distinct(r: seq<int>)
  {
    forall p, q | 0 <= p < q < |r| :: r[p] != r[q]
  }

  /** The node after position `p` of ring `r` whose sentinel is `h`. */
  function After(r: seq<int>, h: int, p: int): int
    requires 0 <= p < |r|
  {
    if p + 1 < |r| then r[p + 1] else h
  }

  /** The node before position `p` of ring `r` whose sentinel is `h`. */
  function Before(r: seq<int>, h: int, p: int): int
    requires 0 <= p < |r|
  {
    if p == 0 then h else r[p - 1]
  }

  /** Following `nx` from sentinel `h` visits exactly `r` and returns to `h`;
      `pv` walks the same ring backwards. */
  ghost predicate Linked(nx: seq<int>, pv: seq<int>, h: int, r: seq<int>)
  {
    |pv| == |nx| && 0 <= h < |nx|
    && (forall p | 0 <= p < |r| :: 0 <= r[p] < |nx|)
    && nx[h] == (if r == [] then h else r[0])
    && pv[h] == (if r == [] then h else r[|r| - 1])
    && (forall p {:trigger nx[r[p]]} | 0 <= p < |r| :: nx[r[p]] == After(r, h, p))
    && (forall p {:trigger pv[r[p]]} | 0 <= p < |r| :: pv[r[p]] == Before(r, h, p))
  }

  /** `r` with its element at position `p` taken out. */
  function Without(r: seq<int>, p: nat): (r': seq<int>)
    requires p < |r|
    ensures |r'| == |r| - 1
    ensures forall q | 0 <= q < |r'| :: r'[q] == if q < p then r[q] else r[q + 1]
  {
    r[..p] + r[p + 1..]
  }

  /** After unlinking position `p`, the successor link of the slot now at
      position `q` is right. */
  lemma UnlinkNext(nx: seq<int>, pv: seq<int>, h: int, r: seq<int>, p: nat, q: nat)
    requires Linked(nx, pv, h, r) && Distinct(r) && h !in r && p < |r| && q + 1 < |r|
    ensures 0 <= pv[r[p]] < |nx|
    ensures nx[pv[r[p]] := nx[r[p]]][Without(r, p)[q]] == After(Without(r, p), h, q)
  {
    var x, r' := r[p], Without(r, p);
    assert pv[x] == Before(r, h, p) && nx[x] == After(r, h, p);
    var q0 := if q < p then q else q + 1;
    assert r'[q] == r[q0];
    if q0 + 1 == p {
      assert pv[x] == r[q0];
    } else {
      assert pv[x] != r[q0] by { if p > 0 { assert r[p - 1] != r[q0]; } }
      assert nx[r[q0]] == After(r, h, q0);
      if q + 1 < |r'| { assert r'[q + 1] == r[q0 + 1]; }
    }
  }

  /** After unlinking position `p`, the predecessor link of the slot now at
      position `q` is right. */
  lemma UnlinkPrev(nx: seq<int>, pv: seq<int>, h: int, r: seq<int>, p: nat, q: nat)
    requires Linked(nx, pv, h, r) && Distinct(r) && h !in r && p < |r| && q + 1 < |r|
    ensures 0 <= nx[r[p]] < |nx|
    ensures pv[nx[r[p]] := pv[r[p]]][Without(r, p)[q]] == Before(Without(r, p), h, q)
  {
    var x, r' := r[p], Without(r, p);
    assert pv[x] == Before(r, h, p) && nx[x] == After(r, h, p);
    var q0 := if q < p then q else q + 1;
    assert r'[q] == r[q0];
    if q0 == p + 1 {
      assert nx[x] == r[q0];
      if q > 0 { assert r'[q - 1] == r[p - 1]; }
    } else {
      assert nx[x] != r[q0] by { if p + 1 < |r| { assert r[p + 1] != r[q0]; } }
      assert pv[r[q0]] == Before(r, h, q0);
      if q > 0 { assert r'[q - 1] == r[q0 - 1]; }
    }
  }

  /** Unlinking the node at position `p` (`x->next->prev = x->prev;
      x->prev->next = x->next`) leaves a well-formed ring holding the other
      nodes in their old order. */
  lemma Unlink(nx: seq<int>, pv: seq<int>, h: int, r: seq<int>, p: nat)
    requires Linked(nx, pv, h, r) && Distinct(r) && h !in r && p < |r|
    ensures var x := r[p];
            0 <= pv[x] < |nx| && 0 <= nx[x] < |nx|
            && Linked(nx[pv[x] := nx[x]], pv[nx[x] := pv[x]], h, Without(r, p))
  {
    var x := r[p];
    assert pv[x] == Before(r, h, p) && nx[x] == After(r, h, p);
    var a, c := pv[x], nx[x];
    var nx', pv' := nx[a := c], pv[c := a];
    var r' := Without(r, p);
    forall q {:trigger nx'[r'[q]]} | 0 <= q < |r'|
      ensures nx'[r'[q]] == After(r', h, q)
    {
      UnlinkNext(nx, pv, h, r, p, q);
    }
    forall q {:trigger pv'[r'[q]]} | 0 <= q < |r'|
      ensures pv'[r'[q]] == Before(r', h, q)
    {
      UnlinkPrev(nx, pv, h, r, p, q);
    }
    if p == 0 {
      if r' != [] { assert r'[0] == r[1]; }
    } else {
      assert a != h && r'[0] == r[0];
    }
    if p + 1 == |r| {
      if r' != [] { assert r'[|r'| - 1] == r[p - 1]; }
    } else {
      assert c != h && r'[|r'| - 1] == r[|r| - 1];
    }
  }

  /** `Linked` from its parts, where the first node is known to be present. */
  lemma LinkedIntro(nx: seq<int>, pv: seq<int>, h: int, r: seq<int>)
    requires |pv| == |nx| && 0 <= h < |nx| && r != []
    requires nx[h] == r[0] && pv[h] == r[|r| - 1]
    requires forall p | 0 <= p < |r| :: 0 <= r[p] < |nx| && nx[r[p]] == After(r, h, p)
    requires forall p | 0 <= p < |r| :: pv[r[p]] == Before(r, h, p)
    ensures Linked(nx, pv, h, r)
  {
  }

  /** After pushing `x` in front of ring `r`, the successor link of the node
      at position `q` of the new ring is right. */
  lemma PushNext(nx: seq<int>, pv: seq<int>, h: int, r: seq<int>, x: int, q: nat)
    requires Linked(nx, pv, h, r) && h !in r && 0 <= x < |nx| && x != h && x !in r && q <= |r|
    ensures 0 <= ([x] + r)[q] < |nx|
    ensures nx[x := nx[h]][h := x][([x] + r)[q]] == After([x] + r, h, q)
  {
    var r' := [x] + r;
    if q == 0 {
      if r != [] { assert r'[1] == r[0]; }
    } else {
      assert r'[q] == r[q - 1] && r[q - 1] != x;
      assert nx[r[q - 1]] == After(r, h, q - 1);
      if q < |r| { assert r'[q + 1] == r[q]; }
    }
  }

  /** After pushing `x` in front of ring `r`, the predecessor link of the node
      at position `q` of the new ring is right. */
  lemma PushPrev(nx: seq<int>, pv: seq<int>, h: int, r: seq<int>, x: int, q: nat)
    requires Linked(nx, pv, h, r) && Distinct(r) && h !in r && 0 <= x < |nx| && x != h && x !in r
    requires q <= |r|
    ensures 0 <= nx[h] < |nx|
    ensures pv[x := h][nx[h] := x][([x] + r)[q]] == Before([x] + r, h, q)
  {
    var r' := [x] + r;
    if q > 0 {
      var y := r[q - 1];
      assert r'[q] == y && y != x;
      if q == 1 {
        assert y == nx[h];
      } else {
        assert y != nx[h] by { assert r[0] != r[q - 1]; }
        assert r'[q - 1] == r[q - 2];
        assert pv[y] == Before(r, h, q - 1);
      }
    }
  }

  /** Inserting a detached node `x` right after the sentinel (`x->next =
      h->next; x->prev = h; h->next->prev = x; h->next = x`) makes `x` the
      first element of the ring. */
  lemma PushFront(nx: seq<int>, pv: seq<int>, h: int, r: seq<int>, x: int)
    requires Linked(nx, pv, h, r) && Distinct(r) && h !in r && 0 <= x < |nx| && x != h && x !in r
    ensures var nx1 := nx[x := nx[h]];
            0 <= nx1[h] < |nx|
            && Linked(nx1[h := x], pv[x := h][nx1[h] := x], h, [x] + r)
  {
    var nx1 := nx[x := nx[h]];
    var pv1 := pv[x := h][nx1[h] := x];
    var nx2 := nx1[h := x];
    var r' := [x] + r;
    assert nx1[h] == nx[h];
    forall q | 0 <= q < |r'|
      ensures 0 <= r'[q] < |nx| && nx2[r'[q]] == After(r', h, q)
    {
      PushNext(nx, pv, h, r, x, q);
    }
    forall q | 0 <= q < |r'|
      ensures pv1[r'[q]] == Before(r', h, q)
    {
      PushPrev(nx, pv, h, r, x, q);
    }
    if r != [] { assert r'[|r'| - 1] == r[|r| - 1]; }
    LinkedIntro(nx2, pv1, h, r');
  }

  /** A ring is unaffected by writes to nodes that are neither its sentinel
      nor one of its elements. */
  lemma Frame(nx: seq<int>, pv: seq<int>, nx': seq<int>, pv': seq<int>, h: int, r: seq<int>)
    requires Linked(nx, pv, h, r) && |nx'| == |nx| && |pv'| == |pv|
    requires nx'[h] == nx[h] && pv'[h] == pv[h]
    requires forall p | 0 <= p < |r| :: nx'[r[p]] == nx[r[p]] && pv'[r[p]] == pv[r[p]]
    ensures Linked(nx', pv', h, r)
  {
  }

  /** Every ring `k` hangs off sentinel `nslots + k` in the link tables. */
  ghost predicate AllLinked(nx: seq<int>, pv: seq<int>, rings: seq<seq<int>>, nslots: nat)
  {
    forall k {:trigger LinkedAt(nx, pv, rings, nslots, k)} | 0 <= k < |rings| ::
      LinkedAt(nx, pv, rings, nslots, k)
  }

  /** Ring `k` hangs off sentinel `nslots + k`.  Named so that the arena's
      quantifier over rings is instantiated only where a proof asks for it. */
  ghost predicate LinkedAt(nx: seq<int>, pv: seq<int>, rings: seq<seq<int>>, nslots: nat, k: int)
  {
    0 <= k < |rings| && Linked(nx, pv, nslots + k, rings[k])
  }

  /** `s` occurs in `r`.  Defined by recursion, so that the verifier unfolds
      a membership fact one step at a time instead of as an existential. */
  predicate Member(r: seq<int>, s: int)
    decreases |r|
  {
    |r| > 0 && (r[0] == s || Member(r[1..], s))
  }

  /** A member of `r` occurs at the position returned. */
  lemma {:induction false} MemberAt(r: seq<int>, s: int) returns (p: nat)
    requires Member(r, s)
    ensures p < |r| && r[p] == s
    decreases |r|
  {
    if r[0] == s {
      p := 0;
    } else {
      var p' := MemberAt(r[1..], s);
      p := p' + 1;
    }
  }

  /** Every element of `r` is a member of `r`. */
  lemma {:induction false} AtMember(r: seq<int>, p: nat)
    requires p < |r|
    ensures Member(r, r[p])
    decreases p
  {
    if p > 0 {
      AtMember(r[1..], p - 1);
      assert r[1..][p - 1] == r[p];
    }
  }

  /** The rings partition the slots `0 .. nslots-1`: each ring holds distinct
      slots, `home[s]` is the ring slot `s` is on, and every slot is on its
      home ring. */
  ghost predicate Partition(rings: seq<seq<int>>, home: seq<int>, nslots: nat)
  {
    |home| == nslots
    && (forall k {:trigger Distinct(rings[k])} | 0 <= k < |rings| :: Distinct(rings[k]))
    && (forall k, p | 0 <= k < |rings| && 0 <= p < |rings[k]| ::
          0 <= rings[k][p] < nslots && home[rings[k][p]] == k)
    && (forall s | 0 <= s < nslots :: 0 <= home[s] < |rings| && Member(rings[home[s]], s))
  }

  /** Slot `s` is on its home ring, at the position returned. */
  lemma HomePos(rings: seq<seq<int>>, home: seq<int>, nslots: nat, s: int) returns (p: nat)
    requires Partition(rings, home, nslots) && 0 <= s < nslots
    ensures 0 <= home[s] < |rings| && p < |rings[home[s]]| && rings[home[s]][p] == s
  {
    p := MemberAt(rings[home[s]], s);
  }

  /** The whole arena: link tables of `nslots` slots plus one sentinel per
      ring, with every ring well linked and the rings partitioning the slots. */
  ghost predicate Arena(nx: seq<int>, pv: seq<int>, rings: seq<seq<int>>, home: seq<int>, nslots: nat)
  {
    |nx| == nslots + |rings| && |pv| == |nx|
    && AllLinked(nx, pv, rings, nslots) && Partition(rings, home, nslots)
  }

  /** Link tables after moving slot `x` off its ring and onto the front of the
      ring of sentinel `h`, in the order the cache performs the six writes. */
  function Spliced(nx: seq<int>, pv: seq<int>, x: int, h: int): (l: (seq<int>, seq<int>))
    requires |pv| == |nx| && 0 <= x < |nx| && 0 <= h < |nx|
    requires 0 <= pv[x] < |nx| && 0 <= nx[x] < |nx|
    requires 0 <= nx[pv[x] := nx[x]][h] < |nx|
    ensures |l.0| == |nx| && |l.1| == |nx|
  {
    var nx1 := nx[pv[x] := nx[x]];
    var pv1 := pv[nx[x] := pv[x]];
    var nx2 := nx1[x := nx1[h]];
    var pv2 := pv1[x := h];
    var pv3 := pv2[nx2[h] := x];
    (nx2[h := x], pv3)
  }

  /** The rings after the move of the slot at position `p` of ring `j` to the
      front of ring `i`. */
  function Moved(rings: seq<seq<int>>, j: nat, p: nat, i: nat): (rings': seq<seq<int>>)
    requires j < |rings| && i < |rings| && p < |rings[j]|
    ensures |rings'| == |rings|
  {
    rings[j := Without(rings[j], p)][i := [rings[j][p]] + rings[i]]
  }

  /** Moving a slot between two different rings keeps the rings a partition
      of the slots, with the moved slot's home now the destination. */
  lemma MovePartition(rings: seq<seq<int>>, home: seq<int>, nslots: nat, j: nat, p: nat, i: nat)
    requires Partition(rings, home, nslots)
    requires j < |rings| && i < |rings| && i != j && p < |rings[j]|
    ensures Partition(Moved(rings, j, p, i), home[rings[j][p] := i], nslots)
  {
    var x := rings[j][p];
    var ri, rj := rings[i], rings[j];
    var rings', home' := Moved(rings, j, p, i), home[x := i];
    assert rings'[i] == [x] + ri && rings'[j] == Without(rj, p);
    assert home[x] == j;
    forall k | 0 <= k < |rings'|
      ensures Distinct(rings'[k])
    {
      assert Distinct(rings[k]);
      if k == i {
        forall q | 0 <= q < |ri| ensures ri[q] != x { assert home[ri[q]] == i; }
      } else if k != j {
        assert rings'[k] == rings[k];
      }
    }
    forall k, q | 0 <= k < |rings'| && 0 <= q < |rings'[k]|
      ensures 0 <= rings'[k][q] < nslots && home'[rings'[k][q]] == k
    {
      if k == i {
        if q > 0 { assert rings'[k][q] == ri[q - 1]; assert home[ri[q - 1]] == i; }
      } else if k == j {
        var q0 := if q < p then q else q + 1;
        assert Distinct(rj);
        assert rings'[k][q] == rj[q0] && rj[q0] != x;
      } else {
        assert rings'[k] == rings[k];
      }
    }
    forall s | 0 <= s < nslots
      ensures 0 <= home'[s] < |rings'| && Member(rings'[home'[s]], s)
    {
      if s == x {
        AtMember(rings'[i], 0);
      } else {
        var k := home[s];
        var q := HomePos(rings, home, nslots, s);
        if k == j {
          assert q != p;
          var q' := if q < p then q else q - 1;
          assert rings'[j][q'] == s;
          AtMember(rings'[j], q');
        } else if k == i {
          assert rings'[i][q + 1] == s;
          AtMember(rings'[i], q + 1);
        } else {
          assert rings'[k] == rings[k];
        }
      }
    }
  }

  /** Slots of `r` are below `nslots` and all have home `k`. */
  ghost predicate Colored(r: seq<int>, home: seq<int>, nslots: nat, k: int)
  {
    forall q | 0 <= q < |r| :: 0 <= r[q] < nslots && r[q] < |home| && home[r[q]] == k
  }

  /** The first step of a move, unlinking `x` from ring `j`, leaves any other
      ring `k` alone. */
  lemma UnlinkKeepsOther(nx: seq<int>, pv: seq<int>, home: seq<int>, nslots: nat,
                         rj: seq<int>, j: nat, p: nat, rk: seq<int>, k: nat)
    requires Linked(nx, pv, nslots + j, rj) && Linked(nx, pv, nslots + k, rk)
    requires Colored(rj, home, nslots, j) && Colored(rk, home, nslots, k) && j != k
    requires p < |rj|
    ensures var x := rj[p];
            0 <= pv[x] < |nx| && 0 <= nx[x] < |nx|
            && Linked(nx[pv[x] := nx[x]], pv[nx[x] := pv[x]], nslots + k, rk)
  {
    var x := rj[p];
    assert pv[x] == Before(rj, nslots + j, p) && nx[x] == After(rj, nslots + j, p);
    var a, c := pv[x], nx[x];
    assert a == nslots + j || home[a] == j;
    assert c == nslots + j || home[c] == j;
    Frame(nx, pv, nx[a := c], pv[c := a], nslots + k, rk);
  }

  /** The second step of a move, pushing the detached slot `x` on the front
      of ring `i`, leaves any other ring `k` alone. */
  lemma PushKeepsOther(nx: seq<int>, pv: seq<int>, home: seq<int>, nslots: nat,
                       ri: seq<int>, i: nat, x: int, rk: seq<int>, k: nat)
    requires Linked(nx, pv, nslots + i, ri) && Linked(nx, pv, nslots + k, rk)
    requires Colored(ri, home, nslots, i) && Colored(rk, home, nslots, k) && i != k
    requires 0 <= x < nslots && x !in rk
    ensures var h := nslots + i;
            var nx1 := nx[x := nx[h]];
            0 <= nx1[h] < |nx|
            && Linked(nx1[h := x], pv[x := h][nx1[h] := x], nslots + k, rk)
  {
    var h := nslots + i;
    var first := nx[h];
    assert first == h || home[first] == i;
    var nx1 := nx[x := first];
    assert nx1[h] == first;
    Frame(nx, pv, nx1[h := x], pv[x := h][first := x], nslots + k, rk);
  }

  /** The common part of the three ways a move changes a ring's links. */
  ghost predicate MoveArgs(nx: seq<int>, pv: seq<int>, home: seq<int>, nslots: nat,
                           rj: seq<int>, j: nat, p: nat, ri: seq<int>, i: nat)
  {
    Linked(nx, pv, nslots + j, rj) && Linked(nx, pv, nslots + i, ri)
    && Colored(rj, home, nslots, j) && Colored(ri, home, nslots, i)
    && Distinct(rj) && Distinct(ri) && i != j && p < |rj|
  }

  /** After the move, source ring `j` is well linked without the slot. */
  lemma MoveLinksSource(nx: seq<int>, pv: seq<int>, home: seq<int>, nslots: nat,
                        rj: seq<int>, j: nat, p: nat, ri: seq<int>, i: nat)
    requires MoveArgs(nx, pv, home, nslots, rj, j, p, ri, i)
    ensures var x := rj[p];
            0 <= x < nslots && 0 <= pv[x] < |nx| && 0 <= nx[x] < |nx|
            && 0 <= nx[pv[x] := nx[x]][nslots + i] < |nx|
            && Linked(Spliced(nx, pv, x, nslots + i).0, Spliced(nx, pv, x, nslots + i).1, nslots + j, Without(rj, p))
  {
    var x := rj[p];
    UnlinkStep(nx, pv, home, nslots, rj, j, p, ri, i);
    var nx1, pv1 := nx[pv[x] := nx[x]], pv[nx[x] := pv[x]];
    var rj' := Without(rj, p);
    assert Colored(rj', home, nslots, j);
    assert x !in rj' by {
      forall q | 0 <= q < |rj'| ensures rj'[q] != x {
        var q0 := if q < p then q else q + 1;
        assert rj'[q] == rj[q0];
      }
    }
    PushKeepsOther(nx1, pv1, home, nslots, ri, i, x, rj', j);
  }

  /** After the move, destination ring `i` is well linked with the slot in
      front. */
  lemma MoveLinksDest(nx: seq<int>, pv: seq<int>, home: seq<int>, nslots: nat,
                      rj: seq<int>, j: nat, p: nat, ri: seq<int>, i: nat)
    requires MoveArgs(nx, pv, home, nslots, rj, j, p, ri, i)
    ensures var x := rj[p];
            0 <= x < nslots && 0 <= pv[x] < |nx| && 0 <= nx[x] < |nx|
            && 0 <= nx[pv[x] := nx[x]][nslots + i] < |nx|
            && Linked(Spliced(nx, pv, x, nslots + i).0, Spliced(nx, pv, x, nslots + i).1, nslots + i, [x] + ri)
  {
    var x := rj[p];
    UnlinkStep(nx, pv, home, nslots, rj, j, p, ri, i);
    var nx1, pv1 := nx[pv[x] := nx[x]], pv[nx[x] := pv[x]];
    PushFront(nx1, pv1, nslots + i, ri, x);
  }

  /** After the move, every third ring `k` is still well linked. */
  lemma MoveLinksOther(nx: seq<int>, pv: seq<int>, home: seq<int>, nslots: nat,
                       rj: seq<int>, j: nat, p: nat, ri: seq<int>, i: nat, rk: seq<int>, k: nat)
    requires MoveArgs(nx, pv, home, nslots, rj, j, p, ri, i)
    requires Linked(nx, pv, nslots + k, rk) && Colored(rk, home, nslots, k) && k != i && k != j
    ensures var x := rj[p];
            0 <= x < nslots && 0 <= pv[x] < |nx| && 0 <= nx[x] < |nx|
            && 0 <= nx[pv[x] := nx[x]][nslots + i] < |nx|
            && Linked(Spliced(nx, pv, x, nslots + i).0, Spliced(nx, pv, x, nslots + i).1, nslots + k, rk)
  {
    var x := rj[p];
    UnlinkStep(nx, pv, home, nslots, rj, j, p, ri, i);
    var nx1, pv1 := nx[pv[x] := nx[x]], pv[nx[x] := pv[x]];
    UnlinkKeepsOther(nx, pv, home, nslots, rj, j, p, rk, k);
    assert x !in rk by {
      forall q | 0 <= q < |rk| ensures rk[q] != x { assert home[rk[q]] == k && home[x] == j; }
    }
    PushKeepsOther(nx1, pv1, home, nslots, ri, i, x, rk, k);
  }

  /** The unlinking half of a move: ring `j` loses the slot at position `p`,
      ring `i` is untouched, and the whole move is the front push of that slot
      onto ring `i` in the unlinked tables. */
  lemma UnlinkStep(nx: seq<int>, pv: seq<int>, home: seq<int>, nslots: nat,
                   rj: seq<int>, j: nat, p: nat, ri: seq<int>, i: nat)
    requires MoveArgs(nx, pv, home, nslots, rj, j, p, ri, i)
    ensures var x, hi := rj[p], nslots + i;
            0 <= x < nslots && 0 <= pv[x] < |nx| && 0 <= nx[x] < |nx| && x !in ri
            && var nx1, pv1 := nx[pv[x] := nx[x]], pv[nx[x] := pv[x]];
            0 <= nx1[hi] < |nx|
            && Linked(nx1, pv1, nslots + j, Without(rj, p)) && Linked(nx1, pv1, hi, ri)
            && Spliced(nx, pv, x, hi) == (nx1[x := nx1[hi]][hi := x], pv1[x := hi][nx1[hi] := x])
  {
    var x := rj[p];
    var hj := nslots + j;
    assert hj !in rj;
    assert x !in ri by {
      forall q | 0 <= q < |ri| ensures ri[q] != x { assert home[ri[q]] == i && home[x] == j; }
    }
    Unlink(nx, pv, hj, rj, p);
    UnlinkKeepsOther(nx, pv, home, nslots, rj, j, p, ri, i);
  }

  /** After the move, ring `k` (whichever of source, destination or a third
      ring it is) is well linked to its sentinel. */
  lemma MoveLinksAny(nx: seq<int>, pv: seq<int>, rings: seq<seq<int>>, home: seq<int>, nslots: nat,
                     j: nat, p: nat, i: nat, k: nat)
    requires j < |rings| && i < |rings| && k < |rings|
    requires MoveArgs(nx, pv, home, nslots, rings[j], j, p, rings[i], i)
    requires LinkedAt(nx, pv, rings, nslots, k) && Colored(rings[k], home, nslots, k)
    ensures var x := rings[j][p];
            0 <= x < nslots && 0 <= pv[x] < |nx| && 0 <= nx[x] < |nx|
            && 0 <= nx[pv[x] := nx[x]][nslots + i] < |nx|
            && LinkedAt(Spliced(nx, pv, x, nslots + i).0, Spliced(nx, pv, x, nslots + i).1,
                        Moved(rings, j, p, i), nslots, k)
  {
    var rings' := Moved(rings, j, p, i);
    if k == j {
      MoveLinksSource(nx, pv, home, nslots, rings[j], j, p, rings[i], i);
      assert rings'[j] == Without(rings[j], p);
    } else if k == i {
      MoveLinksDest(nx, pv, home, nslots, rings[j], j, p, rings[i], i);
      assert rings'[i] == [rings[j][p]] + rings[i];
    } else {
      MoveLinksOther(nx, pv, home, nslots, rings[j], j, p, rings[i], i, rings[k], k);
      assert rings'[k] == rings[k];
    }
  }

  /** Moving a slot between two rings keeps every ring well linked. */
  lemma MoveAllLinked(nx: seq<int>, pv: seq<int>, rings: seq<seq<int>>, home: seq<int>, nslots: nat,
                      j: nat, p: nat, i: nat)
    requires |nx| == nslots + |rings| && |pv| == |nx|
    requires AllLinked(nx, pv, rings, nslots)
    requires forall k | 0 <= k < |rings| :: Colored(rings[k], home, nslots, k)
    requires j < |rings| && i < |rings| && i != j && p < |rings[j]|
    requires Distinct(rings[i]) && Distinct(rings[j])
    ensures var x := rings[j][p];
            0 <= x < nslots && 0 <= pv[x] < |nx| && 0 <= nx[x] < |nx|
            && 0 <= nx[pv[x] := nx[x]][nslots + i] < |nx|
            && AllLinked(Spliced(nx, pv, x, nslots + i).0, Spliced(nx, pv, x, nslots + i).1,
                         Moved(rings, j, p, i), nslots)
  {
    var x := rings[j][p];
    assert LinkedAt(nx, pv, rings, nslots, j) && LinkedAt(nx, pv, rings, nslots, i);
    assert MoveArgs(nx, pv, home, nslots, rings[j], j, p, rings[i], i);
    MoveLinksAny(nx, pv, rings, home, nslots, j, p, i, i);
    var l := Spliced(nx, pv, x, nslots + i);
    var rings' := Moved(rings, j, p, i);
    forall k | 0 <= k < |rings|
      ensures LinkedAt(l.0, l.1, rings', nslots, k)
    {
      assert LinkedAt(nx, pv, rings, nslots, k);
      MoveLinksAny(nx, pv, rings, home, nslots, j, p, i, k);
    }
  }

  /** Moving the slot at position `p` of ring `j` to the front of ring `i`
      keeps the arena well formed: ring `j` loses exactly that slot, ring `i`
      gains it at its head, every other ring is untouched. */
  lemma Move(nx: seq<int>, pv: seq<int>, rings: seq<seq<int>>, home: seq<int>, nslots: nat,
             j: nat, p: nat, i: nat)
    requires Arena(nx, pv, rings, home, nslots)
    requires j < |rings| && i < |rings| && i != j && p < |rings[j]|
    ensures var x := rings[j][p];
            0 <= x < nslots && 0 <= pv[x] < |nx| && 0 <= nx[x] < |nx|
            && 0 <= nx[pv[x] := nx[x]][nslots + i] < |nx|
            && Arena(Spliced(nx, pv, x, nslots + i).0, Spliced(nx, pv, x, nslots + i).1,
                     Moved(rings, j, p, i), home[x := i], nslots)
  {
    forall k | 0 <= k < |rings| ensures Colored(rings[k], home, nslots, k) { }
    assert Distinct(rings[i]) && Distinct(rings[j]);
    MoveAllLinked(nx, pv, rings, home, nslots, j, p, i);
    MovePartition(rings, home, nslots, j, p, i);
  }
}
