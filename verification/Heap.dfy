/** The userland allocator of lib/libstink_alloc.c: a circular, address-sorted,
    fully coalesced first-fit free list threaded through memory.

    Memory is an array of 8-byte units and an address is a unit index; address 0
    is NULL.  A unit is viewed as the two 32-bit words a block header lays over it. */
module HeapModel {

  const WORD := 0x1_0000_0000

  type Word = w: nat | w < WORD

  datatype Unit = Unit(next: Word, size: Word)

  type Memory = seq<Unit>

  /** A block: its header address and its size in units, header included. */
  datatype Block = Block(addr: nat, size: nat) {
    ghost function End(): nat { addr + size }

    ghost predicate Spans(u: nat) { addr <= u < addr + size }

    ghost function Units(): set<nat> { set u: nat | u < addr + size && Spans(u) }
  }

  // ------------------------------------------------------------------- tilings

  ghost predicate Disjoint(x: Block, y: Block) {
    x.End() <= y.addr || y.End() <= x.addr
  }

  /** The empty sentinel block and non-empty blocks between it and the program break, no two overlapping. */
  ghost predicate Tiled(s: set<Block>, base: nat, brk: nat) {
    && (forall b | b in s :: b == Block(base, 0) || (base < b.addr && 0 < b.size && b.End() <= brk))
    && (forall x, y | x in s && y in s :: x == y || Disjoint(x, y))
  }

  ghost function AllUnits(s: set<Block>): set<nat> {
    set b, u | b in s && u in b.Units() :: u
  }

  lemma SplitTile(s: set<Block>, base: nat, brk: nat, b: Block, n: nat)
    requires Tiled(s, base, brk) && b in s && 0 < n < b.size
    ensures var s' := s - {b} + {Block(b.addr, b.size - n), Block(b.End() - n, n)};
            Tiled(s', base, brk) && AllUnits(s') == AllUnits(s)
  {
    hide AllUnits;
    var x, y := Block(b.addr, b.size - n), Block(b.End() - n, n);
    assert b.Units() == x.Units() + y.Units();
    SplitUnits(s, b, x, y);
  }

  /** Replacing a block by two that share its units keeps the union. */
  lemma SplitUnits(s: set<Block>, b: Block, x: Block, y: Block)
    requires b in s && b.Units() == x.Units() + y.Units()
    ensures AllUnits(s - {b} + {x, y}) == AllUnits(s)
  {
    var s' := s - {b} + {x, y};
    forall u ensures u in AllUnits(s') <==> u in AllUnits(s) {
      if c :| c in s && u in c.Units() {
        assert if c != b then c in s' else u in x.Units() || u in y.Units();
      }
      if c :| c in s' && u in c.Units() {
        assert c in s || u in b.Units();
      }
    }
  }

  lemma MergeTiles(s: set<Block>, base: nat, brk: nat, x: Block, y: Block)
    requires Tiled(s, base, brk) && x in s && y in s && x.End() == y.addr && x.size > 0
    ensures var s' := s - {x, y} + {Block(x.addr, x.size + y.size)};
            Tiled(s', base, brk) && AllUnits(s') == AllUnits(s)
  {
    hide AllUnits;
    MergeUnits(s, x, y);
  }

  lemma MergeUnits(s: set<Block>, x: Block, y: Block)
    requires x in s && y in s && x.End() == y.addr && x.size > 0
    ensures AllUnits(s - {x, y} + {Block(x.addr, x.size + y.size)}) == AllUnits(s)
  {
    var b := Block(x.addr, x.size + y.size);
    var s' := s - {x, y} + {b};
    assert b.Units() == x.Units() + y.Units();
    forall u ensures u in AllUnits(s') <==> u in AllUnits(s) {
      if c :| c in s && u in c.Units() {
        assert c in s' || u in b.Units();
      }
      if c :| c in s' && u in c.Units() {
        assert c in s || u in x.Units() || u in y.Units();
      }
    }
  }

  // ------------------------------------------------------------------ free list

  /** Ascending addresses with a gap after every block: nothing is left to merge. */
  ghost predicate Coalesced(ring: seq<Block>) {
    forall i, j | 0 <= i < j < |ring| :: ring[i].End() < ring[j].addr
  }

  /** Memory holds the headers of `ring`, and their `next` fields form one cycle through it. */
  ghost predicate Threaded(m: Memory, ring: seq<Block>) {
    && (forall i | 0 <= i < |ring| :: ring[i].addr < |m| && m[ring[i].addr].size == ring[i].size)
    && (forall i, j | 0 <= i < |ring| && j == (if i + 1 < |ring| then i + 1 else 0) ::
          m[ring[i].addr].next == ring[j].addr)
  }

  ghost function Elements(ring: seq<Block>): set<Block> {
    set b | b in ring
  }

  /** The headers of the free ring and of the live blocks are the ones in memory. */
  ghost predicate Headers(m: Memory, ring: seq<Block>, live: set<Block>) {
    && Threaded(m, ring)
    && forall b | b in live :: b.addr < |m| && m[b.addr].size == b.size
  }

  /** `ring` is the sentinel at `base` followed by the free blocks, `live` holds the others,
      and together they cover exactly the `owned` units. */
  ghost predicate Layout(base: nat, ring: seq<Block>, live: set<Block>, brk: nat, owned: set<nat>) {
    && |ring| > 0 && ring[0] == Block(base, 0)
    && Coalesced(ring)
    && Elements(ring) !! live
    && Tiled(Elements(ring) + live, base, brk)
    && AllUnits(Elements(ring) + live) == owned
  }

  // --------------------------------------------------- steps on ring and memory

  ghost function Splice(ring: seq<Block>, i: nat, j: nat, mid: seq<Block>): seq<Block>
    requires i <= j <= |ring|
  {
    ring[..i] + mid + ring[j..]
  }

  /** Replaces blocks i..j of the ring by `mid`, which starts at the same address. */
  lemma SpliceThreaded(m: Memory, m': Memory, ring: seq<Block>, i: nat, j: nat, mid: seq<Block>)
    requires Threaded(m, ring) && |m'| == |m| && i < j <= |ring| && |mid| > 0 && mid[0].addr == ring[i].addr
    requires forall x | 0 <= x < i || j <= x < |ring| :: m'[ring[x].addr] == m[ring[x].addr]
    requires forall y | 0 <= y < |mid| :: mid[y].addr < |m'| && m'[mid[y].addr].size == mid[y].size
    requires forall y, z | 0 <= y < |mid| - 1 && z == y + 1 :: m'[mid[y].addr].next == mid[z].addr
    requires m'[mid[|mid| - 1].addr].next == ring[if j < |ring| then j else 0].addr
    ensures Threaded(m', Splice(ring, i, j, mid))
  {
    var r := Splice(ring, i, j, mid);
    forall x | 0 <= x < |r|
      ensures && r[x].addr < |m'| && m'[r[x].addr].size == r[x].size
              && m'[r[x].addr].next == r[if x + 1 < |r| then x + 1 else 0].addr
    {
      if i <= x < i + |mid| {
        assert r[x] == mid[x - i];
        if x + 1 < i + |mid| {
          assert r[x + 1] == mid[x + 1 - i];
        }
      } else {
        var o := if x < i then x else x - |mid| - i + j;
        assert r[x] == ring[o];
      }
    }
  }

  lemma SpliceCoalesced(ring: seq<Block>, i: nat, j: nat, mid: seq<Block>)
    requires Coalesced(ring) && i < j <= |ring| && |mid| > 0 && mid[0].addr == ring[i].addr
    requires Coalesced(mid)
    requires j < |ring| ==> mid[|mid| - 1].End() < ring[j].addr
    ensures Coalesced(Splice(ring, i, j, mid))
  {
    var r := Splice(ring, i, j, mid);
    forall x, y | 0 <= x < y < |r| ensures r[x].End() < r[y].addr {
      if x < i <= y < i + |mid| {
        assert ring[x].End() < ring[i].addr;
        assert mid[0].addr <= mid[y - i].addr;
      } else if i <= x < i + |mid| <= y {
        assert mid[x - i].End() <= mid[|mid| - 1].End() < ring[j].addr <= ring[y - |mid| - i + j].addr;
      }
    }
  }

  lemma SpliceElements(ring: seq<Block>, i: nat, j: nat, mid: seq<Block>)
    requires Coalesced(ring) && i < j <= |ring|
    ensures Elements(Splice(ring, i, j, mid)) == Elements(ring) - Elements(ring[i..j]) + Elements(mid)
  {
    var r := Splice(ring, i, j, mid);
    forall b ensures b in r <==> (b in ring && b !in ring[i..j]) || b in mid {
      assert ring == ring[..i] + ring[i..j] + ring[j..];
    }
  }

  lemma SpliceLayout(base: nat, ring: seq<Block>, live: set<Block>, live': set<Block>, brk: nat, owned: set<nat>,
                     i: nat, j: nat, mid: seq<Block>)
    requires Layout(base, ring, live, brk, owned) && i < j <= |ring|
    requires |mid| > 0 && mid[0].addr == ring[i].addr && Coalesced(mid) && (i == 0 ==> mid[0] == ring[0])
    requires j < |ring| ==> mid[|mid| - 1].End() < ring[j].addr
    requires var s' := Elements(ring) - Elements(ring[i..j]) + Elements(mid);
             s' !! live' && Tiled(s' + live', base, brk) && AllUnits(s' + live') == owned
    ensures Layout(base, Splice(ring, i, j, mid), live', brk, owned)
  {
    hide Tiled, AllUnits;
    SpliceCoalesced(ring, i, j, mid);
    SpliceElements(ring, i, j, mid);
  }

  /** Exact fit: block k leaves the ring whole. */
  lemma TakeWhole(base: nat, ring: seq<Block>, live: set<Block>, brk: nat, owned: set<nat>, k: nat)
    requires Layout(base, ring, live, brk, owned) && 1 <= k < |ring|
    ensures Layout(base, Splice(ring, k - 1, k + 1, [ring[k - 1]]), live + {ring[k]}, brk, owned)
  {
    hide Tiled, AllUnits;
    var p, b := ring[k - 1], ring[k];
    assert p.End() < b.addr && p in Elements(ring) && b in Elements(ring);
    assert ring[k - 1..k + 1] == [p, b];
    var s' := Elements(ring) - Elements([p, b]) + Elements([p]);
    assert s' == Elements(ring) - {b} by {
      assert Elements([p, b]) == {p, b} && Elements([p]) == {p};
    }
    assert s' + (live + {b}) == Elements(ring) + live;
    SpliceLayout(base, ring, live, live + {ring[k]}, brk, owned, k - 1, k + 1, [ring[k - 1]]);
  }

  /** Larger than needed: block k keeps its front and its last units become the live block `tail`. */
  lemma TakeTail(base: nat, ring: seq<Block>, live: set<Block>, brk: nat, owned: set<nat>, k: nat,
                 front: Block, tail: Block)
    requires Layout(base, ring, live, brk, owned) && 1 <= k < |ring| && 0 < tail.size < ring[k].size
    requires front == Block(ring[k].addr, ring[k].size - tail.size) && tail.addr == front.End()
    ensures Layout(base, Splice(ring, k, k + 1, [front]), live + {tail}, brk, owned)
  {
    hide AllUnits;
    var b := ring[k];
    assert b in Elements(ring) && ring[k..k + 1] == [b];
    SplitTile(Elements(ring) + live, base, brk, b, tail.size);
    var s' := Elements(ring) - Elements(ring[k..k + 1]) + Elements([front]);
    assert s' + (live + {tail}) == Elements(ring) + live - {b} + {front, tail};
    SpliceLayout(base, ring, live, live + {tail}, brk, owned, k, k + 1, [front]);
  }

  lemma TakeWholeHeaders(m: Memory, m': Memory, ring: seq<Block>, live: set<Block>, k: nat)
    requires Headers(m, ring, live) && Coalesced(ring) && 1 <= k < |ring|
    requires forall b | b in live :: b.addr != ring[k - 1].addr
    requires var p := ring[k - 1].addr; m' == m[p := m[p].(next := m[ring[k].addr].next)]
    ensures Headers(m', Splice(ring, k - 1, k + 1, [ring[k - 1]]), live + {ring[k]})
  {
    SpliceThreaded(m, m', ring, k - 1, k + 1, [ring[k - 1]]);
  }

  lemma TakeTailHeaders(m: Memory, m': Memory, ring: seq<Block>, live: set<Block>, k: nat, front: Block, tail: Block)
    requires Headers(m, ring, live) && Coalesced(ring) && 1 <= k < |ring| && 0 < tail.size < ring[k].size
    requires front == Block(ring[k].addr, ring[k].size - tail.size) && tail.addr == front.End()
    requires forall b | b in live :: Disjoint(b, ring[k])
    requires tail.addr < |m| == |m'| && front.size < WORD && tail.size < WORD
    requires m' == m[front.addr := m[front.addr].(size := front.size)][tail.addr := m[tail.addr].(size := tail.size)]
    ensures Headers(m', Splice(ring, k, k + 1, [front]), live + {tail})
  {
    SpliceThreaded(m, m', ring, k, k + 1, [front]);
  }

  // ------------------------------------------------------ returning a block

  ghost predicate Between(ring: seq<Block>, k: nat, b: Block) {
    k < |ring| && ring[k].addr < b.addr && (k + 1 < |ring| ==> b.addr < ring[k + 1].addr)
  }

  ghost predicate TouchesAbove(ring: seq<Block>, k: nat, b: Block) {
    k + 1 < |ring| && b.End() == ring[k + 1].addr
  }

  /** b together with the free block right above it, if there is one. */
  ghost function WithAbove(ring: seq<Block>, k: nat, b: Block): Block {
    if TouchesAbove(ring, k, b) then Block(b.addr, b.size + ring[k + 1].size) else b
  }

  /** What takes the place of block k: the two blocks, or one block when they touch. */
  ghost function WithBelow(p: Block, b: Block): seq<Block> {
    if p.End() == b.addr then [Block(p.addr, p.size + b.size)] else [p, b]
  }

  ghost function Inserted(ring: seq<Block>, k: nat, b: Block): seq<Block>
    requires k < |ring|
  {
    Splice(ring, k, Reach(ring, k, b), WithBelow(ring[k], WithAbove(ring, k, b)))
  }

  lemma InsertedAt(ring: seq<Block>, k: nat, b: Block)
    requires k < |ring|
    ensures k < |Inserted(ring, k, b)| && Inserted(ring, k, b)[k].addr == ring[k].addr
  {
  }

  lemma FitsBetween(base: nat, ring: seq<Block>, live: set<Block>, brk: nat, owned: set<nat>, k: nat, b: Block)
    requires Layout(base, ring, live, brk, owned) && b in live && Between(ring, k, b)
    ensures 0 < b.size && ring[k].End() <= b.addr && (k + 1 < |ring| ==> b.End() <= ring[k + 1].addr)
    ensures b !in ring && (ring[k].End() == b.addr ==> k > 0 && 0 < ring[k].size)
  {
    assert forall i | 0 <= i < |ring| :: ring[i] in Elements(ring);
  }

  /** The tiles after the block above is absorbed: the same units in one block fewer. */
  lemma AbsorbAbove(base: nat, ring: seq<Block>, live: set<Block>, brk: nat, owned: set<nat>, k: nat, b: Block)
    requires Layout(base, ring, live, brk, owned) && b in live && Between(ring, k, b)
    ensures var s := Elements(ring) + live;
            var s' := if TouchesAbove(ring, k, b) then s - {b, ring[k + 1]} + {WithAbove(ring, k, b)} else s;
            Tiled(s', base, brk) && AllUnits(s') == owned && (TouchesAbove(ring, k, b) ==> WithAbove(ring, k, b) !in s)
  {
    hide AllUnits, Coalesced;
    FitsBetween(base, ring, live, brk, owned, k, b);
    if TouchesAbove(ring, k, b) {
      assert ring[k + 1] in Elements(ring);
      MergeTiles(Elements(ring) + live, base, brk, b, ring[k + 1]);
      assert WithAbove(ring, k, b) != b && !Disjoint(WithAbove(ring, k, b), b);
    }
  }

  lemma AbsorbBelow(s: set<Block>, base: nat, brk: nat, p: Block, b: Block)
    requires Tiled(s, base, brk) && p in s && b in s && p != b
    requires p.End() == b.addr ==> p.size > 0
    ensures var s' := s - {p, b} + Elements(WithBelow(p, b));
            Tiled(s', base, brk) && AllUnits(s') == AllUnits(s)
    ensures s - {p, b} !! Elements(WithBelow(p, b))
  {
    if p.End() == b.addr {
      MergeTiles(s, base, brk, p, b);
      assert Elements(WithBelow(p, b)) == {Block(p.addr, p.size + b.size)};
    } else {
      assert s - {p, b} + Elements([p, b]) == s;
    }
  }

  /** One past the last ring index that returning b replaces. */
  ghost function Reach(ring: seq<Block>, k: nat, b: Block): nat {
    if TouchesAbove(ring, k, b) then k + 2 else k + 1
  }

  lemma RegroupSets(e: set<Block>, live: set<Block>, p: Block, b: Block, n: Block, big: Block, mid: set<Block>)
    requires e !! live && p in e && n in e && b in live && p != n && big !in e + live
    requires e + live - {b, n} + {big} - {p, big} !! mid
    ensures e - {p, n} + mid + (live - {b}) == e + live - {b, n} + {big} - {p, big} + mid
    ensures e - {p, n} + mid !! live - {b}
  {
  }

  lemma FreeTiles(base: nat, ring: seq<Block>, live: set<Block>, brk: nat, owned: set<nat>, k: nat, b: Block)
    requires Layout(base, ring, live, brk, owned) && b in live && Between(ring, k, b)
    ensures Reach(ring, k, b) <= |ring|
    ensures var s' := Elements(ring) - Elements(ring[k..Reach(ring, k, b)])
                      + Elements(WithBelow(ring[k], WithAbove(ring, k, b)));
            s' !! live - {b} && Tiled(s' + (live - {b}), base, brk) && AllUnits(s' + (live - {b})) == owned
  {
    hide Tiled, AllUnits;
    FitsBetween(base, ring, live, brk, owned, k, b);
    var p, big := ring[k], WithAbove(ring, k, b);
    var mid := WithBelow(p, big);
    var gone := Elements(ring[k..Reach(ring, k, b)]);
    assert p in Elements(ring);
    AbsorbAbove(base, ring, live, brk, owned, k, b);
    if TouchesAbove(ring, k, b) {
      var s1 := Elements(ring) + live - {b, ring[k + 1]} + {big};
      AbsorbBelow(s1, base, brk, p, big);
      assert ring[k..k + 2] == [p, ring[k + 1]] && gone == {p, ring[k + 1]};
      assert ring[k + 1] in Elements(ring) && p.End() < ring[k + 1].addr;
      RegroupSets(Elements(ring), live, p, b, ring[k + 1], big, Elements(mid));
    } else {
      AbsorbBelow(Elements(ring) + live, base, brk, p, b);
      assert ring[k..k + 1] == [p] && gone == {p};
      assert Elements(ring) - gone + Elements(mid) + (live - {b}) == Elements(ring) + live - {p, b} + Elements(mid);
    }
  }

  lemma FreeLayout(base: nat, ring: seq<Block>, live: set<Block>, brk: nat, owned: set<nat>, k: nat, b: Block)
    requires Layout(base, ring, live, brk, owned) && b in live && Between(ring, k, b)
    ensures Layout(base, Inserted(ring, k, b), live - {b}, brk, owned)
  {
    hide Tiled, AllUnits;
    FitsBetween(base, ring, live, brk, owned, k, b);
    FreeTiles(base, ring, live, brk, owned, k, b);
    SpliceLayout(base, ring, live, live - {b}, brk, owned, k, Reach(ring, k, b),
        WithBelow(ring[k], WithAbove(ring, k, b)));
  }

  /** Memory after the two merge branches of free have rewritten the headers at b and at p. */
  ghost predicate Relinked(m: Memory, m': Memory, ring: seq<Block>, k: nat, b: Block)
    requires k < |ring|
  {
    var big := WithAbove(ring, k, b);
    var p := ring[k];
    var next := ring[if Reach(ring, k, b) < |ring| then Reach(ring, k, b) else 0].addr;
    && |m'| == |m|
    && (forall a | 0 <= a < |m| && a != p.addr && a != b.addr :: m'[a] == m[a])
    && p.addr < |m| && b.addr < |m|
    && if p.End() == b.addr then
         m'[p.addr].next == next && m'[p.addr].size == p.size + big.size
       else
         && m'[p.addr].next == b.addr && m'[p.addr].size == p.size
         && m'[b.addr].next == next && m'[b.addr].size == big.size
  }

  lemma FreeHeaders(m: Memory, m': Memory, ring: seq<Block>, live: set<Block>, k: nat, b: Block)
    requires Coalesced(ring) && Between(ring, k, b)
    requires ring[k].End() <= b.addr && 0 < b.size && (k + 1 < |ring| ==> b.End() <= ring[k + 1].addr)
    requires forall x | x in live && x != b :: x.addr != b.addr && x.addr != ring[k].addr
    requires Headers(m, ring, live) && Relinked(m, m', ring, k, b)
    ensures Headers(m', Inserted(ring, k, b), live - {b})
  {
    SpliceThreaded(m, m', ring, k, Reach(ring, k, b), WithBelow(ring[k], WithAbove(ring, k, b)));
  }

  /** The place of a live block in the ring exists and is unique. */
  lemma PlaceOf(ring: seq<Block>, b: Block) returns (k: nat)
    requires |ring| > 0 && ring[0].addr < b.addr && Coalesced(ring)
    requires forall i | 0 <= i < |ring| :: ring[i].addr != b.addr
    ensures Between(ring, k, b)
  {
    k := 0;
    while k + 1 < |ring| && ring[k + 1].addr < b.addr
      invariant k < |ring| && ring[k].addr < b.addr
    {
      k := k + 1;
    }
  }

  lemma PlaceUnique(ring: seq<Block>, b: Block, j: nat, k: nat)
    requires Coalesced(ring) && Between(ring, j, b) && Between(ring, k, b)
    ensures j == k
  {
    assert forall x, y | 0 <= x < y < |ring| :: ring[x].addr < ring[y].addr;
  }

  lemma LiveBounds(base: nat, ring: seq<Block>, live: set<Block>, brk: nat, owned: set<nat>, b: Block)
    requires Layout(base, ring, live, brk, owned) && b in live
    ensures |ring| > 0 && ring[0] == Block(base, 0) && Coalesced(ring)
    ensures base < b.addr && 0 < b.size && b.End() <= brk
    ensures forall i | 0 <= i < |ring| :: ring[i].addr != b.addr
    ensures forall x | x in live && x != b :: x.addr != b.addr
  {
    assert forall i | 0 <= i < |ring| :: ring[i] in Elements(ring);
  }

  lemma RingBounds(base: nat, ring: seq<Block>, live: set<Block>, brk: nat, owned: set<nat>, k: nat)
    requires Layout(base, ring, live, brk, owned) && k < |ring|
    ensures Coalesced(ring) && base <= ring[k].addr && (k > 0 ==> 0 < ring[k].size && ring[k].End() <= brk)
    ensures k + 1 < |ring| ==> ring[k + 1].End() <= brk
    ensures forall x | x in live :: x.addr != ring[k].addr
  {
    assert ring[k] in Elements(ring) && (k + 1 < |ring| ==> ring[k + 1] in Elements(ring));
  }

  lemma RingHeader(m: Memory, ring: seq<Block>, live: set<Block>, k: nat)
    requires Headers(m, ring, live) && k < |ring|
    ensures ring[k].addr < |m| && m[ring[k].addr].size == ring[k].size
  {
  }

  lemma FreeUntouched(m: Memory, m': Memory, base: nat, ring: seq<Block>, live: set<Block>, brk: nat,
                      owned: set<nat>, k: nat, b: Block)
    requires Layout(base, ring, live, brk, owned) && b in live && Between(ring, k, b) && Relinked(m, m', ring, k, b)
    ensures Untouched(m, m', base, owned, live - {b})
  {
    var p := ring[k];
    assert p in Elements(ring);
    forall u | u == p.addr || u == b.addr ensures u == base || (u in owned && u !in AllUnits(live - {b})) {
      if u != base {
        var x := if u == p.addr then p else b;
        assert u in x.Units();
        forall y | y in live - {b} ensures u !in y.Units() {
          assert Disjoint(x, y);
        }
      }
    }
  }

  // ------------------------------------------------- what the layout determines

  lemma LayoutOrder(base: nat, ring: seq<Block>, live: set<Block>, brk: nat, owned: set<nat>)
    requires Layout(base, ring, live, brk, owned)
    ensures |ring| > 0 && ring[0] == Block(base, 0) && Coalesced(ring)
    ensures forall i | 1 <= i < |ring| :: 0 < ring[i].size
  {
    forall i | 1 <= i < |ring| ensures 0 < ring[i].size {
      assert ring[i] in Elements(ring);
    }
  }

  ghost predicate FreeUnit(ring: seq<Block>, u: nat) {
    exists i :: 0 <= i < |ring| && ring[i].addr <= u < ring[i].End()
  }

  lemma FreeUnits(base: nat, ring: seq<Block>, live: set<Block>, brk: nat, owned: set<nat>, u: nat)
    requires Layout(base, ring, live, brk, owned)
    ensures FreeUnit(ring, u) <==> u in owned && u !in AllUnits(live)
  {
    hide Coalesced, Tiled;
    if FreeUnit(ring, u) {
      var i :| 0 <= i < |ring| && ring[i].addr <= u < ring[i].End();
      FreeUnitApart(base, ring, live, brk, owned, i, u);
    }
    if u in owned && u !in AllUnits(live) {
      var b :| b in Elements(ring) + live && u in b.Units();
      assert b in ring;
    }
  }

  lemma FreeUnitApart(base: nat, ring: seq<Block>, live: set<Block>, brk: nat, owned: set<nat>, i: nat, u: nat)
    requires Layout(base, ring, live, brk, owned) && i < |ring| && ring[i].addr <= u < ring[i].End()
    ensures u in owned && u !in AllUnits(live)
  {
    hide Coalesced;
    var b := ring[i];
    assert b in Elements(ring) && u in b.Units();
    forall x | x in live ensures u !in x.Units() {
      assert Disjoint(b, x);
    }
  }

  /** Two rings with the same free units and the same first k blocks do not differ in block k either. */
  lemma NextBlock(r1: seq<Block>, r2: seq<Block>, k: nat)
    requires Coalesced(r1) && Coalesced(r2) && 1 <= k < |r1| && k <= |r2| && r1[..k] == r2[..k]
    requires forall i | 1 <= i < |r1| :: 0 < r1[i].size
    requires forall i | 1 <= i < |r2| :: 0 < r2[i].size
    requires forall u: nat :: FreeUnit(r1, u) <==> FreeUnit(r2, u)
    ensures k < |r2| && r1[k] == r2[k]
  {
    var b := r1[k];
    assert forall i | 0 <= i < k :: r2[i] == r1[..k][i] && r1[i].End() < b.addr;
    assert FreeUnit(r1, b.addr) && FreeUnit(r2, b.addr);
    assert k < |r2| && r2[k].addr <= b.addr;
    var c := r2[k];
    assert r2[k - 1].End() < c.addr;
    assert FreeUnit(r2, c.addr) && FreeUnit(r1, c.addr);
    assert c.addr == b.addr;
    assert !FreeUnit(r1, b.End());
    assert c.size <= b.size;
    assert !FreeUnit(r2, c.End());
  }

  lemma SamePrefix(r1: seq<Block>, r2: seq<Block>, k: nat)
    requires Coalesced(r1) && Coalesced(r2) && 1 <= k <= |r1| && |r2| > 0 && r1[0] == r2[0]
    requires forall i | 1 <= i < |r1| :: 0 < r1[i].size
    requires forall i | 1 <= i < |r2| :: 0 < r2[i].size
    requires forall u: nat :: FreeUnit(r1, u) <==> FreeUnit(r2, u)
    ensures k <= |r2| && r1[..k] == r2[..k]
  {
    if k > 1 {
      SamePrefix(r1, r2, k - 1);
      NextBlock(r1, r2, k - 1);
      assert r1[..k] == r1[..k - 1] + [r1[k - 1]] && r2[..k] == r2[..k - 1] + [r2[k - 1]];
    }
  }

  /** Coalescing makes the free list canonical: the units in use alone determine it, whatever the history. */
  lemma RingIsCanonical(base: nat, r1: seq<Block>, r2: seq<Block>, l1: set<Block>, l2: set<Block>,
                        brk: nat, owned: set<nat>)
    requires Layout(base, r1, l1, brk, owned) && Layout(base, r2, l2, brk, owned) && AllUnits(l1) == AllUnits(l2)
    ensures r1 == r2
  {
    hide Layout, FreeUnit, AllUnits;
    LayoutOrder(base, r1, l1, brk, owned);
    LayoutOrder(base, r2, l2, brk, owned);
    forall u: nat ensures FreeUnit(r1, u) <==> FreeUnit(r2, u) {
      FreeUnits(base, r1, l1, brk, owned, u);
      FreeUnits(base, r2, l2, brk, owned, u);
    }
    SamePrefix(r1, r2, |r1|);
    SamePrefix(r2, r1, |r2|);
  }

  ghost function TotalSize(s: set<Block>): nat {
    if s == {} then 0 else var b :| b in s; b.size + TotalSize(s - {b})
  }

  lemma CountUnits(b: Block)
    ensures |b.Units()| == b.size
    decreases b.size
  {
    if b.size == 0 {
      assert b.Units() == {};
    } else {
      var rest := Block(b.addr, b.size - 1);
      assert b.Units() == rest.Units() + {b.End() - 1};
      CountUnits(rest);
    }
  }

  lemma {:induction false} CountAll(s: set<Block>, base: nat, brk: nat)
    requires Tiled(s, base, brk)
    ensures |AllUnits(s)| == TotalSize(s)
  {
    if s == {} {
      assert AllUnits(s) == {};
    } else {
      var b :| b in s && TotalSize(s) == b.size + TotalSize(s - {b});
      assert AllUnits(s) == b.Units() + AllUnits(s - {b}) by {
        forall u | u in AllUnits(s) ensures u in b.Units() + AllUnits(s - {b}) {
          var c :| c in s && u in c.Units();
          assert c == b || c in s - {b};
        }
      }
      assert b.Units() !! AllUnits(s - {b}) by {
        forall c | c in s - {b} ensures c.Units() !! b.Units() {
          assert Disjoint(b, c);
        }
      }
      CountUnits(b);
      CountAll(s - {b}, base, brk);
    }
  }

  /** Conservation: free units plus live units are the units obtained from the kernel. */
  lemma Conservation(base: nat, ring: seq<Block>, live: set<Block>, brk: nat, owned: set<nat>)
    requires Layout(base, ring, live, brk, owned)
    ensures TotalSize(Elements(ring)) + TotalSize(live) == |owned|
    ensures AllUnits(Elements(ring)) !! AllUnits(live)
  {
    var e := Elements(ring);
    CountAll(e, base, brk);
    CountAll(live, base, brk);
    UnitsOfUnion(e, live, base, brk);
  }

  lemma UnitsOfUnion(s: set<Block>, t: set<Block>, base: nat, brk: nat)
    requires Tiled(s + t, base, brk) && s !! t
    ensures AllUnits(s + t) == AllUnits(s) + AllUnits(t) && AllUnits(s) !! AllUnits(t)
  {
    forall x, y | x in s && y in t ensures x.Units() !! y.Units() {
      assert x in s + t && y in s + t && Disjoint(x, y);
    }
    assert forall u | u in AllUnits(s + t) :: u in AllUnits(s) + AllUnits(t);
  }

  // ---------------------------------------------------------------- byte view

  function Place(i: nat): (p: nat)
    requires i < 4
    ensures p > 0
  {
    if i == 0 then 1 else if i == 1 then 0x100 else if i == 2 then 0x1_0000 else 0x100_0000
  }

  function WordByte(w: Word, i: nat): (b: nat)
    requires i < 4
    ensures b < 256
  {
    w / Place(i) % 256
  }

  function SetWordByte(w: Word, i: nat, v: nat): Word
    requires i < 4 && v < 256
  {
    FromBytes(if i == 0 then v else WordByte(w, 0), if i == 1 then v else WordByte(w, 1),
              if i == 2 then v else WordByte(w, 2), if i == 3 then v else WordByte(w, 3))
  }

  /** Byte i of a unit in memory: the low word first, each word little-endian. */
  function ByteAt(u: Unit, i: nat): nat
    requires i < 8
  {
    if i < 4 then WordByte(u.next, i) else WordByte(u.size, i - 4)
  }

  function SetByte(u: Unit, i: nat, v: nat): Unit
    requires i < 8 && v < 256
  {
    if i < 4 then u.(next := SetWordByte(u.next, i, v)) else u.(size := SetWordByte(u.size, i - 4, v))
  }

  function FromBytes(b0: nat, b1: nat, b2: nat, b3: nat): nat {
    b0 + 0x100 * b1 + 0x1_0000 * b2 + 0x100_0000 * b3
  }

  lemma ToBytes(w: Word)
    ensures WordByte(w, 0) < 256 && WordByte(w, 1) < 256 && WordByte(w, 2) < 256 && WordByte(w, 3) < 256
    ensures w == FromBytes(WordByte(w, 0), WordByte(w, 1), WordByte(w, 2), WordByte(w, 3))
  {
    var q := w / 0x100;
    var r := q / 0x100;
    DivTwice(w);
    LowPart(w);
    LowPart(q);
    LowPart(r);
  }

  lemma LowPart(w: nat)
    ensures w == 0x100 * (w / 0x100) + w % 256
    ensures w < 0x1_0000 ==> w / 0x100 % 256 == w / 0x100
    ensures w < WORD ==> w / 0x100 < 0x100_0000
    ensures w < 0x100_0000 ==> w / 0x100 < 0x1_0000
  {
  }

  lemma BytesOf(b0: nat, b1: nat, b2: nat, b3: nat)
    requires b0 < 256 && b1 < 256 && b2 < 256 && b3 < 256
    ensures var w := FromBytes(b0, b1, b2, b3);
            w < WORD && WordByte(w, 0) == b0 && WordByte(w, 1) == b1 && WordByte(w, 2) == b2 && WordByte(w, 3) == b3
  {
    var w := FromBytes(b0, b1, b2, b3);
    var q := b1 + 0x100 * (b2 + 0x100 * b3);
    LowByte(w, q, b0);
    LowByte(q, b2 + 0x100 * b3, b1);
    LowByte(b2 + 0x100 * b3, b3, b2);
    DivTwice(w);
  }

  lemma LowByte(w: nat, q: nat, b: nat)
    requires b < 256 && w == 0x100 * q + b
    ensures w / 0x100 == q && w % 256 == b
  {
  }

  lemma DivTwice(w: nat)
    ensures w / 0x1_0000 == w / 0x100 / 0x100 && w / 0x100_0000 == w / 0x100 / 0x100 / 0x100
  {
  }

  lemma SetWordByteAt(w: Word, i: nat, v: nat, j: nat)
    requires i < 4 && j < 4 && v < 256
    ensures WordByte(SetWordByte(w, i, v), j) == if i == j then v else WordByte(w, j)
  {
    hide WordByte;
    ToBytes(w);
    var b0, b1, b2, b3 := WordByte(w, 0), WordByte(w, 1), WordByte(w, 2), WordByte(w, 3);
    BytesOf(if i == 0 then v else b0, if i == 1 then v else b1, if i == 2 then v else b2, if i == 3 then v else b3);
  }

  lemma SetByteAt(u: Unit, i: nat, v: nat, j: nat)
    requires i < 8 && j < 8 && v < 256
    ensures ByteAt(SetByte(u, i, v), j) == if i == j then v else ByteAt(u, j)
  {
    if i < 4 && j < 4 {
      SetWordByteAt(u.next, i, v, j);
    } else if i >= 4 && j >= 4 {
      SetWordByteAt(u.size, i - 4, v, j - 4);
    }
  }

  // -------------------------------------------------------------- the allocator

  const ADDRESS_UNITS := 0x2000_0000  // the 32-bit address space, in units
  const NALLOC := 1024
  const INT_UNITS := 0x1000_0000      // requests of this many units no longer fit sbrk's int argument

  /** Units a request for nbytes takes, header included; the sum is 32-bit arithmetic. */
  function UnitsFor(nbytes: nat): nat {
    ((nbytes + 7) % WORD) / 8 + 1
  }

  ghost predicate HasFit(ring: seq<Block>, n: nat) {
    exists i :: 0 <= i < |ring| && ring[i].size >= n
  }

  /** Only free units, the sentinel and units new to the heap may differ. */
  ghost predicate Untouched(m: Memory, m': Memory, base: nat, owned: set<nat>, live: set<Block>) {
    && |m'| == |m|
    && forall u | 0 <= u < |m| && u != base && (u !in owned || u in AllUnits(live)) :: m'[u] == m[u]
  }

  lemma UntouchedBySame(m: Memory, base: nat, owned: set<nat>, live: set<Block>)
    ensures Untouched(m, m, base, owned, live)
  {
  }

  /** A block freshly mapped above the old break joins the live ones. */
  lemma GrowLayout(base: nat, ring: seq<Block>, live: set<Block>, brk: nat, owned: set<nat>, b: Block)
    requires Layout(base, ring, live, brk, owned) && base < brk <= b.addr && 0 < b.size
    ensures Layout(base, ring, live + {b}, b.End(), owned + b.Units())
    ensures b !in live && owned !! b.Units() && b.addr in b.Units()
    ensures forall i | 0 <= i < |ring| :: ring[i].addr != b.addr
    ensures forall x | x in live :: x.addr != b.addr
  {
    assert forall i | 0 <= i < |ring| :: ring[i] in Elements(ring);
    assert AllUnits(Elements(ring) + (live + {b})) == owned + b.Units() by {
      assert Elements(ring) + (live + {b}) == Elements(ring) + live + {b};
    }
  }

  /** Writing the header of the fresh block and then freeing it leaves the live blocks alone. */
  lemma GrowUntouched(m: Memory, m1: Memory, m2: Memory, base: nat, owned: set<nat>, live: set<Block>, b: Block)
    requires Untouched(m1, m2, base, owned + b.Units(), live) && |m1| == |m|
    requires b.addr in b.Units() && owned !! b.Units() && AllUnits(live) <= owned
    requires forall u | 0 <= u < |m| && u != b.addr :: m1[u] == m[u]
    ensures Untouched(m, m2, base, owned + b.Units(), live)
  {
  }

  lemma Grown(m: Memory, m1: Memory, base: nat, ring: seq<Block>, live: set<Block>, brk: nat, owned: set<nat>, b: Block)
    requires Layout(base, ring, live, brk, owned) && base < brk <= b.addr && 0 < b.size && Headers(m, ring, live)
    requires |m1| == |m| && b.addr < |m| && m1[b.addr].size == b.size
    requires forall u | 0 <= u < |m| && u != b.addr :: m1[u] == m[u]
    ensures Layout(base, ring, live + {b}, b.End(), owned + b.Units()) && Headers(m1, ring, live + {b})
    ensures b !in live && owned !! b.Units() && b.addr in b.Units() && AllUnits(live) <= owned
    ensures forall u | u in b.Units() :: brk <= u
  {
    GrowLayout(base, ring, live, brk, owned, b);
  }

  lemma InsertedFits(ring: seq<Block>, k: nat, b: Block, n: nat)
    requires k < |ring| && n <= b.size
    ensures HasFit(Inserted(ring, k, b), n)
  {
    var r := Inserted(ring, k, b);
    var at := if ring[k].End() == b.addr then k else k + 1;
    assert r[at].size >= n;
  }

  /** The end of a free block, about to become live, overlaps no live block. */
  lemma TailApart(base: nat, ring: seq<Block>, live: set<Block>, brk: nat, owned: set<nat>, k: nat, tail: Block)
    requires Layout(base, ring, live, brk, owned) && 1 <= k < |ring|
    requires 0 < tail.size && ring[k].addr <= tail.addr && tail.End() == ring[k].End()
    ensures tail !in live && tail.Units() !! AllUnits(live) && tail.Units() <= owned && tail.addr in tail.Units()
    ensures base < ring[k].addr && tail.End() <= brk && forall x | x in live :: Disjoint(x, ring[k])
  {
    var b := ring[k];
    assert b in Elements(ring);
    forall x | x in live ensures Disjoint(x, b) && x.Units() !! tail.Units() {
      assert x in Elements(ring) + live;
    }
    forall u | u in tail.Units() ensures u in owned {
      assert u in b.Units();
    }
    assert tail.addr in tail.Units();
  }

  lemma HeadersApart(base: nat, ring: seq<Block>, live: set<Block>, brk: nat, owned: set<nat>, k: nat)
    requires Layout(base, ring, live, brk, owned) && k < |ring|
    ensures var p := ring[k].addr; p == base || (p in owned && p !in AllUnits(live))
  {
    if k > 0 {
      TailApart(base, ring, live, brk, owned, k, ring[k]) by { assert ring[k] in Elements(ring); }
    }
  }

  lemma TakeWholeInMemory(m: Memory, m': Memory, base: nat, ring: seq<Block>, live: set<Block>, brk: nat,
                          owned: set<nat>, k: nat)
    requires Layout(base, ring, live, brk, owned) && Headers(m, ring, live) && 1 <= k < |ring|
    requires ring[k - 1].addr < |m| && ring[k].addr < |m|
    requires var p := ring[k - 1].addr; m' == m[p := m[p].(next := m[ring[k].addr].next)]
    ensures Headers(m', Splice(ring, k - 1, k + 1, [ring[k - 1]]), live + {ring[k]})
    ensures Untouched(m, m', base, owned, live) && m'[ring[k].addr].size == ring[k].size
  {
    hide Layout, AllUnits, Headers;
    RingBounds(base, ring, live, brk, owned, k - 1);
    HeadersApart(base, ring, live, brk, owned, k - 1);
    TakeWholeHeaders(m, m', ring, live, k);
    RingHeader(m, ring, live, k);
  }

  lemma TakeTailInMemory(m: Memory, m': Memory, base: nat, ring: seq<Block>, live: set<Block>, brk: nat,
                         owned: set<nat>, k: nat, front: Block, tail: Block)
    requires Layout(base, ring, live, brk, owned) && Headers(m, ring, live)
    requires 1 <= k < |ring| && 0 < tail.size < ring[k].size
    requires front == Block(ring[k].addr, ring[k].size - tail.size) && tail.addr == front.End()
    requires tail.addr < |m| == |m'| && front.size < WORD && tail.size < WORD
    requires m' == m[front.addr := m[front.addr].(size := front.size)][tail.addr := m[tail.addr].(size := tail.size)]
    ensures Headers(m', Splice(ring, k, k + 1, [front]), live + {tail}) && Untouched(m, m', base, owned, live)
  {
    hide Layout, AllUnits, Headers;
    RingBounds(base, ring, live, brk, owned, k);
    HeadersApart(base, ring, live, brk, owned, k);
    TailApart(base, ring, live, brk, owned, k, tail);
    TakeTailHeaders(m, m', ring, live, k, front, tail);
  }

  lemma SpliceKeeps(ring: seq<Block>, i: nat, j: nat, mid: seq<Block>)
    requires i < j <= |ring| && |mid| == 1
    ensures var r := Splice(ring, i, j, mid);
            && |r| > i && r[i] == mid[0]
            && forall x | 0 <= x < i :: r[x] == ring[x]
  {
  }

  /** The order in which malloc's search visits the ring when it starts behind block f. */
  ghost function Lap(ring: seq<Block>, f: nat): seq<Block>
    requires f < |ring|
  {
    ring[f + 1..] + ring[..f + 1]
  }

  ghost predicate FirstFit(lap: seq<Block>, n: nat, j: nat) {
    j < |lap| && lap[j].size >= n && forall t | 0 <= t < j :: lap[t].size < n
  }

  /** `end` is the end of the first block with n units that a search starting behind freep meets. */
  ghost predicate FirstFitEnd(ring: seq<Block>, freep: nat, n: nat, end: nat) {
    exists f: nat, j: nat ::
      f < |ring| && ring[f].addr == freep && FirstFit(Lap(ring, f), n, j) && Lap(ring, f)[j].End() == end
  }

  lemma FirstFitAt(ring: seq<Block>, freep: nat, n: nat, f: nat, j: nat)
    requires f < |ring| && ring[f].addr == freep && FirstFit(Lap(ring, f), n, j)
    ensures FirstFitEnd(ring, freep, n, Lap(ring, f)[j].End())
  {
  }

  lemma LapStep(m: Memory, ring: seq<Block>, f: nat, j: nat)
    requires Threaded(m, ring) && Coalesced(ring) && f < |ring| && j < |ring|
    ensures var lap := Lap(ring, f);
            && lap[j].addr < |m| && m[lap[j].addr].size == lap[j].size
            && m[lap[j].addr].next == lap[if j + 1 < |ring| then j + 1 else 0].addr
            && (lap[j].addr == ring[f].addr <==> j + 1 == |ring|)
            && m[ring[f].addr].next == lap[0].addr
  {
    var i := if f + 1 + j < |ring| then f + 1 + j else f + 1 + j - |ring|;
    assert Lap(ring, f)[j] == ring[i];
  }

  /** b is a new live block beside those of `before`, made of heap units that no other block has. */
  ghost predicate Fresh(b: Block, before: set<Block>, live: set<Block>, owned: set<nat>) {
    b !in before && live == before + {b} && b.Units() !! AllUnits(before) && b.Units() <= owned
  }

  /** The heap only grows, and only above the old break. */
  ghost predicate Grew(before: set<nat>, owned: set<nat>, brk: nat) {
    owned >= before && forall u | u in owned - before :: brk <= u
  }

  lemma GrewSubset(before: set<nat>, owned: set<nat>, brk: nat)
    requires Grew(before, owned, brk)
    ensures before <= owned
  {
  }

  lemma GrewBySame(o: set<nat>, brk: nat)
    ensures Grew(o, o, brk)
  {
  }

  /** Where the j-th block of the lap sits in the ring; the block before it was visited just before. */
  lemma LapPlace(ring: seq<Block>, f: nat, j: nat) returns (k: nat)
    requires f < |ring| && j < |ring| && ring[0].size == 0 && Lap(ring, f)[j].size > 0
    ensures 1 <= k < |ring| && ring[k] == Lap(ring, f)[j]
    ensures ring[k - 1] == if j == 0 then ring[f] else Lap(ring, f)[j - 1]
  {
    k := if f + 1 + j < |ring| then f + 1 + j else f + 1 + j - |ring|;
  }

  lemma LapFits(ring: seq<Block>, f: nat, n: nat)
    requires f < |ring|
    ensures HasFit(ring, n) <==> exists t :: 0 <= t < |ring| && Lap(ring, f)[t].size >= n
  {
    var lap := Lap(ring, f);
    if i :| 0 <= i < |ring| && ring[i].size >= n {
      assert lap[if i > f then i - f - 1 else i + |ring| - f - 1] == ring[i];
    }
    if t :| 0 <= t < |ring| && lap[t].size >= n {
      assert ring[if f + 1 + t < |ring| then f + 1 + t else f + 1 + t - |ring|].size >= n;
    }
  }

  /** malloc's search stands at p, the j-th block of the lap, and no block before it has n units. */
  ghost predicate At(ring: seq<Block>, freep: nat, n: nat, f: nat, j: nat, prevp: nat, p: nat) {
    && f < |ring| && ring[f].addr == freep && j < |ring|
    && p == Lap(ring, f)[j].addr && prevp == (if j == 0 then ring[f] else Lap(ring, f)[j - 1]).addr
    && forall t | 0 <= t < j :: Lap(ring, f)[t].size < n
  }

  lemma StartLap(m: Memory, ring: seq<Block>, live: set<Block>, freep: nat, n: nat) returns (f: nat)
    requires Coalesced(ring) && Headers(m, ring, live) && exists i :: 0 <= i < |ring| && ring[i].addr == freep
    ensures freep < |m| && At(ring, freep, n, f, 0, freep, m[freep].next)
  {
    f :| f < |ring| && ring[f].addr == freep;
    LapStep(m, ring, f, 0);
  }

  /** What one look at block p decides: a fit, a finished lap, or one step further. */
  lemma Look(m: Memory, ring: seq<Block>, live: set<Block>,
             freep: nat, n: nat, f: nat, j: nat, prevp: nat, p: nat)
    requires Coalesced(ring) && Headers(m, ring, live) && 0 < n
    requires At(ring, freep, n, f, j, prevp, p)
    ensures p < |m| && (m[p].size >= n ==> HasFit(ring, n))
    ensures m[p].size < n && p == freep ==> !HasFit(ring, n)
    ensures m[p].size < n && p != freep ==> j + 1 < |ring| && At(ring, freep, n, f, j + 1, p, m[p].next)
  {
    LapStep(m, ring, f, j);
    LapFits(ring, f, n);
  }

  lemma Found(m: Memory, base: nat, ring: seq<Block>, live: set<Block>, brk: nat, owned: set<nat>,
              freep: nat, n: nat, f: nat, j: nat, prevp: nat, p: nat) returns (k: nat)
    requires Layout(base, ring, live, brk, owned) && Headers(m, ring, live) && 0 < n
    requires At(ring, freep, n, f, j, prevp, p) && p < |m| && m[p].size >= n
    ensures 1 <= k < |ring| && ring[k].addr == p && ring[k - 1].addr == prevp && ring[k].size >= n
    ensures FirstFitEnd(ring, freep, n, ring[k].End())
  {
    LapStep(m, ring, f, j);
    k := LapPlace(ring, f, j);
    FirstFitAt(ring, freep, n, f, j);
  }

  lemma UntouchedTrans(m0: Memory, m1: Memory, m2: Memory, base: nat, o1: set<nat>, o2: set<nat>, live: set<Block>)
    requires Untouched(m0, m1, base, o1, live) && Untouched(m1, m2, base, o2, live) && o1 <= o2
    ensures Untouched(m0, m2, base, o2, live)
  {
  }

  /** Writing into the payload of a live block disturbs no header and no other block. */
  lemma PayloadWrite(m: Memory, m': Memory, base: nat, ring: seq<Block>, live: set<Block>, brk: nat, owned: set<nat>,
                     b: Block)
    requires Layout(base, ring, live, brk, owned) && Headers(m, ring, live) && b in live && brk <= |m| == |m'|
    requires forall u | 0 <= u < |m| && !(b.addr < u < b.End()) :: m'[u] == m[u]
    ensures Headers(m', ring, live) && Untouched(m, m', base, owned, live - {b})
  {
    assert b in Elements(ring) + live && b.addr in b.Units();
    forall i | 0 <= i < |ring| ensures !(b.addr < ring[i].addr < b.End()) {
      assert ring[i] in Elements(ring) && Disjoint(ring[i], b);
    }
    forall x | x in live && x != b ensures !(b.addr < x.addr < b.End()) {
      assert Disjoint(x, b);
    }
    forall u | b.addr < u < b.End() ensures u in owned && u !in AllUnits(live - {b}) {
      assert u in b.Units();
      forall x | x in live - {b} ensures u !in x.Units() {
        assert Disjoint(x, b);
      }
    }
  }

  lemma QuotientBelow(t: nat, w: nat, n: nat, size: nat)
    requires 0 < size && t == n * size && 0 < w <= t
    ensures t % w / size != n
  {
    var r := t % w;
    assert r < t;
    var q := r / size;
    assert q * size <= r;
    if q == n {
      assert false;
    }
  }

  lemma QuotientOfProduct(n: nat, size: nat)
    requires 0 < size
    ensures n * size / size == n
  {
    var t := n * size;
    var q, r := t / size, t % size;
    var d := n - q;
    assert d * size == r;
    assert d >= 1 ==> d * size >= size;
    assert d <= -1 ==> d * size + size <= 0;
  }

  /** The wrap-around test of calloc is exact. */
  lemma OverflowTest(n: nat, size: nat)
    requires n < WORD && size < WORD
    ensures (size != 0 && n * size % WORD / size != n) <==> n * size >= WORD
  {
    if size == 0 {
      assert n * size == 0;
    } else if n * size >= WORD {
      QuotientBelow(n * size, WORD, n, size);
    } else {
      QuotientOfProduct(n, size);
    }
  }

  /** The payload holds the request, except for the last few sizes, where the 32-bit sum wraps. */
  lemma PayloadCovers(nbytes: nat)
    requires nbytes < WORD
    ensures 8 * (UnitsFor(nbytes) - 1) >= nbytes <==> nbytes == 0 || nbytes + 7 < WORD
    ensures 8 * (UnitsFor(nbytes) - 1) < nbytes + 8
  {
  }

  lemma LivePair(base: nat, ring: seq<Block>, live: set<Block>, brk: nat, owned: set<nat>, x: Block, y: Block)
    requires Layout(base, ring, live, brk, owned) && x in live && y in live && x != y
    ensures Disjoint(x, y)
  {
  }

  lemma Kept(m: Memory, m': Memory, base: nat, owned: set<nat>, live: set<Block>, b: Block)
    requires Untouched(m, m', base, owned, live) && b in live && base < b.addr && b.End() <= |m|
    ensures m'[b.addr..b.End()] == m[b.addr..b.End()]
  {
    forall u | b.addr <= u < b.End() ensures m'[u] == m[u] {
      assert u in b.Units();
    }
  }

  ghost predicate Copied(m: Memory, m': Memory, src: nat, dst: nat, n: nat) {
    src + n <= |m| && dst + n <= |m'| && m'[dst..dst + n] == m[src..src + n]
  }

  lemma CopiedPayload(m0: Memory, m1: Memory, m2: Memory, m3: Memory, b: Block, n: Block)
    requires b.End() <= |m0| && n.End() <= |m0| && |m0| == |m1| == |m2| == |m3| && 0 < b.size <= n.size
    requires m1[b.addr..b.End()] == m0[b.addr..b.End()] && m3[n.addr..n.End()] == m2[n.addr..n.End()]
    requires forall u | n.addr + 1 <= u < n.addr + b.size :: m2[u] == m1[u - n.addr + b.addr]
    ensures Copied(m0, m3, b.addr + 1, n.addr + 1, b.size - 1)
  {
    SubSlice(m3, n, b.size);
    SubSlice(m2, n, b.size);
    SubSlice(m1, b, b.size);
    SubSlice(m0, b, b.size);
    assert m2[n.addr + 1..n.addr + b.size] == m1[b.addr + 1..b.End()];
  }

  lemma SubSlice(m: Memory, b: Block, k: nat)
    requires 0 < k <= b.size && b.End() <= |m|
    ensures m[b.addr..b.End()][1..k] == m[b.addr + 1..b.addr + k]
  {
    var all := m[b.addr..b.End()];
    var s, t := all[1..k], m[b.addr + 1..b.addr + k];
    forall i | 0 <= i < k - 1 ensures s[i] == t[i] {
      assert s[i] == all[1 + i] == m[b.addr + 1 + i];
    }
  }

  lemma CopiedTrans(m0: Memory, m1: Memory, m2: Memory, b: Block, dst: nat)
    requires 0 < b.size && b.End() <= |m0| == |m1| && m1[b.addr..b.End()] == m0[b.addr..b.End()]
    requires Copied(m1, m2, b.addr + 1, dst, b.size - 1)
    ensures Copied(m0, m2, b.addr + 1, dst, b.size - 1)
  {
    SubSlice(m0, b, b.size);
    SubSlice(m1, b, b.size);
  }

  lemma KeptHeader(m: Memory, m': Memory, b: Block)
    requires 0 < b.size && b.End() <= |m| == |m'| && m'[b.addr..b.End()] == m[b.addr..b.End()]
    ensures m'[b.addr] == m[b.addr]
  {
    assert m'[b.addr..b.End()][0] == m[b.addr..b.End()][0];
  }

  lemma Weaken(m: Memory, m': Memory, base: nat, owned: set<nat>, live: set<Block>, some: set<Block>)
    requires Untouched(m, m', base, owned, live) && some <= live
    ensures Untouched(m, m', base, owned, some)
  {
  }

  /** One sbrk call: how many units were asked for, and whether they came. */
  datatype Growth = Growth(units: nat, granted: bool)

  /** What is asked for when n units are needed. */
  function Chunk(n: nat): nat {
    if n < 1024 then 1024 else n
  }

  /** The one call that a request without a fit makes. */
  ghost predicate Grows(before: seq<Growth>, after: seq<Growth>, n: nat, granted: bool) {
    after == before + [Growth(if n < 1024 then 1024 else n, granted)]
  }

  class Heap {
    const base: nat
    const mem: array<Unit>
    var freep: nat
    var brk: nat
    ghost var ring: seq<Block>
    ghost var live: set<Block>
    ghost var owned: set<nat>
    ghost var kernel: seq<Growth>  // the sbrk calls so far

    ghost predicate Valid()
      reads this, mem
    {
      && 0 < base < brk <= mem.Length < ADDRESS_UNITS
      && Layout(base, ring, live, brk, owned)
      && if freep == 0 then ring == [Block(base, 0)] && live == {} else Linked()
    }

    ghost predicate Linked()
      reads this`ring, this`live, this`freep, mem
    {
      && Headers(mem[..], ring, live)
      && exists f :: 0 <= f < |ring| && ring[f].addr == freep
    }

    ghost predicate IsLive(ap: nat)
      reads this, mem
    {
      0 < ap <= mem.Length && Block(ap - 1, mem[ap - 1].size) in live
    }

    constructor (memory: array<Unit>, sentinel: nat, end: nat)
      requires 0 < sentinel < end <= memory.Length < ADDRESS_UNITS
      ensures Valid() && live == {} && owned == {} && kernel == [] && mem == memory
    {
      base, mem, freep, brk := sentinel, memory, 0, end;
      ring, live, owned, kernel := [Block(sentinel, 0)], {}, {}, [];
    }

    /** The search loop of free: the ring block after which the block at bp belongs. */
    method FindPlace(bp: nat, ghost b: Block) returns (p: nat, ghost k: nat)
      requires Linked() && Coalesced(ring) && |ring| > 0 && bp == b.addr && ring[0].addr < bp
      requires forall i | 0 <= i < |ring| :: ring[i].addr != bp
      ensures Between(ring, k, b) && p == ring[k].addr
    {
      k := PlaceOf(ring, b);
      p := freep;
      ghost var j :| 0 <= j < |ring| && ring[j].addr == freep;
      while !(bp > p && bp < mem[p].next)
        invariant j < |ring| && p == ring[j].addr
        decreases if j <= k then k - j else k + |ring| - j
      {
        if p >= mem[p].next && (bp > p || bp < mem[p].next) { break; }
        p := mem[p].next;
        j := if j + 1 < |ring| then j + 1 else 0;
      }
      PlaceUnique(ring, b, j, k);
    }

    /** The two merge branches of free. */
    method Relink(p: nat, bp: nat, ghost k: nat, ghost b: Block)
      requires Headers(mem[..], ring, live) && Coalesced(ring) && Between(ring, k, b) && ring[k].addr == p
      requires bp < mem.Length && b == Block(bp, mem[bp].size) && ring[k].End() <= bp && ring[0].addr < bp
      requires k + 1 < |ring| ==> b.End() <= ring[k + 1].addr && ring[k + 1].End() < WORD
      requires mem.Length < WORD && b.End() < WORD
      modifies mem
      ensures Relinked(old(mem[..]), mem[..], ring, k, b)
    {
      if bp + mem[bp].size == mem[p].next {
        mem[bp] := mem[bp].(size := mem[bp].size + mem[mem[p].next].size);
        mem[bp] := mem[bp].(next := mem[mem[p].next].next);
      } else {
        mem[bp] := mem[bp].(next := mem[p].next);
      }
      assert mem[bp].size == WithAbove(ring, k, b).size;
      if p + mem[p].size == bp {
        mem[p] := mem[p].(size := mem[p].size + mem[bp].size);
        mem[p] := mem[p].(next := mem[bp].next);
      } else {
        mem[p] := mem[p].(next := bp);
      }
    }

    /** free past its NULL test: the block whose header is at bp goes back to the ring. */
    method Release(bp: nat)
      requires Valid() && freep != 0 && IsLive(bp + 1)
      modifies this`freep, this`ring, this`live, mem
      ensures Valid() && freep != 0
      ensures var b := old(Block(bp, mem[bp].size));
              && live == old(live) - {b}
              && exists k: nat ::
                   Between(old(ring), k, b) && ring == Inserted(old(ring), k, b) && freep == old(ring)[k].addr
      ensures Untouched(old(mem[..]), mem[..], base, owned, live)
    {
      hide Layout, Headers, Untouched, Relinked, Inserted, Coalesced;
      ghost var b := Block(bp, mem[bp].size);
      ghost var m := mem[..];
      LiveBounds(base, ring, live, brk, owned, b);
      var p;
      ghost var k;
      p, k := FindPlace(bp, b);
      FitsBetween(base, ring, live, brk, owned, k, b);
      RingBounds(base, ring, live, brk, owned, k);
      Relink(p, bp, k, b);
      FreeHeaders(m, mem[..], ring, live, k, b);
      FreeLayout(base, ring, live, brk, owned, k, b);
      FreeUntouched(m, mem[..], base, ring, live, brk, owned, k, b);
      InsertedAt(ring, k, b);
      ring, live := Inserted(ring, k, b), live - {b};
      freep := p;
    }

    method Free(ap: nat)
      requires Valid() && (ap != 0 ==> IsLive(ap))
      modifies this`freep, this`ring, this`live, mem
      ensures Valid()
      ensures ap == 0 ==> ring == old(ring) && live == old(live) && freep == old(freep)
      ensures ap != 0 ==> var b := old(Block(ap - 1, mem[ap - 1].size));
                          && live == old(live) - {b}
                          && exists k: nat :: Between(old(ring), k, b) && ring == Inserted(old(ring), k, b)
      ensures Untouched(old(mem[..]), mem[..], base, owned, live) && (ap == 0 ==> mem[..] == old(mem[..]))
    {
      hide Untouched, Layout, Linked, Inserted;
      if ap == 0 {
        UntouchedBySame(mem[..], base, owned, live);
        return;
      }
      Release(ap - 1);
    }

    /** The kernel either refuses or maps n fresh units above everything it mapped before. */
    method SysSbrk(n: nat) returns (up: int)
      requires brk <= mem.Length && 0 < n < INT_UNITS
      modifies this`brk, this`kernel
      ensures brk <= mem.Length
      ensures kernel == old(kernel) + [Growth(n, up != -1)]
      ensures if up == -1 then brk == old(brk) else old(brk) <= up && up + n == brk
    {
      if brk + n > mem.Length {
        up := -1;
      } else if * {
        up := -1;
      } else {
        var gap :| 0 <= gap <= mem.Length - brk - n;
        up := brk + gap;
        brk := up + n;
      }
      kernel := kernel + [Growth(n, up != -1)];
    }

    method MoreCore(n: nat) returns (up: nat)
      requires Valid() && freep != 0 && 0 < n < INT_UNITS
      modifies this`freep, this`ring, this`live, this`owned, this`brk, this`kernel, mem
      ensures Valid() && freep != 0 && live == old(live)
      ensures kernel == old(kernel) + [Growth(Chunk(n), up != 0)]
      ensures up == 0 ==> freep == old(freep) && ring == old(ring) && owned == old(owned) && mem[..] == old(mem[..])
      ensures up != 0 ==> up == freep && HasFit(ring, n)
      ensures up != 0 ==> exists cp :: old(brk) <= cp && owned == old(owned) + Block(cp, Chunk(n)).Units()
      ensures Grew(old(owned), owned, old(brk)) && old(owned) <= owned
      ensures Untouched(old(mem[..]), mem[..], base, owned, live)
    {
      hide Layout, Untouched, Inserted, HasFit, Linked, Grew;
      ghost var m := mem[..];
      UntouchedBySame(m, base, owned, live);
      GrewBySame(owned, brk);
      var nunits := if n < NALLOC then NALLOC else n;
      var cp := SysSbrk(nunits);
      if cp == -1 { return 0; }
      ghost var b := Block(cp, nunits);
      MapBlock(cp, nunits, old(brk));
      ghost var m1 := mem[..];
      Release(cp);
      GrowUntouched(m, m1, mem[..], base, old(owned), old(live), b);
      assert live == old(live);
      ghost var k: nat :| Between(old(ring), k, b) && ring == Inserted(old(ring), k, b);
      InsertedFits(old(ring), k, b, n);
      up := freep;
    }

    /** The fresh region gets a header and, until it is freed, counts as a live block. */
    method MapBlock(cp: nat, n: nat, ghost before: nat)
      requires 0 < base < before <= cp && cp + n == brk <= mem.Length < ADDRESS_UNITS && 0 < n && freep != 0
      requires Layout(base, ring, live, before, owned) && Linked()
      modifies this`live, this`owned, mem
      ensures Valid() && IsLive(cp + 1) && mem[cp].size == n
      ensures live == old(live) + {Block(cp, n)} && owned == old(owned) + Block(cp, n).Units()
      ensures old(live) == live - {Block(cp, n)}
      ensures old(owned) !! Block(cp, n).Units() && cp in Block(cp, n).Units() && AllUnits(old(live)) <= old(owned)
      ensures forall u | 0 <= u < mem.Length && u != cp :: mem[..][u] == old(mem[..])[u]
      ensures Grew(old(owned), owned, before)
    {
      hide Layout, AllUnits, Headers;
      ghost var m := mem[..];
      mem[cp] := mem[cp].(size := n);
      Grown(m, mem[..], base, ring, live, before, owned, Block(cp, n));
      live, owned := live + {Block(cp, n)}, owned + Block(cp, n).Units();
    }

    /** Exact fit: unlink the block at p, which follows prevp in the ring. */
    method Unlink(prevp: nat, p: nat, ghost k: nat)
      requires Valid() && freep != 0 && 1 <= k < |ring| && ring[k].addr == p && ring[k - 1].addr == prevp
      modifies this`freep, this`ring, this`live, mem
      ensures Valid() && freep == prevp && freep != 0
      ensures live == old(live) + {old(ring)[k]} && ring == Splice(old(ring), k - 1, k + 1, [old(ring)[k - 1]])
      ensures p < mem.Length && mem[p].size == old(ring)[k].size
      ensures Untouched(old(mem[..]), mem[..], base, owned, old(live))
    {
      hide Layout, Headers, Untouched, AllUnits, Splice;
      ghost var m := mem[..];
      RingBounds(base, ring, live, brk, owned, k);
      RingBounds(base, ring, live, brk, owned, k - 1);
      RingHeader(m, ring, live, k);
      RingHeader(m, ring, live, k - 1);
      mem[prevp] := mem[prevp].(next := mem[p].next);
      TakeWhole(base, ring, live, brk, owned, k);
      TakeWholeInMemory(m, mem[..], base, ring, live, brk, owned, k);
      live := live + {ring[k]};
      ring := Splice(ring, k - 1, k + 1, [ring[k - 1]]);
      SpliceKeeps(old(ring), k - 1, k + 1, [old(ring)[k - 1]]);
      freep := prevp;
      assert ring[k - 1].addr == freep;
    }

    /** Split off the last n units of the block at p. */
    method SplitOff(prevp: nat, p: nat, n: nat, ghost k: nat) returns (q: nat)
      requires Valid() && freep != 0 && 1 <= k < |ring| && ring[k].addr == p && ring[k - 1].addr == prevp
      requires 0 < n < ring[k].size
      modifies this`freep, this`ring, this`live, mem
      ensures Valid() && freep == prevp && freep != 0
      ensures q + n == old(ring)[k].End() && q < mem.Length && mem[q].size == n && live == old(live) + {Block(q, n)}
      ensures ring == Splice(old(ring), k, k + 1, [Block(p, old(ring)[k].size - n)])
      ensures Untouched(old(mem[..]), mem[..], base, owned, old(live))
    {
      hide Layout, Headers, Untouched, AllUnits, Splice;
      ghost var m, b := mem[..], ring[k];
      RingBounds(base, ring, live, brk, owned, k);
      RingBounds(base, ring, live, brk, owned, k - 1);
      RingHeader(m, ring, live, k);
      mem[p] := mem[p].(size := mem[p].size - n);
      q := p + mem[p].size;
      mem[q] := mem[q].(size := n);
      ghost var front, tail := Block(p, b.size - n), Block(q, n);
      TakeTail(base, ring, live, brk, owned, k, front, tail);
      TakeTailInMemory(m, mem[..], base, ring, live, brk, owned, k, front, tail);
      live := live + {tail};
      ring := Splice(ring, k, k + 1, [front]);
      SpliceKeeps(old(ring), k, k + 1, [front]);
      freep := prevp;
      assert ring[k - 1].addr == freep;
    }

    /** Takes n units from the block at p, which follows prevp in the ring. */
    method Take(prevp: nat, p: nat, n: nat, ghost k: nat) returns (q: nat)
      requires Valid() && freep != 0 && 1 <= k < |ring| && ring[k].addr == p && ring[k - 1].addr == prevp
      requires 0 < n <= ring[k].size
      modifies this`freep, this`ring, this`live, mem
      ensures Valid() && freep != 0
      ensures q + n == old(ring)[k].End() && q < mem.Length && mem[q].size == n && freep == prevp
      ensures Fresh(Block(q, n), old(live), live, owned)
      ensures Untouched(old(mem[..]), mem[..], base, owned, old(live))
    {
      hide Layout, Headers, AllUnits, Untouched, Splice;
      RingBounds(base, ring, live, brk, owned, k);
      TailApart(base, ring, live, brk, owned, k, Block(ring[k].End() - n, n));
      RingHeader(mem[..], ring, live, k);
      q := p;
      if mem[p].size == n {
        Unlink(prevp, p, k);
      } else {
        q := SplitOff(prevp, p, n, k);
      }
    }

    /** First use: the sentinel becomes a ring of one. */
    method Start()
      requires Valid()
      modifies this`freep, mem
      ensures Valid() && freep != 0 && (old(freep) != 0 ==> freep == old(freep))
      ensures Untouched(old(mem[..]), mem[..], base, owned, live)
    {
      if freep == 0 {
        mem[base] := Unit(base, 0);
        freep := base;
        assert ring[0].addr == freep;
      }
    }

    /** The search loop of malloc: the first block with n units and the one before it, growing the
        heap once if needed. */
    method Search(n: nat) returns (prevp: nat, p: nat, ghost k: nat)
      requires Valid() && freep != 0 && 0 < n && (n < INT_UNITS || HasFit(ring, n))
      modifies this`freep, this`ring, this`live, this`owned, this`brk, this`kernel, mem
      ensures Valid() && freep != 0 && live == old(live)
      ensures kernel == if HasFit(old(ring), n) then old(kernel) else old(kernel) + [Growth(Chunk(n), p != 0)]
      ensures p != 0 ==> 1 <= k < |ring| && ring[k].addr == p && ring[k - 1].addr == prevp && ring[k].size >= n
      ensures p == 0 ==> ring == old(ring) && owned == old(owned)
      ensures HasFit(old(ring), n) ==>
                p != 0 && ring == old(ring) && owned == old(owned) && brk == old(brk)
                    && FirstFitEnd(ring, old(freep), n, ring[k].End())
      ensures Grew(old(owned), owned, old(brk))
      ensures Untouched(old(mem[..]), mem[..], base, owned, live)
    {
      hide Valid, Untouched, HasFit, Grew, FirstFitEnd, At;
      GrewBySame(owned, brk);
      UntouchedBySame(mem[..], base, owned, live);
      k := 0;
      ghost var grown, j := false, 0;
      ghost var f := Begin(n);
      prevp := freep;
      p := mem[prevp].next;
      while true
        invariant Valid() && freep != 0 && live == old(live)
        invariant At(ring, freep, n, f, j, prevp, p) && j <= |ring|
        invariant !grown ==> ring == old(ring) && owned == old(owned) && brk == old(brk) && kernel == old(kernel)
        invariant !grown ==> freep == old(freep)
        invariant grown ==> kernel == old(kernel) + [Growth(Chunk(n), true)] && HasFit(ring, n) && !HasFit(old(ring), n)
        invariant Grew(old(owned), owned, old(brk))
        invariant Untouched(old(mem[..]), mem[..], base, owned, live)
        decreases if grown then 0 else 1, |ring| - j
      {
        LookAt(n, f, j, prevp, p);
        if mem[p].size >= n {
          k := FoundAt(n, f, j, prevp, p);
          return;
        }
        j := j + 1;
        if p == freep {
          ghost var m, o := mem[..], owned;
          p := MoreCore(n);
          UntouchedTrans(old(mem[..]), m, mem[..], base, o, owned, live);
          if p == 0 { return; }
          f := Begin(n);
          grown, j := true, 0;
        }
        prevp, p := p, mem[p].next;
      }
    }

    lemma Begin(n: nat) returns (f: nat)
      requires Valid() && freep != 0
      ensures freep < mem.Length && At(ring, freep, n, f, 0, freep, mem[freep].next)
    {
      hide At;
      LayoutOrder(base, ring, live, brk, owned);
      f := StartLap(mem[..], ring, live, freep, n);
    }

    lemma LookAt(n: nat, f: nat, j: nat, prevp: nat, p: nat)
      requires Valid() && freep != 0 && 0 < n && At(ring, freep, n, f, j, prevp, p)
      ensures j < |ring| && p < mem.Length && (mem[p].size >= n ==> HasFit(ring, n))
      ensures mem[p].size < n && p == freep ==> !HasFit(ring, n)
      ensures mem[p].size < n && p != freep ==> At(ring, freep, n, f, j + 1, p, mem[p].next)
    {
      assert j < |ring|;
      hide At;
      LayoutOrder(base, ring, live, brk, owned);
      Look(mem[..], ring, live, freep, n, f, j, prevp, p);
    }

    lemma FoundAt(n: nat, f: nat, j: nat, prevp: nat, p: nat) returns (k: nat)
      requires Valid() && freep != 0 && 0 < n && At(ring, freep, n, f, j, prevp, p) && p < mem.Length
               && mem[p].size >= n
      ensures 1 <= k < |ring| && ring[k].addr == p && p != 0 && ring[k - 1].addr == prevp && ring[k].size >= n
      ensures FirstFitEnd(ring, freep, n, ring[k].End())
    {
      hide At;
      k := Found(mem[..], base, ring, live, brk, owned, freep, n, f, j, prevp, p);
      RingBounds(base, ring, live, brk, owned, k);
    }

    method Malloc(nbytes: nat) returns (ap: nat)
      requires Valid() && nbytes < WORD
      requires UnitsFor(nbytes) < INT_UNITS || HasFit(ring, UnitsFor(nbytes))
      modifies this`freep, this`ring, this`live, this`owned, this`brk, this`kernel, mem
      ensures Valid() && freep != 0
      ensures ap != 0 ==> ap <= mem.Length && mem[ap - 1].size == UnitsFor(nbytes)
                          && Fresh(Block(ap - 1, UnitsFor(nbytes)), old(live), live, owned)
      ensures ap == 0 ==> live == old(live) && ring == old(ring) && owned == old(owned)
      ensures ap == 0 ==> Grows(old(kernel), kernel, UnitsFor(nbytes), false)
      ensures if HasFit(old(ring), UnitsFor(nbytes)) then kernel == old(kernel)
              else Grows(old(kernel), kernel, UnitsFor(nbytes), ap != 0)
      ensures HasFit(old(ring), UnitsFor(nbytes)) && old(freep) != 0 ==>
                ap != 0 && owned == old(owned) && brk == old(brk)
                && FirstFitEnd(old(ring), old(freep), UnitsFor(nbytes), ap - 1 + UnitsFor(nbytes))
                && (exists k :: 1 <= k < |old(ring)| && old(ring)[k].End() == ap - 1 + UnitsFor(nbytes)
                                && freep == old(ring)[k - 1].addr)
      ensures Grew(old(owned), owned, old(brk))
      ensures Untouched(old(mem[..]), mem[..], base, owned, old(live))
    {
      hide Layout, Headers, Untouched, HasFit, Fresh, Grew, FirstFitEnd;
      var nunits := UnitsFor(nbytes);
      Start();
      ghost var m1 := mem[..];
      var prevp, p;
      ghost var k;
      prevp, p, k := Search(nunits);
      ghost var m2 := mem[..];
      GrewSubset(old(owned), owned, old(brk));
      UntouchedTrans(old(mem[..]), m1, m2, base, old(owned), owned, live);
      if p == 0 { return 0; }
      p := Take(prevp, p, nunits, k);
      UntouchedTrans(old(mem[..]), m2, mem[..], base, owned, owned, old(live));
      ap := p + 1;
    }

    /** memcpy of whole units between two regions that do not overlap. */
    method MemCpy(dst: nat, src: nat, n: nat)
      requires dst + n <= mem.Length && src + n <= mem.Length && (dst + n <= src || src + n <= dst)
      modifies mem
      ensures forall u | dst <= u < dst + n :: mem[u] == old(mem[u - dst + src])
      ensures forall u | 0 <= u < mem.Length && !(dst <= u < dst + n) :: mem[u] == old(mem[u])
    {
      for i := 0 to n
        invariant forall u | dst <= u < dst + i :: mem[u] == old(mem[u - dst + src])
        invariant forall u | 0 <= u < mem.Length && !(dst <= u < dst + i) :: mem[u] == old(mem[u])
      {
        mem[dst + i] := mem[src + i];
      }
    }

    /** memset(p, v, n): byte k of the region is byte k % 8 of unit k / 8. */
    method MemSet(p: nat, v: nat, n: nat)
      requires v < 256 && p + (n + 7) / 8 <= mem.Length
      modifies mem
      ensures forall k | 0 <= k < n :: ByteAt(mem[p + k / 8], k % 8) == v
      ensures forall u | 0 <= u < mem.Length && !(p <= u < p + (n + 7) / 8) :: mem[u] == old(mem[u])
    {
      for i := 0 to n
        invariant forall k | 0 <= k < i :: ByteAt(mem[p + k / 8], k % 8) == v
        invariant forall u | 0 <= u < mem.Length && !(p <= u < p + (n + 7) / 8) :: mem[u] == old(mem[u])
      {
        ghost var u := mem[p + i / 8];
        mem[p + i / 8] := SetByte(mem[p + i / 8], i % 8, v);
        forall k | 0 <= k <= i ensures ByteAt(mem[p + k / 8], k % 8) == v {
          SetByteAt(u, i % 8, v, k % 8);
        }
      }
    }

    /** ap is a new block beside the `others`, and its first `bytes` bytes are zero. */
    ghost predicate IsZeroed(ap: nat, bytes: nat, others: set<Block>)
      reads this, mem
      requires ap != 0
    {
      var b := Block(ap - 1, UnitsFor(bytes));
      && b !in others && live == others + {b} && b.End() <= mem.Length && bytes <= 8 * (b.size - 1)
      && forall k | 0 <= k < bytes :: ByteAt(mem[ap + k / 8], k % 8) == 0
    }

    method Calloc(n: nat, size: nat) returns (ap: nat)
      requires Valid() && n < WORD && size < WORD
      requires n * size < WORD ==> n * size + 7 < WORD
      requires n * size < WORD ==> UnitsFor(n * size) < INT_UNITS || HasFit(ring, UnitsFor(n * size))
      modifies this`freep, this`ring, this`live, this`owned, this`brk, this`kernel, mem
      ensures Valid()
      ensures n * size >= WORD ==> ap == 0 && live == old(live) && ring == old(ring) && kernel == old(kernel)
      ensures n * size < WORD ==> if HasFit(old(ring), UnitsFor(n * size)) then kernel == old(kernel)
              else Grows(old(kernel), kernel, UnitsFor(n * size), ap != 0)
      ensures ap == 0 ==> live == old(live) && ring == old(ring) && owned == old(owned)
      ensures ap == 0 && n * size < WORD ==> Grows(old(kernel), kernel, UnitsFor(n * size), false)
      ensures ap != 0 ==> n * size < WORD && IsZeroed(ap, n * size, old(live))
      ensures Untouched(old(mem[..]), mem[..], base, owned, old(live))
    {
      hide Layout, Linked, Untouched, HasFit, AllUnits, ByteAt, UnitsFor;
      OverflowTest(n, size);
      UntouchedBySame(mem[..], base, owned, live);
      var bytes := n * size % WORD;
      if size != 0 && bytes / size != n { return 0; }
      ap := CallocBytes(bytes);
    }

    method CallocBytes(bytes: nat) returns (ap: nat)
      requires Valid() && bytes + 7 < WORD && (UnitsFor(bytes) < INT_UNITS || HasFit(ring, UnitsFor(bytes)))
      modifies this`freep, this`ring, this`live, this`owned, this`brk, this`kernel, mem
      ensures Valid()
      ensures if HasFit(old(ring), UnitsFor(bytes)) then kernel == old(kernel)
              else Grows(old(kernel), kernel, UnitsFor(bytes), ap != 0)
      ensures ap == 0 ==> live == old(live) && ring == old(ring) && owned == old(owned)
      ensures ap == 0 ==> Grows(old(kernel), kernel, UnitsFor(bytes), false)
      ensures ap != 0 ==> IsZeroed(ap, bytes, old(live))
      ensures Untouched(old(mem[..]), mem[..], base, owned, old(live))
    {
      hide Layout, Headers, Untouched, HasFit, AllUnits, ByteAt;
      ap := Malloc(bytes);
      if ap != 0 {
        ghost var m, b := mem[..], Block(ap - 1, UnitsFor(bytes));
        LiveBounds(base, ring, live, brk, owned, b);
        MemSet(ap, 0, bytes);
        PayloadWrite(m, mem[..], base, ring, live, brk, owned, b);
        assert live - {b} == old(live);
        UntouchedTrans(old(mem[..]), m, mem[..], base, owned, owned, old(live));
      }
    }

    /** Where realloc may leave the caller: the old block gone, kept, or copied into a new one. */
    method Realloc(oldp: nat, size: nat) returns (ap: nat)
      requires Valid() && (oldp != 0 ==> IsLive(oldp)) && size < WORD
      requires oldp == 0 || size > 8 * (mem[oldp - 1].size - 1) ==>
               UnitsFor(size) < INT_UNITS || HasFit(ring, UnitsFor(size))
      requires oldp != 0 && size > 8 * (mem[oldp - 1].size - 1) ==> size + 7 < WORD
      modifies this`freep, this`ring, this`live, this`owned, this`brk, this`kernel, mem
      ensures Valid()
      ensures oldp == 0 ==> if HasFit(old(ring), UnitsFor(size)) then kernel == old(kernel)
              else Grows(old(kernel), kernel, UnitsFor(size), ap != 0)
      ensures oldp == 0 && HasFit(old(ring), UnitsFor(size)) && old(freep) != 0 ==> ap != 0
      ensures oldp == 0 ==> if ap == 0 then live == old(live) && ring == old(ring)
                            else var n := Block(ap - 1, UnitsFor(size)); n !in old(live) && live == old(live) + {n}
      ensures oldp != 0 && size <= 8 * (old(mem[oldp - 1].size) - 1) ==> kernel == old(kernel)
      ensures oldp != 0 && size == 0 ==> ap == 0 && live == old(live) - {old(Block(oldp - 1, mem[oldp - 1].size))}
      ensures oldp != 0 && size != 0 ==> var b := old(Block(oldp - 1, mem[oldp - 1].size));
              if size <= 8 * (b.size - 1) then ap == oldp && live == old(live) && mem[..] == old(mem[..])
              else if ap == 0 then live == old(live) && ring == old(ring)
                   && Grows(old(kernel), kernel, UnitsFor(size), false)
              else Moved(ap, UnitsFor(size), b, old(live)) && Copied(old(mem[..]), mem[..], oldp, ap, b.size - 1)
                   && if HasFit(old(ring), UnitsFor(size)) then kernel == old(kernel)
                      else Grows(old(kernel), kernel, UnitsFor(size), true)
      ensures Untouched(old(mem[..]), mem[..], base, owned, old(live) * live)
    {
      hide Layout, Headers, Untouched, HasFit, AllUnits, UnitsFor, Copied;
      UntouchedBySame(mem[..], base, owned, live);
      if oldp == 0 {
        ap := Malloc(size);
        assert old(live) * live == old(live);
        return;
      }
      if size == 0 {
        Free(oldp);
        assert old(live) * live == live;
        return 0;
      }
      var bp := oldp - 1;
      var payload := (mem[bp].size - 1) * 8;
      if size <= payload {
        assert old(live) * live == live;
        return oldp;
      }
      ap := Move(oldp, size);
    }

    lemma Sound()
      requires Valid()
      ensures 0 < base < brk <= mem.Length && Layout(base, ring, live, brk, owned) && (live != {} ==> freep != 0)
    {
    }

    method Move(oldp: nat, size: nat) returns (ap: nat)
      requires Valid() && IsLive(oldp) && 8 * (mem[oldp - 1].size - 1) < size && size + 7 < WORD
      requires UnitsFor(size) < INT_UNITS || HasFit(ring, UnitsFor(size))
      modifies this`freep, this`ring, this`live, this`owned, this`brk, this`kernel, mem
      ensures Valid()
      ensures var b := old(Block(oldp - 1, mem[oldp - 1].size));
              if ap == 0 then live == old(live) && ring == old(ring)
                   && Grows(old(kernel), kernel, UnitsFor(size), false)
              else Moved(ap, UnitsFor(size), b, old(live)) && Copied(old(mem[..]), mem[..], oldp, ap, b.size - 1)
                   && if HasFit(old(ring), UnitsFor(size)) then kernel == old(kernel)
                      else Grows(old(kernel), kernel, UnitsFor(size), true)
      ensures Untouched(old(mem[..]), mem[..], base, owned, old(live) * live)
    {
      hide Valid, Layout, Untouched, HasFit, AllUnits, UnitsFor, Copied;
      ghost var m0, b, o := mem[..], Block(oldp - 1, mem[oldp - 1].size), owned;
      Sound();
      var units := mem[oldp - 1].size - 1;
      LiveBounds(base, ring, live, brk, owned, b);
      assert base < b.addr && b.End() <= |m0| && b in live;
      PayloadCovers(size);
      ap := Malloc(size);
      if ap == 0 {
        assert old(live) * live == old(live);
        return;
      }
      ghost var m1, n, rest := mem[..], Block(ap - 1, UnitsFor(size)), old(live) - {b};
      Sound();
      LiveBounds(base, ring, live, brk, owned, n);
      LivePair(base, ring, live, brk, owned, b, n);
      Kept(m0, m1, base, owned, old(live), b);
      CopyAndFree(oldp, ap, units);
      assert live == rest + {n} && old(live) * live == rest && live - {n} == rest;
      Weaken(m0, m1, base, owned, old(live), rest);
      UntouchedTrans(m0, m1, mem[..], base, owned, owned, rest);
      CopiedTrans(m0, m1, mem[..], b, ap);
    }

    /** The end of realloc: n payload units go from the block at oldp to the one at newp, then the
        old block is freed. */
    method CopyAndFree(oldp: nat, newp: nat, n: nat)
      requires Valid() && IsLive(oldp) && IsLive(newp) && oldp != newp
      requires 1 + n == mem[oldp - 1].size <= mem[newp - 1].size
      modifies this`freep, this`ring, this`live, mem
      ensures Valid() && live == old(live) - {old(Block(oldp - 1, mem[oldp - 1].size))}
      ensures mem[newp - 1].size == old(mem[newp - 1].size)
      ensures Copied(old(mem[..]), mem[..], oldp, newp, n)
      ensures Untouched(old(mem[..]), mem[..], base, owned, live - {Block(newp - 1, old(mem[newp - 1].size))})
    {
      hide Valid, Layout, Untouched, AllUnits, Copied, Between, Inserted;
      Sound();
      ghost var m1, b, t := mem[..], Block(oldp - 1, mem[oldp - 1].size), Block(newp - 1, mem[newp - 1].size);
      LiveBounds(base, ring, live, brk, owned, b);
      LiveBounds(base, ring, live, brk, owned, t);
      CopyPayload(oldp, newp, n);
      ghost var m2 := mem[..];
      assert m2[t.addr] == m1[t.addr];
      Free(oldp);
      Kept(m2, mem[..], base, owned, live, t);
      CopiedPayload(m1, m1, m2, mem[..], b, t);
      KeptHeader(m2, mem[..], t);
      Weaken(m1, m2, base, owned, old(live) - {t}, live - {t});
      Weaken(m2, mem[..], base, owned, live, live - {t});
      UntouchedTrans(m1, m2, mem[..], base, owned, owned, live - {t});
    }

    method CopyPayload(oldp: nat, newp: nat, n: nat)
      requires Valid() && IsLive(oldp) && IsLive(newp) && oldp != newp
      requires 1 + n == mem[oldp - 1].size <= mem[newp - 1].size
      modifies mem
      ensures Valid()
      ensures mem[oldp - 1] == old(mem[oldp - 1]) && mem[newp - 1] == old(mem[newp - 1])
      ensures forall u | newp <= u < newp + n :: mem[..][u] == old(mem[..])[u - newp + oldp]
      ensures Untouched(old(mem[..]), mem[..], base, owned, live - {Block(newp - 1, old(mem[newp - 1].size))})
    {
      hide Layout, Headers, Untouched, AllUnits;
      ghost var m, b, t := mem[..], Block(oldp - 1, mem[oldp - 1].size), Block(newp - 1, mem[newp - 1].size);
      LiveBounds(base, ring, live, brk, owned, b);
      LiveBounds(base, ring, live, brk, owned, t);
      LivePair(base, ring, live, brk, owned, b, t);
      MemCpy(newp, oldp, n);
      PayloadWrite(m, mem[..], base, ring, live, brk, owned, t);
    }

    ghost predicate Moved(ap: nat, n: nat, b: Block, before: set<Block>)
      reads this, mem
    {
      && 0 < ap && ap - 1 + n <= mem.Length && b.size < n
      && Block(ap - 1, n) !in before && live == before - {b} + {Block(ap - 1, n)}
    }
  }

  /** Freeing what malloc just returned restores the free list exactly, unless the heap had to grow. */
  method AllocateAndFree(h: Heap, nbytes: nat)
    requires h.Valid() && h.freep != 0 && nbytes < WORD
    requires HasFit(h.ring, UnitsFor(nbytes))
    modifies h, h.mem
    ensures h.Valid() && h.ring == old(h.ring) && h.live == old(h.live) && h.owned == old(h.owned)
    ensures Untouched(old(h.mem[..]), h.mem[..], h.base, h.owned, h.live)
  {
    hide Layout, Headers, Untouched, AllUnits, HasFit;
    var p := h.Malloc(nbytes);
    ghost var m := h.mem[..];
    h.Free(p);
    assert h.live == old(h.live);
    Weaken(m, h.mem[..], h.base, h.owned, h.live, h.live);
    UntouchedTrans(old(h.mem[..]), m, h.mem[..], h.base, h.owned, h.owned, h.live);
    RingIsCanonical(h.base, old(h.ring), h.ring, h.live, h.live, h.brk, h.owned);
  }
}
