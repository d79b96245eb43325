/** Any client of the allocator of lib/libstink_alloc.c: to it the heap is a list of buffers that
    change only when it writes to them. */
module HeapClientModel {
  import opened HeapModel

  // ------------------------------------------------------------------ what a client sees

  /** What a client does next; requests with an index that is not held are not made. */
  datatype Request =
    | Allocate(n: nat, zeroed: bool)
    | Release(i: int)
    | Resize(i: int, n: nat)
    | Store(i: int, k: int, v: Unit)

  type Text = seq<Unit>

  function Without<T>(s: seq<T>, i: nat): seq<T>
    requires i < |s|
  {
    s[..i] + s[i + 1..]
  }

  /** A new buffer has room for n bytes, zeroed or with any contents. */
  ghost predicate NewText(t: Text, n: nat, zeroed: bool) {
    n <= 8 * |t| && (zeroed ==> forall k | 0 <= k < n :: ByteAt(t[k / 8], k % 8) == 0)
  }

  /** How one request changes the buffers; `denied` if it asked for memory and got none. */
  ghost predicate Follows(texts: seq<Text>, r: Request, texts': seq<Text>, denied: bool) {
    match r
    case Allocate(n, zeroed) =>
      if denied then texts' == texts
      else |texts'| == |texts| + 1 && texts'[..|texts|] == texts && NewText(texts'[|texts|], n, zeroed)
    case Release(i) =>
      !denied && texts' == if 0 <= i < |texts| then Without(texts, i) else texts
    case Resize(i, n) =>
      if !(0 <= i < |texts|) then !denied && texts' == texts
      else if n == 0 then !denied && texts' == Without(texts, i)
      else if n <= 8 * |texts[i]| then !denied && texts' == texts
      else if denied then texts' == texts
      else |texts'| == |texts| && texts[i] <= texts'[i] && n <= 8 * |texts'[i]| && texts' == texts[i := texts'[i]]
    case Store(i, k, v) =>
      !denied && texts' == if 0 <= i < |texts| && 0 <= k < |texts[i]| then texts[i := texts[i][k := v]] else texts
  }

  /** Some sbrk call was refused. */
  ghost predicate Refused(calls: seq<Growth>) {
    exists i :: 0 <= i < |calls| && !calls[i].granted
  }

  lemma RefusedOnce(before: seq<Growth>, after: seq<Growth>, n: nat)
    requires Grows(before, after, n, false)
    ensures Refused(after[|before|..])
  {
    assert !after[|before|..][0].granted;
  }

  // ------------------------------------------------------------------ what the heap holds

  /** The payload of b, at p, holds t. */
  ghost predicate HoldsIn(m: Memory, b: Block, p: nat, t: Text) {
    b.addr + 1 == p && 0 < b.size && b.End() <= |m| && m[p..b.End()] == t
  }

  ghost predicate Holds(m: Memory, live: set<Block>, p: nat, t: Text) {
    exists b :: b in live && HoldsIn(m, b, p, t)
  }

  /** The pointers held are payloads of different live blocks with these contents. */
  ghost predicate AllHeld(m: Memory, live: set<Block>, held: seq<nat>, texts: seq<Text>) {
    && |held| == |texts|
    && (forall i | 0 <= i < |held| :: Holds(m, live, held[i], texts[i]))
    && (forall i, j | 0 <= i < j < |held| :: held[i] != held[j])
  }

  lemma LiveAbove(h: Heap)
    requires h.Valid()
    ensures forall b | b in h.live :: h.base < b.addr && 0 < b.size && b.End() <= h.mem.Length
    ensures forall b, c | b in h.live && c in h.live && b != c :: b.addr != c.addr
  {
    hide Layout, Headers;
    forall b | b in h.live
      ensures h.base < b.addr && 0 < b.size && b.End() <= h.mem.Length
      ensures forall c | c in h.live && c != b :: c.addr != b.addr
    {
      LiveBounds(h.base, h.ring, h.live, h.brk, h.owned, b);
    }
  }

  /** The block behind a held pointer. */
  lemma BlockOf(h: Heap, p: nat, t: Text) returns (b: Block)
    requires h.Valid() && Holds(h.mem[..], h.live, p, t)
    ensures b in h.live && HoldsIn(h.mem[..], b, p, t) && h.freep != 0
    ensures 0 < p <= h.mem.Length && b == Block(p - 1, h.mem[p - 1].size) && h.IsLive(p) && |t| == b.size - 1
  {
    b :| b in h.live && HoldsIn(h.mem[..], b, p, t);
    LiveBounds(h.base, h.ring, h.live, h.brk, h.owned, b);
  }

  lemma OneKept(m: Memory, m': Memory, base: nat, owned: set<nat>, live: set<Block>, keep: set<Block>, p: nat, t: Text)
    requires Untouched(m, m', base, owned, keep) && Holds(m, live, p, t)
    requires forall b | b in live && b.addr + 1 == p :: b in keep && base < b.addr
    ensures Holds(m', keep, p, t)
  {
    var b :| b in live && HoldsIn(m, b, p, t);
    Kept(m, m', base, owned, keep, b);
    SubSlice(m, b, b.size);
    SubSlice(m', b, b.size);
    assert HoldsIn(m', b, p, t);
  }

  /** Contents survive whatever leaves their blocks alone. */
  lemma AllKept(m: Memory, m': Memory, base: nat, owned: set<nat>, live: set<Block>, keep: set<Block>,
                held: seq<nat>, texts: seq<Text>)
    requires AllHeld(m, live, held, texts) && Untouched(m, m', base, owned, keep)
    requires forall b | b in live && b.addr + 1 in held :: b in keep && base < b.addr
    ensures AllHeld(m', keep, held, texts)
  {
    hide Untouched, Holds;
    forall i | 0 <= i < |held| ensures Holds(m', keep, held[i], texts[i]) {
      OneKept(m, m', base, owned, live, keep, held[i], texts[i]);
    }
  }

  lemma MoreLive(m: Memory, live: set<Block>, more: set<Block>, held: seq<nat>, texts: seq<Text>)
    requires AllHeld(m, live, held, texts) && live <= more
    ensures AllHeld(m, more, held, texts)
  {
    forall i | 0 <= i < |held| ensures Holds(m, more, held[i], texts[i]) {
      assert Holds(m, live, held[i], texts[i]);
      var b :| b in live && HoldsIn(m, b, held[i], texts[i]);
      assert b in more;
    }
  }

  lemma OneLess(m: Memory, live: set<Block>, held: seq<nat>, texts: seq<Text>, i: nat)
    requires AllHeld(m, live, held, texts) && i < |held|
    ensures AllHeld(m, live, Without(held, i), Without(texts, i)) && held[i] !in Without(held, i)
  {
    hide Holds;
    var rest := Without(held, i);
    forall k | 0 <= k < |rest| ensures Holds(m, live, rest[k], Without(texts, i)[k]) && rest[k] != held[i] {
      var o := if k < i then k else k + 1;
      assert rest[k] == held[o] && Without(texts, i)[k] == texts[o];
    }
  }

  lemma OneMore(m: Memory, live: set<Block>, held: seq<nat>, texts: seq<Text>, p: nat, t: Text)
    requires AllHeld(m, live, held, texts) && Holds(m, live, p, t) && p !in held
    ensures AllHeld(m, live, held + [p], texts + [t])
  {
    hide Holds;
  }

  /** One buffer is put in the place of another. */
  lemma PutBack(m: Memory, live: set<Block>, held: seq<nat>, texts: seq<Text>, i: nat, p: nat, t: Text)
    requires |held| == |texts| && i < |held| && AllHeld(m, live, Without(held, i), Without(texts, i))
    requires Holds(m, live, p, t) && p !in Without(held, i)
    ensures AllHeld(m, live, held[i := p], texts[i := t])
  {
    hide Holds;
    var rest := Without(held, i);
    forall k | 0 <= k < |held| && k != i
      ensures Holds(m, live, held[k], texts[k]) && held[k] != p
    {
      var o := if k < i then k else k - 1;
      assert rest[o] == held[k] && Without(texts, i)[o] == texts[k];
      assert held[k] in rest;
    }
    forall j, k | 0 <= j < k < |held| && j != i && k != i ensures held[j] != held[k] {
      assert rest[if j < i then j else j - 1] == held[j] && rest[if k < i then k else k - 1] == held[k];
    }
  }

  /** The pointer to a new block is none of those held. */
  lemma NewPointer(h: Heap, m: Memory, keep: set<Block>, held: seq<nat>, texts: seq<Text>, n: Block)
    requires h.Valid() && AllHeld(m, keep, held, texts) && keep <= h.live && n in h.live && n !in keep
    ensures n.addr + 1 !in held
  {
    hide Heap.Valid;
    LiveAbove(h);
    forall i | 0 <= i < |held| ensures held[i] != n.addr + 1 {
      assert Holds(m, keep, held[i], texts[i]);
      var b :| b in keep && HoldsIn(m, b, held[i], texts[i]);
    }
  }

  ghost function TextAt(m: Memory, p: nat, size: nat): Text
    requires 0 < size && p - 1 + size <= |m|
  {
    m[p..p - 1 + size]
  }

  // ------------------------------------------------------------------ the requests

  const LIMIT := 8 * INT_UNITS - 16

  ghost predicate Small(r: Request) {
    (r.Allocate? || r.Resize?) ==> r.n < LIMIT
  }

  lemma SmallRequest(n: nat)
    requires n < LIMIT
    ensures n + 7 < WORD && UnitsFor(n) < INT_UNITS && n <= 8 * (UnitsFor(n) - 1)
  {
  }

  method ClientAllocate(h: Heap, held: seq<nat>, ghost texts: seq<Text>, n: nat, zeroed: bool)
      returns (now: seq<nat>, ghost after: seq<Text>, ghost denied: bool)
    requires h.Valid() && AllHeld(h.mem[..], h.live, held, texts) && n < LIMIT
    modifies h, h.mem
    ensures h.Valid() && AllHeld(h.mem[..], h.live, now, after) && Follows(texts, Allocate(n, zeroed), after, denied)
    ensures old(h.kernel) <= h.kernel && (denied ==> Refused(h.kernel[|old(h.kernel)|..]))
  {
    hide AllHeld, Layout, Headers, Untouched, HasFit, UnitsFor, ByteAt, Heap.Valid;
    SmallRequest(n);
    LiveAbove(h);
    ghost var m, before := h.mem[..], h.live;
    var p;
    if zeroed {
      assert 1 * n == n;
      p := h.Calloc(1, n);
    } else {
      p := h.Malloc(n);
    }
    AllKept(m, h.mem[..], h.base, h.owned, before, before, held, texts);
    MoreLive(h.mem[..], before, h.live, held, texts);
    now, after, denied := held, texts, p == 0;
    if p == 0 {
      RefusedOnce(old(h.kernel), h.kernel, UnitsFor(n));
    }
    if p != 0 {
      ghost var b := Block(p - 1, UnitsFor(n));
      LiveAbove(h);
      ghost var t := TextAt(h.mem[..], p, b.size);
      assert HoldsIn(h.mem[..], b, p, t);
      NewPointer(h, h.mem[..], before, held, texts, b);
      OneMore(h.mem[..], h.live, held, texts, p, t);
      now, after := held + [p], texts + [t];
    }
  }

  method ClientRelease(h: Heap, held: seq<nat>, ghost texts: seq<Text>, i: nat)
      returns (now: seq<nat>, ghost after: seq<Text>)
    requires h.Valid() && AllHeld(h.mem[..], h.live, held, texts) && i < |held|
    modifies h, h.mem
    ensures h.Valid() && AllHeld(h.mem[..], h.live, now, after) && Follows(texts, Release(i), after, false)
    ensures h.kernel == old(h.kernel)
  {
    hide AllHeld, Layout, Headers, Untouched, Between, Inserted, Heap.Valid;
    LiveAbove(h);
    HeldAt(h.mem[..], h.live, held, texts, i);
    ghost var m, before := h.mem[..], h.live;
    ghost var b := BlockOf(h, held[i], texts[i]);
    OneLess(m, before, held, texts, i);
    h.Free(held[i]);
    now, after := Without(held, i), Without(texts, i);
    AllKept(m, h.mem[..], h.base, h.owned, before, before - {b}, now, after);
  }

  lemma HeldAt(m: Memory, live: set<Block>, held: seq<nat>, texts: seq<Text>, i: nat)
    requires AllHeld(m, live, held, texts) && i < |held|
    ensures |texts| == |held| && Holds(m, live, held[i], texts[i])
  {
  }

  method ClientResize(h: Heap, held: seq<nat>, ghost texts: seq<Text>, i: nat, n: nat)
      returns (now: seq<nat>, ghost after: seq<Text>, ghost denied: bool)
    requires h.Valid() && AllHeld(h.mem[..], h.live, held, texts) && i < |held| && n < LIMIT
    modifies h, h.mem
    ensures h.Valid() && AllHeld(h.mem[..], h.live, now, after) && Follows(texts, Resize(i, n), after, denied)
    ensures old(h.kernel) <= h.kernel && (denied ==> Refused(h.kernel[|old(h.kernel)|..]))
  {
    hide AllHeld, Layout, Headers, Untouched, HasFit, UnitsFor, Heap.Valid, Copied, Heap.Moved;
    SmallRequest(n);
    LiveAbove(h);
    HeldAt(h.mem[..], h.live, held, texts, i);
    ghost var m, before := h.mem[..], h.live;
    ghost var b := BlockOf(h, held[i], texts[i]);
    OneLess(m, before, held, texts, i);
    var p := h.Realloc(held[i], n);
    now, after, denied := held, texts, false;
    if n == 0 {
      now, after := Without(held, i), Without(texts, i);
      assert before * h.live == before - {b};
      AllKept(m, h.mem[..], h.base, h.owned, before, before - {b}, now, after);
    } else if p == 0 {
      denied := true;
      RefusedOnce(old(h.kernel), h.kernel, UnitsFor(n));
      assert before * h.live == before;
      AllKept(m, h.mem[..], h.base, h.owned, before, before, held, texts);
    } else {
      now := held[i := p];
      if n <= 8 * |texts[i]| {
        assert now == held;
      } else {
        ghost var x := Block(p - 1, UnitsFor(n));
        after := Enlarged(h, m, before, held, texts, i, b, x);
      }
    }
  }

  /** The old buffer i lives on at the start of the larger block x, and the others where they were. */
  lemma Enlarged(h: Heap, m: Memory, before: set<Block>, held: seq<nat>, texts: seq<Text>, i: nat, b: Block, x: Block)
      returns (after: seq<Text>)
    requires h.Valid() && AllHeld(m, before, held, texts) && i < |held| && b in before
             && HoldsIn(m, b, held[i], texts[i])
    requires forall c | c in before :: h.base < c.addr && (c != b ==> c.addr != b.addr)
    requires h.Moved(x.addr + 1, x.size, b, before) && Copied(m, h.mem[..], held[i], x.addr + 1, b.size - 1)
    requires Untouched(m, h.mem[..], h.base, h.owned, before * h.live)
    ensures AllHeld(h.mem[..], h.live, held[i := x.addr + 1], after)
    ensures |after| == |texts| && texts[i] <= after[i] && |after[i]| == x.size - 1 && after == texts[i := after[i]]
  {
    hide AllHeld, Layout, Headers, Untouched, Heap.Valid;
    var m', keep, p := h.mem[..], before - {b}, x.addr + 1;
    HeldAt(m, before, held, texts, i);
    var rest, others := Without(held, i), Without(texts, i);
    var t := TextAt(m', p, x.size);
    assert t[..b.size - 1] == m'[p..p + (b.size - 1)] == texts[i];
    OneLess(m, before, held, texts, i);
    assert before * h.live == keep;
    AllKept(m, m', h.base, h.owned, before, keep, rest, others);
    NewPointer(h, m', keep, rest, others, x);
    MoreLive(m', keep, h.live, rest, others);
    assert HoldsIn(m', x, p, t);
    PutBack(m', h.live, held, texts, i, p, t);
    after := texts[i := t];
  }

  /** The client writes unit k of buffer i. */
  method ClientStore(h: Heap, held: seq<nat>, ghost texts: seq<Text>, i: nat, k: nat, v: Unit)
      returns (ghost after: seq<Text>)
    requires h.Valid() && AllHeld(h.mem[..], h.live, held, texts) && i < |held| && k < |texts[i]|
    modifies h.mem
    ensures h.Valid() && AllHeld(h.mem[..], h.live, held, after) && Follows(texts, Store(i, k, v), after, false)
  {
    hide AllHeld, Layout, Headers, Untouched;
    LiveAbove(h);
    HeldAt(h.mem[..], h.live, held, texts, i);
    var p := held[i];
    ghost var m := h.mem[..];
    ghost var b := BlockOf(h, p, texts[i]);
    OneLess(m, h.live, held, texts, i);
    h.mem[p + k] := v;
    PayloadWrite(m, h.mem[..], h.base, h.ring, h.live, h.brk, h.owned, b);
    ghost var rest, others := Without(held, i), Without(texts, i);
    AllKept(m, h.mem[..], h.base, h.owned, h.live, h.live - {b}, rest, others);
    MoreLive(h.mem[..], h.live - {b}, h.live, rest, others);
    assert HoldsIn(h.mem[..], b, p, texts[i][k := v]);
    PutBack(h.mem[..], h.live, held, texts, i, p, texts[i][k := v]);
    assert held[i := p] == held;
    after := texts[i := texts[i][k := v]];
  }

  /** How far a client can count on a buffer: the size field in front of it says. */
  method SizeOf(h: Heap, p: nat, ghost t: Text) returns (n: nat)
    requires h.Valid() && Holds(h.mem[..], h.live, p, t)
    ensures n == |t|
  {
    ghost var b := BlockOf(h, p, t);
    n := h.mem[p - 1].size - 1;
  }

  /** Any series of requests, made by a client that frees, resizes and writes only what it holds: the
      heap stays valid, and at the end every pointer held is a live block of its own, whose payload is
      what the requests have made of it. A request for memory is denied only if sbrk was refused. */
  method Client(h: Heap, requests: seq<Request>)
      returns (held: seq<nat>, ghost trace: seq<seq<Text>>, ghost denied: seq<bool>)
    requires h.Valid() && h.live == {} && forall r | r in requests :: Small(r)
    modifies h, h.mem
    ensures h.Valid() && |trace| == |requests| + 1 && |denied| == |requests| && trace[0] == []
    ensures forall k | 0 <= k < |requests| :: Follows(trace[k], requests[k], trace[k + 1], denied[k])
    ensures AllHeld(h.mem[..], h.live, held, trace[|requests|])
    ensures old(h.kernel) <= h.kernel && (true in denied ==> Refused(h.kernel[|old(h.kernel)|..]))
  {
    hide AllHeld, Layout, Headers, Untouched, HasFit, UnitsFor, Heap.Valid, Follows, Small;
    held, trace, denied := [], [[]], [];
    NothingHeld(h.mem[..], h.live);
    for j := 0 to |requests|
      invariant h.Valid() && |trace| == j + 1 && |denied| == j && trace[0] == []
      invariant forall k | 0 <= k < j :: Follows(trace[k], requests[k], trace[k + 1], denied[k])
      invariant AllHeld(h.mem[..], h.live, held, trace[j])
      invariant old(h.kernel) <= h.kernel && (true in denied ==> Refused(h.kernel[|old(h.kernel)|..]))
    {
      ghost var after, no;
      held, after, no := ClientStep(h, held, trace[j], requests[j]);
      trace, denied := trace + [after], denied + [no];
    }
  }

  lemma NothingHeld(m: Memory, live: set<Block>)
    ensures AllHeld(m, live, [], [])
  {
  }

  method ClientStep(h: Heap, held: seq<nat>, ghost texts: seq<Text>, r: Request)
      returns (now: seq<nat>, ghost after: seq<Text>, ghost denied: bool)
    requires h.Valid() && AllHeld(h.mem[..], h.live, held, texts) && Small(r)
    modifies h, h.mem
    ensures h.Valid() && AllHeld(h.mem[..], h.live, now, after) && Follows(texts, r, after, denied)
    ensures old(h.kernel) <= h.kernel && (denied ==> Refused(h.kernel[|old(h.kernel)|..]))
  {
    hide AllHeld, Layout, Headers, Untouched, HasFit, UnitsFor, Heap.Valid, Holds;
    now, after, denied := held, texts, false;
    SameLength(h.mem[..], h.live, held, texts);
    match r
    case Allocate(n, zeroed) =>
      now, after, denied := ClientAllocate(h, held, texts, n, zeroed);
    case Release(i) =>
      if 0 <= i < |held| {
        now, after := ClientRelease(h, held, texts, i);
      }
    case Resize(i, n) =>
      if 0 <= i < |held| {
        now, after, denied := ClientResize(h, held, texts, i, n);
      }
    case Store(i, k, v) =>
      if 0 <= i < |held| {
        HeldAt(h.mem[..], h.live, held, texts, i);
        var size := SizeOf(h, held[i], texts[i]);
        if 0 <= k < size {
          after := ClientStore(h, held, texts, i, k, v);
        }
      }
  }

  lemma SameLength(m: Memory, live: set<Block>, held: seq<nat>, texts: seq<Text>)
    requires AllHeld(m, live, held, texts)
    ensures |texts| == |held|
  {
  }
}
