/** Runs of the kernel heap: any sequence of allocations and matched deallocations. */
module HeapRuns {
  import opened Alignment
  import opened FreeList
  import opened FirstFit

  datatype AllocResult = Block(addr: nat) | Null | Trap

  /** `allocate` on the free list: the answer and the list left behind. */
  function Allocate(f: seq<Region>, l: Layout): (AllocResult, seq<Region>) {
    match Find(f, l, 0)
    case Found(i) =>
      var s := AllocStart(f[i], l);
      (Block(s), Split(f[..i], f[i], f[i + 1..], s, s + l.Size()))
    case NoRegion => (Null, f)
    case Overflow => (Trap, f)
  }

  /** Null exactly when no region holds the aligned block, unless the alignment arithmetic traps. */
  lemma {:induction false} NullIffNoFit(f: seq<Region>, l: Layout, lo: int, hi: int)
    requires Wf(f, lo, hi) && Bounds(lo, hi)
    ensures !Allocate(f, l).0.Trap? ==> (Allocate(f, l).0.Null? <==> forall j :: 0 <= j < |f| ==> !Fits(f[j], l))
    ensures hi + l.Align() <= WORD ==> !Allocate(f, l).0.Trap?
  {
    FindComplete(f, l, 0, lo, hi);
    if hi + l.Align() <= WORD {
      FindNeverOverflows(f, l, 0, lo, hi);
    }
  }

  /** Region r has room for a block of this layout at a. */
  predicate Room(r: Region, l: Layout, a: nat) {
    && r.start <= a && a % 8 == 0 && l.align > 0 && a % l.align == 0
    && a + l.size <= r.start + r.size && a + 16 <= r.start + r.size
  }

  /** A region fits when it has room somewhere, and the block then goes to the first such place. */
  lemma {:induction false} FitsExactly(r: Region, l: Layout, a: nat)
    requires l.Valid()
    ensures Fits(r, l) ==> Room(r, l, AllocStart(r, l))
    ensures Room(r, l, a) ==> Fits(r, l) && AllocStart(r, l) <= a
  {
    Pow2Positive(l.align);
    StartAligned(r, l);
    if l.align < NODE_ALIGN {
      SmallPow2(l.align, AllocStart(r, l));
    }
    if Room(r, l, a) {
      AlignUpLeast(r.start, l.Align(), a);
    }
  }

  lemma Pow2Positive(align: nat)
    requires IsPow2(align)
    ensures align > 0
  {
  }

  /** No region of the list has room. */
  ghost predicate NoRoom(f: seq<Region>, l: Layout) {
    forall j, a: nat :: 0 <= j < |f| ==> !Room(f[j], l, a)
  }

  /** a is the first place, in the first region, that has room. */
  ghost predicate FirstPlace(f: seq<Region>, l: Layout, k: nat, a: nat) {
    && k < |f| && Room(f[k], l, a) && (forall b: nat :: b < a ==> !Room(f[k], l, b))
    && forall j, b: nat :: 0 <= j < k ==> !Room(f[j], l, b)
  }

  /** What allocate promises its caller. The block is aligned as asked, goes to the first place with room,
      all its bytes were free and none of them is free any more, and nothing else has become free; there
      is none only if nowhere is room, unless the alignment arithmetic traps. */
  lemma {:induction false} AllocateGives(f: seq<Region>, l: Layout, lo: int, hi: int)
    requires Wf(f, lo, hi) && Bounds(lo, hi) && l.Valid()
    ensures var (res, g) := Allocate(f, l);
      && (res.Block? ==>
          && l.align > 0 && res.addr % l.align == 0 && (exists k :: FirstPlace(f, l, k, res.addr))
          && TakenOut(f, g, res.addr, l.size))
      && (res.Null? ==> NoRoom(f, l)) && (!res.Block? ==> g == f)
  {
    FindComplete(f, l, 0, lo, hi);
    forall j, a: nat | 0 <= j < |f| && Room(f[j], l, a) ensures Fits(f[j], l) {
      FitsExactly(f[j], l, a);
    }
    if Find(f, l, 0).Found? {
      var k := Find(f, l, 0).index;
      FoundFirst(f, l, k);
      FoundFree(f, l, k, lo, hi);
    }
  }

  lemma {:induction false} FoundFirst(f: seq<Region>, l: Layout, k: nat)
    requires l.Valid() && k < |f| && Fits(f[k], l) && forall j :: 0 <= j < k ==> !Fits(f[j], l)
    ensures FirstPlace(f, l, k, AllocStart(f[k], l)) && l.align > 0 && AllocStart(f[k], l) % l.align == 0
  {
    FitsExactly(f[k], l, 0);
    forall b: nat | b < AllocStart(f[k], l) ensures !Room(f[k], l, b) {
      FitsExactly(f[k], l, b);
    }
    forall j, b: nat | 0 <= j < k ensures !Room(f[j], l, b) {
      FitsExactly(f[j], l, b);
    }
  }

  /** The round-up of the start of r leaves 64 bits. */
  predicate Over(r: Region, l: Layout) { r.start + (if l.align < 8 then 8 else l.align) >= 0x1_0000_0000_0000_0000 }

  /** In 64 bits there is a place for the block, at a, at or behind the start of r. */
  predicate Reaches(r: Region, l: Layout, a: nat) {
    r.start < 0x1_0000_0000_0000_0000 && Room(Region(r.start, 0xFFFF_FFFF_FFFF_FFFF - r.start), l, a)
  }

  /** The search goes on behind r: there is no room in it, and no overflow at it. */
  ghost predicate PassedBy(r: Region, l: Layout) {
    !Over(r, l) && (forall a: nat :: !Room(r, l, a)) && exists a: nat :: Reaches(r, l, a)
  }

  /** The search comes to region k, and the round-up of its start overflows. */
  ghost predicate Stuck(f: seq<Region>, l: Layout, i: nat, k: int) {
    && i <= k < |f| && Over(f[k], l)
    && forall j :: i <= j < k ==> PassedBy(f[j], l)
  }

  lemma {:induction false} PassedExactly(r: Region, l: Layout)
    requires l.Valid() && !Over(r, l)
    ensures Fits(r, l) <==> exists a: nat :: Room(r, l, a)
    ensures AllocStart(r, l) + l.Size() < WORD <==> exists a: nat :: Reaches(r, l, a)
  {
    var w := Region(r.start, WORD - 1 - r.start);
    FitsExactly(r, l, AllocStart(r, l));
    FitsExactly(w, l, AllocStart(w, l));
    if a: nat :| Room(r, l, a) {
      FitsExactly(r, l, a);
    }
    if a: nat :| Reaches(r, l, a) {
      FitsExactly(w, l, a);
    }
    assert Fits(w, l) ==> Reaches(r, l, AllocStart(w, l));
  }

  lemma {:induction false} StuckExactly(f: seq<Region>, l: Layout, i: nat)
    requires l.Valid() && i <= |f|
    ensures Find(f, l, i).Overflow? <==> exists k :: Stuck(f, l, i, k)
    decreases |f| - i
  {
    if i == |f| {
    } else if Over(f[i], l) {
      assert Stuck(f, l, i, i);
    } else {
      PassedExactly(f[i], l);
      StuckExactly(f, l, i + 1);
      if k :| Stuck(f, l, i, k) {
        assert Stuck(f, l, i + 1, k);
      }
      if Find(f, l, i).Overflow? {
        var k :| Stuck(f, l, i + 1, k);
        assert Stuck(f, l, i, k);
      }
    }
  }

  /** allocate stops the kernel exactly when, before it finds room or gives up, it comes to a region whose start cannot
      be rounded up in 64 bits. */
  lemma {:induction false} TrapsExactly(f: seq<Region>, l: Layout)
    requires l.Valid()
    ensures Allocate(f, l).0.Trap? <==> exists k :: Stuck(f, l, 0, k)
  {
    StuckExactly(f, l, 0);
  }

  /** The n bytes at s were free in f and are not in g, and nothing is free in g that was not in f. */
  ghost predicate TakenOut(f: seq<Region>, g: seq<Region>, s: nat, n: nat) {
    && (forall x: nat :: s <= x < s + n ==> Covers(f, x) && !Covers(g, x))
    && (forall x: nat :: Covers(g, x) ==> Covers(f, x))
  }

  lemma {:induction false} FoundFree(f: seq<Region>, l: Layout, k: nat, lo: int, hi: int)
    requires Wf(f, lo, hi) && l.Valid() && k < |f| && Find(f, l, 0) == Found(k) && Fits(f[k], l)
    ensures Allocate(f, l).0 == Block(AllocStart(f[k], l))
    ensures TakenOut(f, Allocate(f, l).1, AllocStart(f[k], l), l.size)
  {
    WfAt(f, k, lo, hi);
    BlockPlaced(f[k], l, lo, hi);
    AllocateCuts(f, l, k);
    SplitTakes(f, f[..k], f[k], f[k + 1..], AllocStart(f[k], l), l.Size(), l.size, lo, hi);
  }

  lemma {:induction false} SplitTakes(f: seq<Region>, p: seq<Region>, r: Region, q: seq<Region>, s: nat, n: nat,
    asked: nat, lo: int, hi: int)
    requires f == p + [r] + q && Amid(p, r, q, lo, hi) && Inside(r, s, n) && asked <= n
    ensures TakenOut(f, Split(p, r, q, s, s + n), s, asked)
  {
    var g := Split(p, r, q, s, s + n);
    BlockMisses(p, r, q, s, n, lo, hi);
    forall x: nat
      ensures Covers(g, x) ==> Covers(f, x)
      ensures s <= x < s + asked ==> Covers(f, x) && !Covers(g, x)
    {
      SplitCovers(p, r, q, s, s + n, x);
      PlaceCovers(p, r, q, x);
      if s <= x < s + asked {
        MissesCovers(g, Region(s, n), x);
      }
    }
  }

  /** What deallocate promises: of an aligned block all bytes that were asked for are free again, at least 16,
      and nothing else has changed. */
  lemma {:induction false} FreeGives(f: seq<Region>, l: Layout, ptr: nat, lo: int, hi: int, x: nat)
    requires Bounds(lo, hi) && lo <= ptr && ptr + l.size <= hi && ptr + 16 <= hi && ptr % 8 == 0
    ensures var n := if l.size < 16 then 16 else l.size;
      Covers(InsertRegion(f, ptr, l.Size()), x) <==> Covers(f, x) || ptr <= x < ptr + n
  {
    InsertGood(f, Region(ptr, l.Size()), lo, hi);
    InsertCovers(f, Region(ptr, l.Size()), x);
  }

  // ---------------------------------------------------------------- the state machine

  /** A live block, remembered with the layout it was requested with. */
  datatype Live = Live(addr: nat, layout: Layout) {
    function Region(): Region { FreeList.Region(addr, layout.Size()) }
  }

  /** `leaked` counts the bytes that belong to no live block and no free region. */
  datatype Heap = Heap(free: seq<Region>, live: seq<Live>, leaked: nat, lo: int, hi: int)

  datatype Op = Alloc(layout: Layout) | Dealloc(index: nat)

  function LiveBytes(live: seq<Live>): nat {
    if live == [] then 0 else live[0].layout.Size() + LiveBytes(live[1..])
  }

  predicate Placed(b: Live, lo: int, hi: int) {
    && b.layout.Valid() && b.addr % b.layout.align == 0 && b.addr % NODE_ALIGN == 0
    && lo <= b.addr && b.addr + b.layout.Size() <= hi
  }

  predicate Clear(live: seq<Live>, r: Region) {
    live == [] || (Apart(live[0].Region(), r) && Clear(live[1..], r))
  }

  /** Live blocks are aligned, inside the heap, pairwise disjoint and apart from the free list. */
  predicate LiveOk(free: seq<Region>, live: seq<Live>, lo: int, hi: int) {
    live == [] ||
    (Placed(live[0], lo, hi) && Misses(free, live[0].Region()) && Clear(live[1..], live[0].Region())
     && LiveOk(free, live[1..], lo, hi))
  }

  predicate Inv(h: Heap) {
    && Bounds(h.lo, h.hi) && Wf(h.free, h.lo, h.hi) && LiveOk(h.free, h.live, h.lo, h.hi)
    && Remaining(h.free) + LiveBytes(h.live) + h.leaked == h.hi - h.lo
  }

  /** `init` over [start, start + size); the bytes skipped to align the start are lost. */
  function Init(start: nat, size: nat): Heap
    requires Bounds(start, start + size)
  {
    var free := InsertRegion([], start, size);
    var lost := if free == [] then size else free[0].start - start;
    Heap(free, [], lost, start, start + size)
  }

  /** Bytes an allocation loses. */
  function AllocLeak(f: seq<Region>, l: Layout): nat {
    match Find(f, l, 0)
    case Found(i) => Leak(f[i], AllocStart(f[i], l), l.Size())
    case _ => 0
  }

  function Step(h: Heap, op: Op): Heap {
    match op
    case Alloc(l) =>
      var (res, free) := Allocate(h.free, l);
      if res.Block? then
        h.(free := free, live := [Live(res.addr, l)] + h.live, leaked := h.leaked + AllocLeak(h.free, l))
      else h
    case Dealloc(i) =>
      if i >= |h.live| then h
      else h.(free := InsertRegion(h.free, h.live[i].addr, h.live[i].layout.Size()),
              live := h.live[..i] + h.live[i + 1..])
  }

  predicate ValidOp(op: Op) {
    op.Alloc? ==> op.layout.Valid()
  }

  function Run(h: Heap, ops: seq<Op>): Heap {
    if ops == [] then h else Step(Run(h, ops[..|ops| - 1]), ops[|ops| - 1])
  }

  function Allocs(ops: seq<Op>): nat {
    if ops == [] then 0 else Allocs(ops[..|ops| - 1]) + if ops[|ops| - 1].Alloc? then 1 else 0
  }

  // ---------------------------------------------------------------- the invariant

  lemma {:induction false} InitInv(start: nat, size: nat)
    requires Bounds(start, start + size)
    ensures Inv(Init(start, size)) && Init(start, size).live == []
  {
    var none: seq<Region> := [];
    assert Remaining(none) == 0 && LiveBytes([]) == 0;
  }

  lemma {:induction false} BlockPlaced(r: Region, l: Layout, lo: int, hi: int)
    requires Good(r, lo, hi) && l.Valid() && Fits(r, l)
    ensures Inside(r, AllocStart(r, l), l.Size()) && Placed(Live(AllocStart(r, l), l), lo, hi)
  {
    StartAligned(r, l);
    if l.align < NODE_ALIGN {
      SmallPow2(l.align, AllocStart(r, l));
    }
  }

  lemma SmallPow2(align: nat, x: nat)
    requires IsPow2(align) && align < NODE_ALIGN && x % NODE_ALIGN == 0
    ensures x % align == 0
  {
    OddPow2();
    var k := x / NODE_ALIGN;
    if align == 1 {
      ModUnique(x, align, x, 0);
    } else if align == 2 {
      ModUnique(x, align, 4 * k, 0);
    } else {
      ModUnique(x, align, 2 * k, 0);
    }
  }

  lemma OddPow2()
    ensures !IsPow2(0) && !IsPow2(3) && !IsPow2(5) && !IsPow2(6) && !IsPow2(7)
  {
  }

  /** The region an allocation would come from, if any, leaves nothing that is lost. */
  predicate Reversible(f: seq<Region>, l: Layout) {
    match Find(f, l, 0)
    case Found(i) => LeakFree(f[i], AllocStart(f[i], l), l.Size())
    case _ => true
  }

  /** A successful allocation cuts a well-placed block out of a free region. */
  lemma {:induction false} AllocCuts(h: Heap, l: Layout) returns (p: seq<Region>, r: Region, q: seq<Region>, b: Live)
    requires Inv(h) && l.Valid() && Find(h.free, l, 0).Found?
    ensures h.free == p + [r] + q && Amid(p, r, q, h.lo, h.hi)
    ensures b.layout == l && Inside(r, b.addr, l.Size()) && Placed(b, h.lo, h.hi)
    ensures Step(h, Alloc(l)) == Cut(h, p, r, q, b)
    ensures Reversible(h.free, l) <==> LeakFree(r, b.addr, l.Size())
  {
    var i := Find(h.free, l, 0).index;
    p, r, q, b := h.free[..i], h.free[i], h.free[i + 1..], Live(AllocStart(h.free[i], l), l);
    FoundFits(h, l, i);
    BlockPlaced(r, l, h.lo, h.hi);
    AllocStep(h, l, i, p, r, q, b);
  }

  lemma {:induction false} FoundFits(h: Heap, l: Layout, i: nat)
    requires Inv(h) && Find(h.free, l, 0) == Found(i)
    ensures i < |h.free| && Good(h.free[i], h.lo, h.hi) && Fits(h.free[i], l)
    ensures h.free == h.free[..i] + [h.free[i]] + h.free[i + 1..]
    ensures Amid(h.free[..i], h.free[i], h.free[i + 1..], h.lo, h.hi)
  {
    WfAt(h.free, i, h.lo, h.hi);
  }

  lemma {:induction false} AllocStep(h: Heap, l: Layout, i: nat, p: seq<Region>, r: Region, q: seq<Region>, b: Live)
    requires Find(h.free, l, 0) == Found(i) && i < |h.free| && r == h.free[i]
    requires p == h.free[..i] && q == h.free[i + 1..] && b == Live(AllocStart(r, l), l) && Inside(r, b.addr, l.Size())
    ensures Step(h, Alloc(l)) == Cut(h, p, r, q, b) && (Reversible(h.free, l) <==> LeakFree(r, b.addr, l.Size()))
  {
    AllocateCuts(h.free, l, i);
  }

  lemma AllocateCuts(f: seq<Region>, l: Layout, i: nat)
    requires i < |f| && Find(f, l, 0) == Found(i) && Inside(f[i], AllocStart(f[i], l), l.Size())
    ensures var s, n := AllocStart(f[i], l), l.Size();
      Allocate(f, l) == (Block(s), Split(f[..i], f[i], f[i + 1..], s, s + n)) && AllocLeak(f, l) == Leak(f[i], s, n)
  {
  }

  /** An allocation keeps the invariant and lowers `remaining` by the block and at most 30 bytes. */
  lemma {:induction false} AllocInv(h: Heap, l: Layout)
    requires Inv(h) && l.Valid()
    ensures Inv(Step(h, Alloc(l)))
    ensures h.leaked <= Step(h, Alloc(l)).leaked <= h.leaked + 30
    ensures var n := if l.size < 16 then 16 else l.size; Allocate(h.free, l).0.Block? ==>
      Remaining(h.free) - n - 30 <= Remaining(Step(h, Alloc(l)).free) <= Remaining(h.free) - n
    ensures Step(h, Alloc(l)).live
      == if Allocate(h.free, l).0.Block? then [Live(Allocate(h.free, l).0.addr, l)] + h.live else h.live
  {
    if Find(h.free, l, 0).Found? {
      var p, r, q, b := AllocCuts(h, l);
      CutInv(h, p, r, q, b);
    }
  }

  /** The heap after block b has been cut out of r. */
  function Cut(h: Heap, p: seq<Region>, r: Region, q: seq<Region>, b: Live): Heap
    requires r.start <= b.addr && b.addr + b.layout.Size() <= r.End()
  {
    var s, n := b.addr, b.layout.Size();
    Heap(Split(p, r, q, s, s + n), [b] + h.live, h.leaked + Leak(r, s, n), h.lo, h.hi)
  }

  /** Block b lies in region r of the free list, which has p in front of it and q behind. */
  predicate Cutting(h: Heap, p: seq<Region>, r: Region, q: seq<Region>, b: Live) {
    && Inv(h) && h.free == p + [r] + q && Amid(p, r, q, h.lo, h.hi)
    && Inside(r, b.addr, b.layout.Size()) && Placed(b, h.lo, h.hi)
  }

  lemma {:induction false} CutInv(h: Heap, p: seq<Region>, r: Region, q: seq<Region>, b: Live)
    requires Cutting(h, p, r, q, b)
    ensures var c := Cut(h, p, r, q, b);
      && Inv(c) && c.leaked <= h.leaked + 30
      && Remaining(h.free) == Remaining(c.free) + b.layout.Size() + c.leaked - h.leaked
  {
    CutCounts(h, p, r, q, b);
    CutWf(h, p, r, q, b);
  }

  lemma {:induction false} CutWf(h: Heap, p: seq<Region>, r: Region, q: seq<Region>, b: Live)
    requires Cutting(h, p, r, q, b)
    ensures var c := Cut(h, p, r, q, b);
      Bounds(c.lo, c.hi) && Wf(c.free, c.lo, c.hi) && LiveOk(c.free, c.live, c.lo, c.hi)
  {
    SplitWf(p, r, q, b.addr, b.addr + b.layout.Size(), h.lo, h.hi);
    CutLive(h.live, p, r, q, b, h.lo, h.hi);
  }

  lemma {:induction false} CutCounts(h: Heap, p: seq<Region>, r: Region, q: seq<Region>, b: Live)
    requires Cutting(h, p, r, q, b)
    ensures var c := Cut(h, p, r, q, b);
      && Remaining(c.free) + LiveBytes(c.live) + c.leaked == c.hi - c.lo && c.leaked <= h.leaked + 30
      && Remaining(h.free) == Remaining(c.free) + b.layout.Size() + c.leaked - h.leaked
  {
    SplitAccounting(p, r, q, b.addr, b.layout.Size());
    LeakBound(r, b.addr, b.layout.Size(), h.lo, h.hi);
    LiveBytesCons(b, h.live);
  }

  lemma LiveBytesCons(b: Live, live: seq<Live>)
    ensures LiveBytes([b] + live) == b.layout.Size() + LiveBytes(live)
  {
    assert ([b] + live)[1..] == live;
  }

  /** The block that was cut out and the blocks that were there. */
  lemma {:induction false} CutLive(live: seq<Live>, p: seq<Region>, r: Region, q: seq<Region>, b: Live, lo: int,
    hi: int)
    requires LiveOk(p + [r] + q, live, lo, hi) && Amid(p, r, q, lo, hi) && Bounds(lo, hi)
    requires Inside(r, b.addr, b.layout.Size()) && Placed(b, lo, hi)
    ensures LiveOk(Split(p, r, q, b.addr, b.addr + b.layout.Size()), [b] + live, lo, hi)
  {
    var s, n := b.addr, b.layout.Size();
    assert ([b] + live)[1..] == live;
    BlockMisses(p, r, q, s, n, lo, hi);
    InsideClear(live, p, r, q, b.Region(), lo, hi);
    SplitLive(live, p, r, q, s, s + n, lo, hi);
  }

  /** A block taken from a free region overlaps no live block. */
  lemma {:induction false} InsideClear(live: seq<Live>, p: seq<Region>, r: Region, q: seq<Region>, x: Region, lo: int,
    hi: int)
    requires LiveOk(p + [r] + q, live, lo, hi) && r.start <= x.start && x.End() <= r.End()
    ensures Clear(live, x)
  {
    if live == [] {
    } else {
      MissesConcat(p + [r], q, live[0].Region());
      MissesConcat(p, [r], live[0].Region());
      InsideClear(live[1..], p, r, q, x, lo, hi);
    }
  }

  /** Live blocks stay apart from what is left of the list. */
  lemma {:induction false} SplitLive(live: seq<Live>, p: seq<Region>, r: Region, q: seq<Region>, s: nat, e: nat,
    lo: int, hi: int)
    requires LiveOk(p + [r] + q, live, lo, hi) && r.start <= s < e <= r.End()
    ensures LiveOk(Split(p, r, q, s, e), live, lo, hi)
  {
    if live == [] {
    } else {
      var x := live[0].Region();
      MissesConcat(p + [r], q, x);
      MissesConcat(p, [r], x);
      SplitMisses(p, r, q, s, e, x);
      SplitLive(live[1..], p, r, q, s, e, lo, hi);
    }
  }

  /** A matched deallocation keeps the invariant and gives back exactly the block's bytes. */
  lemma {:induction false} DeallocInv(h: Heap, i: nat)
    requires Inv(h) && i < |h.live|
    ensures Inv(Step(h, Dealloc(i)))
    ensures var n := if h.live[i].layout.size < 16 then 16 else h.live[i].layout.size;
      Remaining(Step(h, Dealloc(i)).free) == Remaining(h.free) + n
    ensures Step(h, Dealloc(i)).live == h.live[..i] + h.live[i + 1..]
  {
    var r, rest := h.live[i].Region(), h.live[..i] + h.live[i + 1..];
    DropLive(h.free, h.live, i, h.lo, h.hi);
    ReturnBlock(h.free, r, h.lo, h.hi);
    InsertLive(h.free, r, rest, h.lo, h.hi);
    assert Step(h, Dealloc(i)) == Heap(Insert(h.free, r), rest, h.leaked, h.lo, h.hi);
  }

  lemma {:induction false} ReturnBlock(f: seq<Region>, r: Region, lo: int, hi: int)
    requires Wf(f, lo, hi) && Bounds(lo, hi) && Good(r, lo, hi) && Misses(f, r)
    ensures InsertRegion(f, r.start, r.size) == Insert(f, r)
    ensures Wf(Insert(f, r), lo, hi) && Remaining(Insert(f, r)) == Remaining(f) + r.size
  {
    assert AlignUp(r.start, NODE_ALIGN) == r.start;
    InsertWf(f, r, lo, hi);
    InsertRemaining(f, r);
  }

  lemma {:induction false} DropLive(free: seq<Region>, live: seq<Live>, i: nat, lo: int, hi: int)
    requires LiveOk(free, live, lo, hi) && i < |live|
    ensures var rest := live[..i] + live[i + 1..];
      && LiveBytes(live) == LiveBytes(rest) + live[i].layout.Size()
      && Placed(live[i], lo, hi) && Misses(free, live[i].Region()) && Clear(rest, live[i].Region())
      && LiveOk(free, rest, lo, hi)
      && forall x :: Clear(live, x) ==> Clear(rest, x)
    decreases |live|
  {
    var rest := live[..i] + live[i + 1..];
    if i == 0 {
      assert rest == live[1..];
    } else {
      var t := live[1..];
      DropLive(free, t, i - 1, lo, hi);
      assert rest[1..] == t[..i - 1] + t[i..];
      ClearAt(t, i - 1, live[0].Region());
    }
  }

  lemma {:induction false} ClearAt(live: seq<Live>, i: nat, r: Region)
    requires Clear(live, r) && i < |live|
    ensures Apart(live[i].Region(), r)
  {
    if i == 0 {
    } else {
      ClearAt(live[1..], i - 1, r);
    }
  }

  lemma {:induction false} InsertLive(free: seq<Region>, r: Region, live: seq<Live>, lo: int, hi: int)
    requires LiveOk(free, live, lo, hi) && Clear(live, r) && r.size > 0
    ensures LiveOk(Insert(free, r), live, lo, hi)
  {
    if live == [] {
    } else {
      InsertMisses(free, r, live[0].Region());
      InsertLive(free, r, live[1..], lo, hi);
    }
  }

  /** What misses a list and a block misses the list with the block returned to it. */
  lemma {:induction false} InsertMisses(f: seq<Region>, r: Region, x: Region)
    requires Misses(f, x) && Apart(r, x) && r.size > 0 && x.size > 0
    ensures Misses(Insert(f, r), x)
    decreases |f|
  {
    if f == [] || r.End() < f[0].start {
      assert ([r] + f)[1..] == f;
    } else if r.End() == f[0].start {
      var m := Region(r.start, r.size + f[0].size);
      assert ([m] + f[1..])[1..] == f[1..];
    } else if f[0].End() == r.start {
      InsertMisses(f[1..], Region(f[0].start, f[0].size + r.size), x);
    } else {
      InsertMisses(f[1..], r, x);
      assert ([f[0]] + Insert(f[1..], r))[1..] == Insert(f[1..], r);
    }
  }

  /** Every run of allocations and matched deallocations keeps the invariant: the list stays
      ascending, aligned and coalesced, no byte is both free and live or twice live, and
      free + live + leaked stays the size of the heap. Each allocation leaks at most 30 bytes. */
  lemma {:induction false} RunInv(h: Heap, ops: seq<Op>)
    requires Inv(h) && forall i :: 0 <= i < |ops| ==> ValidOp(ops[i])
    ensures Inv(Run(h, ops))
    ensures Run(h, ops).lo == h.lo && Run(h, ops).hi == h.hi
    ensures Run(h, ops).leaked <= h.leaked + 30 * Allocs(ops)
    decreases |ops|
  {
    if ops == [] {
    } else {
      var before, op := ops[..|ops| - 1], ops[|ops| - 1];
      RunInv(h, before);
      var mid := Run(h, before);
      match op
      case Alloc(l) => AllocInv(mid, l);
      case Dealloc(i) => if i < |mid.live| { DeallocInv(mid, i); }
    }
  }

  /** Freeing the block of an allocation restores the free list, to the last node, exactly when the region
      it came from has no gap too small for a region on either side of the block. */
  lemma {:induction false} AllocThenDealloc(h: Heap, l: Layout)
    requires Inv(h) && l.Valid() && Find(h.free, l, 0).Found?
    ensures Step(Step(h, Alloc(l)), Dealloc(0)).free == h.free <==> Reversible(h.free, l)
    ensures Reversible(h.free, l) ==> Step(Step(h, Alloc(l)), Dealloc(0)) == h
  {
    var p, r, q, b := AllocCuts(h, l);
    LeakFreeExactly(r, b.addr, l.Size());
    if Reversible(h.free, l) {
      CutThenDealloc(h, p, r, q, b);
    } else {
      CutLoses(h, p, r, q, b);
    }
  }

  lemma {:induction false} CutLoses(h: Heap, p: seq<Region>, r: Region, q: seq<Region>, b: Live)
    requires Inv(h) && h.free == p + [r] + q && Amid(p, r, q, h.lo, h.hi)
    requires Inside(r, b.addr, b.layout.Size()) && Placed(b, h.lo, h.hi) && Leak(r, b.addr, b.layout.Size()) > 0
    ensures Remaining(Step(Cut(h, p, r, q, b), Dealloc(0)).free) < Remaining(h.free)
  {
    CutInv(h, p, r, q, b);
    DeallocInv(Cut(h, p, r, q, b), 0);
  }

  lemma {:induction false} CutThenDealloc(h: Heap, p: seq<Region>, r: Region, q: seq<Region>, b: Live)
    requires h.free == p + [r] + q && Amid(p, r, q, h.lo, h.hi) && Bounds(h.lo, h.hi)
    requires Inside(r, b.addr, b.layout.Size()) && Leak(r, b.addr, b.layout.Size()) == 0
    ensures Step(Cut(h, p, r, q, b), Dealloc(0)) == h
  {
    SplitThenInsert(p, r, q, b.addr, b.layout.Size(), h.lo, h.hi);
    DropFirst(b, h.live);
  }

  lemma DropFirst(b: Live, live: seq<Live>)
    ensures ([b] + live)[..0] + ([b] + live)[1..] == live
  {
  }

  /** The bounds on the loss are reached: 8 bytes in front of the block and 22 behind it. */
  lemma {:induction false} LosesThirty()
    ensures var h := Init(8, 47); var l := Layout(17, 16);
      && l.Valid() && Step(h, Alloc(l)).live == [Live(16, l)] && Step(h, Alloc(l)).leaked == h.leaked + 30
      && !Reversible(h.free, l)
  {
    var h, l := Init(8, 47), Layout(17, 16);
    AlignedUp(8, NODE_ALIGN);
    assert h == Heap([Region(8, 47)], [], 0, 8, 55);
    assert AllocStart(h.free[0], l) == 16;
    assert AlignUp(33, NODE_ALIGN) == 40;
    assert Find(h.free, l, 0) == Found(0);
    assert IsPow2(16);
  }

  /** Byte x is one of those that were asked for. */
  predicate Asked(b: Live, x: nat) { b.addr <= x < b.addr + b.layout.size }

  predicate InHeap(b: Live, lo: int, hi: int) {
    lo <= b.addr && b.addr + b.layout.size <= hi && b.layout.align > 0 && b.addr % b.layout.align == 0
  }

  /** The bytes that were asked for: they are in the heap, not free, and nobody else's. */
  lemma {:induction false} LiveMeaning(h: Heap)
    requires Inv(h)
    ensures forall i :: 0 <= i < |h.live| ==> InHeap(h.live[i], h.lo, h.hi)
    ensures forall i, x: nat :: 0 <= i < |h.live| && Asked(h.live[i], x) ==> !Covers(h.free, x)
    ensures forall i, j, x: nat :: 0 <= i < j < |h.live| && Asked(h.live[i], x) ==> !Asked(h.live[j], x)
  {
    InvMeaning(h);
    forall i | 0 <= i < |h.live| ensures InHeap(h.live[i], h.lo, h.hi) {
      assert Placed(h.live[i], h.lo, h.hi);
      Pow2Positive(h.live[i].layout.align);
    }
    forall i, x: nat | 0 <= i < |h.live| && Asked(h.live[i], x) ensures !Covers(h.free, x) {
      assert h.live[i].Region().Has(x);
    }
    forall i, j, x: nat | 0 <= i < j < |h.live| && Asked(h.live[i], x) ensures !Asked(h.live[j], x) {
      assert Apart(h.live[i].Region(), h.live[j].Region());
    }
  }

  /** The invariant read off index by index and byte by byte: no byte is both free and live. */
  lemma {:induction false} InvMeaning(h: Heap)
    requires Inv(h)
    ensures forall i :: 0 <= i < |h.free| ==> Good(h.free[i], h.lo, h.hi)
    ensures forall i, j :: 0 <= i < j < |h.free| ==> h.free[i].End() < h.free[j].start
    ensures forall i :: 0 <= i < |h.live| ==> Placed(h.live[i], h.lo, h.hi) && Misses(h.free, h.live[i].Region())
    ensures forall i, j :: 0 <= i < j < |h.live| ==> Apart(h.live[i].Region(), h.live[j].Region())
    ensures forall i, b: nat :: 0 <= i < |h.live| && h.live[i].Region().Has(b) ==> !Covers(h.free, b)
  {
    forall i | 0 <= i < |h.free| ensures Good(h.free[i], h.lo, h.hi) {
      WfAt(h.free, i, h.lo, h.hi);
    }
    forall i, j | 0 <= i < j < |h.free| ensures h.free[i].End() < h.free[j].start {
      WfOrder(h.free, i, j, h.lo, h.hi);
    }
    forall i | 0 <= i < |h.live| ensures Placed(h.live[i], h.lo, h.hi) && Misses(h.free, h.live[i].Region()) {
      DropLive(h.free, h.live, i, h.lo, h.hi);
    }
    forall i, b: nat | 0 <= i < |h.live| && h.live[i].Region().Has(b) ensures !Covers(h.free, b) {
      MissesCovers(h.free, h.live[i].Region(), b);
    }
    forall i, j | 0 <= i < j < |h.live| ensures Apart(h.live[i].Region(), h.live[j].Region()) {
      var rest := h.live[..i] + h.live[i + 1..];
      DropLive(h.free, h.live, i, h.lo, h.hi);
      ClearAt(rest, j - 1, h.live[i].Region());
      assert rest[j - 1] == h.live[j];
    }
  }
}
