/** First-fit search over the free list and the split of the region it finds. */
module FirstFit {
  import opened Alignment
  import opened FreeList

  /** What a search of the list yields. `Overflow`: the alignment arithmetic leaves 64 bits, which
      the overflow checks of the build turn into a trap. */
  datatype Search = Found(index: nat) | NoRegion | Overflow

  predicate AlignOverflows(r: Region, l: Layout) {
    r.start + l.Align() >= WORD
  }

  function AllocStart(r: Region, l: Layout): nat {
    AlignUp(r.start, l.Align())
  }

  /** The aligned block lies inside the region. */
  predicate Fits(r: Region, l: Layout) {
    AllocStart(r, l) + l.Size() <= r.End()
  }

  /** The search from index i on; the walk gives up at the first block end past 64 bits. */
  function Find(f: seq<Region>, l: Layout, i: nat): (r: Search)
    requires i <= |f|
    ensures r.Found? ==> i <= r.index < |f| && Fits(f[r.index], l)
    decreases |f| - i
  {
    if i == |f| then NoRegion
    else if AlignOverflows(f[i], l) then Overflow
    else if AllocStart(f[i], l) + l.Size() >= WORD then NoRegion
    else if Fits(f[i], l) then Found(i)
    else Find(f, l, i + 1)
  }

  /** Region k is the first whose alignment arithmetic overflows, and none before it fits. */
  ghost predicate Blocks(f: seq<Region>, l: Layout, i: nat, k: nat)
    requires i <= k < |f|
  {
    AlignOverflows(f[k], l) && forall j :: i <= j < k ==> !Fits(f[j], l) && !AlignOverflows(f[j], l)
  }

  /** First fit is complete: the answer is the least region that fits, "none" means that no region
      fits (giving up early loses nothing because the list ascends), and a trap can only hide a fit
      behind a region whose alignment arithmetic overflows. */
  lemma {:induction false} FindComplete(f: seq<Region>, l: Layout, i: nat, lo: int, hi: int)
    requires Wf(f, lo, hi) && Bounds(lo, hi) && i <= |f|
    ensures match Find(f, l, i)
      case Found(k) => i <= k < |f| && Fits(f[k], l) && !AlignOverflows(f[k], l)
        && forall j :: i <= j < k ==> !Fits(f[j], l) && !AlignOverflows(f[j], l)
      case NoRegion => forall j :: i <= j < |f| ==> !Fits(f[j], l)
      case Overflow => exists k :: i <= k < |f| && Blocks(f, l, i, k)
    decreases |f| - i
  {
    if i < |f| && AlignOverflows(f[i], l) {
      assert Blocks(f, l, i, i);
    } else if i < |f| {
      if AllocStart(f[i], l) + l.Size() >= WORD {
        forall j | i <= j < |f| ensures !Fits(f[j], l) {
          if i < j {
            WfOrder(f, i, j, lo, hi);
          }
          WfAt(f, j, lo, hi);
          AlignUpLeast(f[i].start, l.Align(), AllocStart(f[j], l));
        }
      } else if !Fits(f[i], l) {
        FindComplete(f, l, i + 1, lo, hi);
        if Find(f, l, i + 1).Overflow? {
          var k :| i + 1 <= k < |f| && Blocks(f, l, i + 1, k);
          assert Blocks(f, l, i, k);
        }
      }
    }
  }

  /** No trap for any alignment that leaves the heap's end inside 64 bits. */
  lemma {:induction false} FindNeverOverflows(f: seq<Region>, l: Layout, i: nat, lo: int, hi: int)
    requires Wf(f, lo, hi) && Bounds(lo, hi) && i <= |f| && hi + l.Align() <= WORD
    ensures !Find(f, l, i).Overflow?
    decreases |f| - i
  {
    if i == |f| {
    } else {
      WfAt(f, i, lo, hi);
      FindNeverOverflows(f, l, i + 1, lo, hi);
    }
  }

  // ---------------------------------------------------------------- splitting

  /** A block of n bytes at s lies inside region r, aligned as list nodes are. */
  predicate Inside(r: Region, s: nat, n: nat) {
    r.start <= s && s % NODE_ALIGN == 0 && n >= MIN_REGION && s + n <= r.End()
  }

  /** The list q, with the piece kept in front of the block before it, if there is one. */
  function WithFront(r: Region, s: nat, q: seq<Region>): seq<Region>
    requires r.start <= s
  {
    if s - r.start >= MIN_REGION then [Region(r.start, s - r.start)] + q else q
  }

  /** The list q, with the piece kept behind the block before it, if there is one. */
  function WithBack(r: Region, e: nat, q: seq<Region>): seq<Region> {
    var b := AlignUp(e, NODE_ALIGN);
    if b + MIN_REGION <= r.End() then [Region(b, r.End() - b)] + q else q
  }

  /** Bytes lost in front of the block: too few to hold a node. */
  function FrontLeak(r: Region, s: nat): nat
    requires r.start <= s
  {
    if s - r.start >= MIN_REGION then 0 else s - r.start
  }

  /** Bytes lost behind the block: alignment padding, and a tail too small for a node. */
  function BackLeak(r: Region, e: nat): nat
    requires e <= r.End()
  {
    var b := AlignUp(e, NODE_ALIGN);
    if b + MIN_REGION <= r.End() then b - e else r.End() - e
  }

  function Leak(r: Region, s: nat, n: nat): nat
    requires r.start <= s && s + n <= r.End()
  {
    FrontLeak(r, s) + BackLeak(r, s + n)
  }

  /** At most 30 bytes are lost: 0 or 8 in front of the block and at most 22 behind it. */
  lemma LeakBound(r: Region, s: nat, n: nat, lo: int, hi: int)
    requires Good(r, lo, hi) && Inside(r, s, n)
    ensures FrontLeak(r, s) == 0 || FrontLeak(r, s) == 8
    ensures BackLeak(r, s + n) <= 22
    ensures Leak(r, s, n) <= 30
  {
  }

  /** A block at s of n bytes leaves nothing that is lost: each side of it is empty or can be a region. */
  predicate LeakFree(r: Region, s: nat, n: nat) {
    && (s == r.start || s - r.start >= MIN_REGION)
    && (s + n == r.End() || ((s + n) % NODE_ALIGN == 0 && r.End() - (s + n) >= MIN_REGION))
  }

  lemma LeakFreeExactly(r: Region, s: nat, n: nat)
    requires r.start <= s && s + n <= r.End()
    ensures Leak(r, s, n) == 0 <==> LeakFree(r, s, n)
  {
    if (s + n) % NODE_ALIGN == 0 {
      AlignedUp(s + n, NODE_ALIGN);
    }
  }

  lemma StartAligned(r: Region, l: Layout)
    requires l.Valid()
    ensures AllocStart(r, l) % NODE_ALIGN == 0
  {
    assert l.align < NODE_ALIGN || l.Align() == l.align;
    if l.align >= NODE_ALIGN {
      Pow2Multiple(l.align, AllocStart(r, l));
    }
  }

  /** The free list once [s, e) has been cut out of r, which stood between p and q: the kept
      pieces stand where the region stood and nothing else moves. */
  function Split(p: seq<Region>, r: Region, q: seq<Region>, s: nat, e: nat): seq<Region>
    requires r.start <= s
  {
    p + WithFront(r, s, WithBack(r, e, q))
  }

  /** r stands alone between p and q. */
  predicate Amid(p: seq<Region>, r: Region, q: seq<Region>, lo: int, hi: int) {
    Wf(p, lo, r.start - 1) && Good(r, lo, hi) && Wf(q, r.End() + 1, hi)
  }

  /** Returning the front excess to the list merges with nothing. */
  lemma {:induction false} CutFront(p: seq<Region>, r: Region, q: seq<Region>, s: nat, n: nat, lo: int, hi: int)
    requires Amid(p, r, q, lo, hi) && Bounds(lo, hi) && r.start <= s <= r.End() && n == s - r.start
    ensures n >= MIN_REGION ==> InsertRegion(p + q, r.start, n) == p + WithFront(r, s, q)
    ensures n < MIN_REGION ==> WithFront(r, s, q) == q
  {
    if n >= MIN_REGION {
      InsertGood(p + q, Region(r.start, n), lo, hi);
      InsertBetween(p, q, Region(r.start, n), lo, r.End() + 1, hi);
    }
  }

  lemma {:induction false} InsertBetween(p: seq<Region>, q: seq<Region>, x: Region, lo: int, b: int, hi: int)
    requires Wf(p, lo, x.start - 1) && Wf(q, b, hi) && x.End() < b
    ensures Insert(p + q, x) == p + ([x] + q)
  {
    InsertSkips(p, q, x, lo);
    InsertFirst(q, x, b, hi);
  }

  lemma InsertFirst(q: seq<Region>, x: Region, lo: int, hi: int)
    requires Wf(q, lo, hi) && x.End() < lo
    ensures Insert(q, x) == [x] + q
  {
  }

  /** Returning the back excess to the list merges with nothing and drops what is too small. */
  lemma {:induction false} CutBack(p: seq<Region>, r: Region, q: seq<Region>, e: nat, n: nat, lo: int, hi: int)
    requires Bounds(lo, hi) && r.start < e <= r.End() <= hi && n == r.End() - e
    requires Wf(p, lo, e - 1) && Wf(q, r.End() + 1, hi)
    ensures n >= MIN_REGION ==> InsertRegion(p + q, e, n) == p + WithBack(r, e, q)
    ensures n < MIN_REGION ==> WithBack(r, e, q) == q
  {
    var b := AlignUp(e, NODE_ALIGN);
    if b + MIN_REGION <= r.End() {
      WfWeaken(p, lo, e - 1, lo, b - 1);
      InsertBetween(p, q, Region(b, r.End() - b), lo, r.End() + 1, hi);
    }
  }

  lemma ConsWf(x: Region, q: seq<Region>, lo: int, hi: int)
    requires Good(x, lo, hi) && Wf(q, x.End() + 1, hi)
    ensures Wf([x] + q, lo, hi)
  {
    assert ([x] + q)[1..] == q;
  }

  lemma {:induction false} WithBackWf(r: Region, e: nat, q: seq<Region>, lo: int, hi: int)
    requires lo <= e <= r.End() <= hi && Wf(q, r.End() + 1, hi)
    ensures Wf(WithBack(r, e, q), lo, hi)
  {
    var b := AlignUp(e, NODE_ALIGN);
    if b + MIN_REGION <= r.End() {
      ConsWf(Region(b, r.End() - b), q, lo, hi);
    } else {
      WfWeaken(q, r.End() + 1, hi, lo, hi);
    }
  }

  lemma {:induction false} WithFrontWf(r: Region, s: nat, q: seq<Region>, lo: int, hi: int)
    requires Good(r, lo, hi) && r.start <= s <= r.End() && Wf(q, s + 1, hi)
    ensures Wf(WithFront(r, s, q), r.start, hi)
  {
    if s - r.start >= MIN_REGION {
      ConsWf(Region(r.start, s - r.start), q, r.start, hi);
    } else {
      WfWeaken(q, s + 1, hi, r.start, hi);
    }
  }

  /** The split keeps the list well formed. */
  lemma {:induction false} SplitWf(p: seq<Region>, r: Region, q: seq<Region>, s: nat, e: nat, lo: int, hi: int)
    requires Amid(p, r, q, lo, hi) && r.start <= s < e <= r.End()
    ensures Wf(Split(p, r, q, s, e), lo, hi)
  {
    WithBackWf(r, e, q, s + 1, hi);
    WithFrontWf(r, s, WithBack(r, e, q), lo, hi);
    WfConcat(p, WithFront(r, s, WithBack(r, e, q)), lo, r.start - 1, hi);
  }

  lemma ConsRemaining(x: Region, q: seq<Region>)
    ensures Remaining([x] + q) == x.size + Remaining(q)
  {
    assert ([x] + q)[1..] == q;
  }

  lemma BackRemaining(r: Region, e: nat, q: seq<Region>)
    requires e <= r.End()
    ensures Remaining(WithBack(r, e, q)) == Remaining(q) + r.End() - e - BackLeak(r, e)
  {
    var b := AlignUp(e, NODE_ALIGN);
    if b + MIN_REGION <= r.End() {
      ConsRemaining(Region(b, r.End() - b), q);
    }
  }

  lemma FrontRemaining(r: Region, s: nat, q: seq<Region>)
    requires r.start <= s
    ensures Remaining(WithFront(r, s, q)) == Remaining(q) + s - r.start - FrontLeak(r, s)
  {
    if s - r.start >= MIN_REGION {
      ConsRemaining(Region(r.start, s - r.start), q);
    }
  }

  /** Accounting: the list loses exactly the block and the leak. */
  lemma {:induction false} SplitAccounting(p: seq<Region>, r: Region, q: seq<Region>, s: nat, n: nat)
    requires r.start <= s && s + n <= r.End()
    ensures Remaining(p + [r] + q) == Remaining(Split(p, r, q, s, s + n)) + n + Leak(r, s, n)
  {
    RemainingThree(p, [r], q);
    BackRemaining(r, s + n, q);
    FrontRemaining(r, s, WithBack(r, s + n, q));
    RemainingConcat(p, WithFront(r, s, WithBack(r, s + n, q)));
  }

  lemma {:induction false} RemainingThree(p: seq<Region>, m: seq<Region>, q: seq<Region>)
    ensures Remaining(p + m + q) == Remaining(p) + Remaining(m) + Remaining(q)
  {
    RemainingConcat(p + m, q);
    RemainingConcat(p, m);
  }

  lemma {:induction false} PlaceCovers(p: seq<Region>, r: Region, q: seq<Region>, b: nat)
    ensures Covers(p + [r] + q, b) <==> Covers(p, b) || r.Has(b) || Covers(q, b)
  {
    CoversConcat(p + [r], q, b);
    CoversConcat(p, [r], b);
  }

  /** Free bytes after the split: those free before, minus the block and the leak. */
  lemma {:induction false} SplitCovers(p: seq<Region>, r: Region, q: seq<Region>, s: nat, e: nat, b: nat)
    requires r.start <= s < e <= r.End()
    ensures Covers(Split(p, r, q, s, e), b) ==> Covers(p, b) || (r.Has(b) && !(s <= b < e)) || Covers(q, b)
    ensures Covers(p, b) || Covers(q, b) ==> Covers(Split(p, r, q, s, e), b)
    ensures FrontLeak(r, s) == BackLeak(r, e) == 0 && r.Has(b) && !(s <= b < e) ==> Covers(Split(p, r, q, s, e), b)
  {
    BackCovers(r, e, q, b);
    FrontCovers(r, s, WithBack(r, e, q), b);
    CoversConcat(p, WithFront(r, s, WithBack(r, e, q)), b);
  }

  lemma ConsCovers(x: Region, q: seq<Region>, b: nat)
    ensures Covers([x] + q, b) <==> x.Has(b) || Covers(q, b)
  {
    assert ([x] + q)[1..] == q;
  }

  lemma BackCovers(r: Region, e: nat, q: seq<Region>, b: nat)
    requires r.start <= e <= r.End()
    ensures Covers(WithBack(r, e, q), b) ==> (r.Has(b) && e <= b) || Covers(q, b)
    ensures Covers(q, b) || (BackLeak(r, e) == 0 && r.Has(b) && e <= b) ==> Covers(WithBack(r, e, q), b)
  {
    var at := AlignUp(e, NODE_ALIGN);
    if at + MIN_REGION <= r.End() {
      ConsCovers(Region(at, r.End() - at), q, b);
    }
  }

  lemma FrontCovers(r: Region, s: nat, q: seq<Region>, b: nat)
    requires r.start <= s <= r.End()
    ensures Covers(WithFront(r, s, q), b) ==> (r.Has(b) && b < s) || Covers(q, b)
    ensures Covers(q, b) || (FrontLeak(r, s) == 0 && r.Has(b) && b < s) ==> Covers(WithFront(r, s, q), b)
  {
    if s - r.start >= MIN_REGION {
      ConsCovers(Region(r.start, s - r.start), q, b);
    }
  }

  lemma ConsMisses(y: Region, q: seq<Region>, x: Region)
    requires Apart(y, x) && Misses(q, x)
    ensures Misses([y] + q, x)
  {
    assert ([y] + q)[1..] == q;
  }

  /** What lies apart from p, q and the rest of r misses the split list. */
  lemma {:induction false} SplitMisses(p: seq<Region>, r: Region, q: seq<Region>, s: nat, e: nat, x: Region)
    requires r.start <= s < e <= r.End() && Misses(p, x) && Misses(q, x)
    requires Apart(Region(r.start, s - r.start), x) && Apart(Region(e, r.End() - e), x)
    ensures Misses(Split(p, r, q, s, e), x)
  {
    var b, back := AlignUp(e, NODE_ALIGN), WithBack(r, e, q);
    if b + MIN_REGION <= r.End() {
      ConsMisses(Region(b, r.End() - b), q, x);
    }
    if s - r.start >= MIN_REGION {
      ConsMisses(Region(r.start, s - r.start), back, x);
    }
    MissesConcat(p, WithFront(r, s, back), x);
  }

  /** The block handed out overlaps nothing that stays free. */
  lemma {:induction false} BlockMisses(p: seq<Region>, r: Region, q: seq<Region>, s: nat, n: nat, lo: int, hi: int)
    requires Amid(p, r, q, lo, hi) && Inside(r, s, n)
    ensures Misses(Split(p, r, q, s, s + n), Region(s, n))
  {
    MissesOutside(p, lo, r.start - 1, Region(s, n));
    MissesOutside(q, r.End() + 1, hi, Region(s, n));
    SplitMisses(p, r, q, s, s + n, Region(s, n));
  }

  /** Reversibility: returning the block of an allocation that leaked nothing restores the very
      same free list. */
  lemma {:induction false} SplitThenInsert(p: seq<Region>, r: Region, q: seq<Region>, s: nat, n: nat, lo: int, hi: int)
    requires Amid(p, r, q, lo, hi) && Bounds(lo, hi) && Inside(r, s, n) && Leak(r, s, n) == 0
    ensures InsertRegion(Split(p, r, q, s, s + n), s, n) == p + [r] + q
  {
    var g, whole, block := Split(p, r, q, s, s + n), p + [r] + q, Region(s, n);
    SplitFacts(p, r, q, s, n, lo, hi, g, whole, block);
    Restores(g, block, whole, lo, hi);
  }

  lemma {:induction false} SplitFacts(p: seq<Region>, r: Region, q: seq<Region>, s: nat, n: nat, lo: int, hi: int,
    g: seq<Region>, whole: seq<Region>, block: Region)
    requires Amid(p, r, q, lo, hi) && Inside(r, s, n) && Leak(r, s, n) == 0
    requires g == Split(p, r, q, s, s + n) && whole == p + [r] + q && block == Region(s, n)
    ensures Wf(g, lo, hi) && Wf(whole, lo, hi) && Good(block, lo, hi) && Misses(g, block)
    ensures forall b: nat :: Covers(whole, b) <==> Covers(g, b) || block.Has(b)
  {
    SplitWf(p, r, q, s, s + n, lo, hi);
    BlockMisses(p, r, q, s, n, lo, hi);
    WholeCovers(p, r, q, s, n, lo, hi, g, whole);
  }

  lemma {:induction false} WholeCovers(p: seq<Region>, r: Region, q: seq<Region>, s: nat, n: nat, lo: int, hi: int,
    g: seq<Region>, whole: seq<Region>)
    requires Amid(p, r, q, lo, hi) && Inside(r, s, n) && Leak(r, s, n) == 0
    requires g == Split(p, r, q, s, s + n) && whole == p + [r] + q
    ensures Wf(whole, lo, hi) && forall b: nat :: Covers(whole, b) <==> Covers(g, b) || Region(s, n).Has(b)
  {
    PlaceWf(p, r, q, lo, hi);
    forall b: nat ensures Covers(whole, b) <==> Covers(g, b) || Region(s, n).Has(b) {
      LeakFreeCovers(p, r, q, s, n, b);
    }
  }

  lemma {:induction false} PlaceWf(p: seq<Region>, r: Region, q: seq<Region>, lo: int, hi: int)
    requires Amid(p, r, q, lo, hi)
    ensures Wf(p + [r] + q, lo, hi)
  {
    WfConcat(p, [r], lo, r.start - 1, r.End());
    WfConcat(p + [r], q, lo, r.End(), hi);
  }

  lemma {:induction false} LeakFreeCovers(p: seq<Region>, r: Region, q: seq<Region>, s: nat, n: nat, b: nat)
    requires Inside(r, s, n) && Leak(r, s, n) == 0
    ensures Covers(p + [r] + q, b) <==> Covers(Split(p, r, q, s, s + n), b) || Region(s, n).Has(b)
  {
    SplitCovers(p, r, q, s, s + n, b);
    PlaceCovers(p, r, q, b);
  }

  /** Freeing a block yields the one coalesced list that covers the free bytes and the block. */
  lemma {:induction false} Restores(g: seq<Region>, block: Region, f: seq<Region>, lo: int, hi: int)
    requires Wf(g, lo, hi) && Wf(f, lo, hi) && Bounds(lo, hi) && Good(block, lo, hi) && Misses(g, block)
    requires forall b: nat :: Covers(f, b) <==> Covers(g, b) || block.Has(b)
    ensures InsertRegion(g, block.start, block.size) == f
  {
    InsertWf(g, block, lo, hi);
    var h := Insert(g, block);
    forall b: nat ensures Covers(h, b) <==> Covers(f, b) {
      InsertCovers(g, block, b);
    }
    Canonical(h, f, lo, hi);
    InsertGood(g, block, lo, hi);
  }

  lemma InsertGood(g: seq<Region>, block: Region, lo: int, hi: int)
    requires Bounds(lo, hi) && Good(block, lo, hi)
    ensures InsertRegion(g, block.start, block.size) == Insert(g, block)
  {
    AlignedUp(block.start, NODE_ALIGN);
  }
}
