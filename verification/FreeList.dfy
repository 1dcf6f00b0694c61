/** The free list of the kernel heap as a value: an address-ordered sequence of regions.
    `Insert` is address-ordered insertion with two-way coalescing; the pointer-level allocator is
    proved against it. */
module FreeList {
  import opened Alignment

  const MIN_REGION: nat := 16 // size of a list node
  const NODE_ALIGN: nat := 8  // alignment of a list node

  datatype Region = Region(start: nat, size: nat) {
    function End(): nat { start + size }
    predicate Has(b: nat) { start <= b < End() }
  }

  datatype Layout = Layout(size: nat, align: nat) {
    predicate Valid() { IsPow2(align) }
    function Size(): (n: nat)
      ensures n >= size && n >= 16 && (n == size || n == 16)
    {
      if size < MIN_REGION then MIN_REGION else size
    }
    function Align(): (a: nat)
      ensures a >= align && a >= 8 && (a == align || a == 8)
    {
      if align < NODE_ALIGN then NODE_ALIGN else align
    }
  }

  /** The heap occupies [lo, hi) of the 64-bit address space, away from null and from wrap-around. */
  predicate Bounds(lo: int, hi: int) {
    0 < lo <= hi && hi + NODE_ALIGN < WORD
  }

  /** A region of [lo, hi) that can hold its own list node. */
  predicate Good(r: Region, lo: int, hi: int) {
    r.start % NODE_ALIGN == 0 && r.size >= MIN_REGION && lo <= r.start && r.End() <= hi
  }

  /** Good regions of [lo, hi), strictly ascending and fully coalesced: none touches the next. */
  predicate Wf(f: seq<Region>, lo: int, hi: int) {
    f == [] || (Good(f[0], lo, hi) && Wf(f[1..], f[0].End() + 1, hi))
  }

  predicate Apart(r: Region, s: Region) {
    r.End() <= s.start || s.End() <= r.start
  }

  predicate Misses(f: seq<Region>, r: Region) {
    f == [] || (Apart(f[0], r) && Misses(f[1..], r))
  }

  /** Byte b is free. */
  predicate Covers(f: seq<Region>, b: nat) {
    f != [] && (f[0].Has(b) || Covers(f[1..], b))
  }

  function Remaining(f: seq<Region>): nat {
    if f == [] then 0 else f[0].size + Remaining(f[1..])
  }

  // ---------------------------------------------------------------- lists, concatenated and split

  lemma {:induction false} WfWeaken(f: seq<Region>, lo: int, hi: int, lo': int, hi': int)
    requires Wf(f, lo, hi) && lo' <= lo && hi <= hi'
    ensures Wf(f, lo', hi')
  {
    if f == [] {
    } else {
      WfWeaken(f[1..], f[0].End() + 1, hi, f[0].End() + 1, hi');
    }
  }

  lemma {:induction false} WfConcat(f: seq<Region>, g: seq<Region>, lo: int, mid: int, hi: int)
    requires Wf(f, lo, mid) && Wf(g, mid + 1, hi) && lo <= mid + 1 && mid <= hi
    ensures Wf(f + g, lo, hi)
  {
    if f == [] {
      assert f + g == g;
      WfWeaken(g, mid + 1, hi, lo, hi);
    } else {
      assert (f + g)[1..] == f[1..] + g;
      WfConcat(f[1..], g, f[0].End() + 1, mid, hi);
    }
  }

  lemma {:induction false} WfAt(f: seq<Region>, i: nat, lo: int, hi: int)
    requires Wf(f, lo, hi) && i < |f|
    ensures Wf(f[..i], lo, f[i].start - 1) && Good(f[i], lo, hi) && Wf(f[i + 1..], f[i].End() + 1, hi)
  {
    if i == 0 {
    } else {
      var t := f[1..];
      WfAt(t, i - 1, f[0].End() + 1, hi);
      assert f[..i][1..] == t[..i - 1] && t[i..] == f[i + 1..];
    }
  }

  lemma {:induction false} WfOrder(f: seq<Region>, i: nat, j: nat, lo: int, hi: int)
    requires Wf(f, lo, hi) && i < j < |f|
    ensures f[i].End() < f[j].start
  {
    WfAt(f, i, lo, hi);
    var t := f[i + 1..];
    WfAt(t, j - i - 1, f[i].End() + 1, hi);
    assert t[j - i - 1] == f[j];
  }

  lemma {:induction false} RemainingConcat(f: seq<Region>, g: seq<Region>)
    ensures Remaining(f + g) == Remaining(f) + Remaining(g)
  {
    if f == [] {
      assert f + g == g;
    } else {
      assert (f + g)[1..] == f[1..] + g;
      RemainingConcat(f[1..], g);
    }
  }

  lemma {:induction false} CoversConcat(f: seq<Region>, g: seq<Region>, b: nat)
    ensures Covers(f + g, b) <==> Covers(f, b) || Covers(g, b)
  {
    if f == [] {
      assert f + g == g;
    } else {
      assert (f + g)[1..] == f[1..] + g;
      CoversConcat(f[1..], g, b);
    }
  }

  lemma {:induction false} MissesConcat(f: seq<Region>, g: seq<Region>, r: Region)
    ensures Misses(f + g, r) <==> Misses(f, r) && Misses(g, r)
  {
    if f == [] {
      assert f + g == g;
    } else {
      assert (f + g)[1..] == f[1..] + g;
      MissesConcat(f[1..], g, r);
    }
  }

  lemma {:induction false} CoversBounds(f: seq<Region>, lo: int, hi: int, b: nat)
    requires Wf(f, lo, hi) && Covers(f, b)
    ensures lo <= b < hi
  {
    if f[0].Has(b) {
    } else {
      CoversBounds(f[1..], f[0].End() + 1, hi, b);
    }
  }

  /** A list inside [lo, hi) misses what lies outside. */
  lemma {:induction false} MissesOutside(f: seq<Region>, lo: int, hi: int, r: Region)
    requires Wf(f, lo, hi) && (r.End() <= lo || hi <= r.start)
    ensures Misses(f, r)
  {
    if f == [] {
    } else {
      MissesOutside(f[1..], f[0].End() + 1, hi, r);
    }
  }

  lemma {:induction false} MissesCovers(f: seq<Region>, r: Region, b: nat)
    requires Misses(f, r) && r.Has(b)
    ensures !Covers(f, b)
  {
    if f == [] {
    } else {
      MissesCovers(f[1..], r, b);
    }
  }

  // ---------------------------------------------------------------- canonical form

  /** A coalesced ascending list is determined by the bytes it covers. */
  lemma {:induction false} Canonical(f: seq<Region>, g: seq<Region>, lo: int, hi: int)
    requires Wf(f, lo, hi) && Wf(g, lo, hi)
    requires forall b: nat :: Covers(f, b) <==> Covers(g, b)
    ensures f == g
    decreases |f|
  {
    assert f == [] || Covers(f, f[0].start);
    assert g == [] || Covers(g, g[0].start);
    if f == [] {
    } else {
      FirstAtMost(f, g, lo, hi);
      FirstAtMost(g, f, lo, hi);
      EndAtMost(f, g, lo, hi);
      EndAtMost(g, f, lo, hi);
      forall b: nat ensures Covers(f[1..], b) <==> Covers(g[1..], b) {
        TailCovers(f, lo, hi, b);
        TailCovers(g, lo, hi, b);
      }
      Canonical(f[1..], g[1..], f[0].End() + 1, hi);
    }
  }

  lemma {:induction false} TailCovers(f: seq<Region>, lo: int, hi: int, b: nat)
    requires Wf(f, lo, hi) && f != []
    ensures Covers(f[1..], b) <==> Covers(f, b) && b >= f[0].End()
  {
    if Covers(f[1..], b) {
      CoversBounds(f[1..], f[0].End() + 1, hi, b);
    }
  }

  lemma {:induction false} FirstAtMost(f: seq<Region>, g: seq<Region>, lo: int, hi: int)
    requires Wf(f, lo, hi) && Wf(g, lo, hi) && f != [] && g != []
    requires forall b: nat :: Covers(f, b) ==> Covers(g, b)
    ensures g[0].start <= f[0].start
  {
    assert Covers(f, f[0].start);
    TailCovers(g, lo, hi, f[0].start);
  }

  lemma {:induction false} EndAtMost(f: seq<Region>, g: seq<Region>, lo: int, hi: int)
    requires Wf(f, lo, hi) && Wf(g, lo, hi) && f != [] && g != [] && f[0].start == g[0].start
    requires forall b: nat :: Covers(g, b) ==> Covers(f, b)
    ensures g[0].End() <= f[0].End()
  {
    var e := f[0].End();
    if Covers(f[1..], e) {
      CoversBounds(f[1..], e + 1, hi, e);
    }
    assert !Covers(f, e);
    assert !Covers(g, e);
  }

  // ---------------------------------------------------------------- insertion

  /** Address-ordered insertion; a region that touches a neighbour merges with it. */
  function Insert(f: seq<Region>, r: Region): seq<Region> {
    if f == [] || r.End() < f[0].start then [r] + f
    else if r.End() == f[0].start then [Region(r.start, r.size + f[0].size)] + f[1..]
    else if f[0].End() == r.start then Insert(f[1..], Region(f[0].start, f[0].size + r.size))
    else [f[0]] + Insert(f[1..], r)
  }

  /** `insert_region`: align the start up, keep the end, drop what cannot hold a node. */
  function InsertRegion(f: seq<Region>, addr: nat, size: nat): seq<Region> {
    var start := AlignUp(addr, NODE_ALIGN);
    if addr + size >= WORD || addr + size < start + MIN_REGION then f
    else Insert(f, Region(start, addr + size - start))
  }

  lemma {:induction false} MissesMerged(f: seq<Region>, last: Region, r: Region, hi: int)
    requires Wf(f, last.End() + 1, hi) && Misses(f, r) && last.End() == r.start && r.size > 0
    ensures Misses(f, Region(last.start, last.size + r.size))
  {
    if f != [] {
      MissesOutside(f[1..], f[0].End() + 1, hi, Region(last.start, last.size + r.size));
    }
  }

  /** Insertion keeps the list well formed: ascending, aligned, in bounds and fully coalesced. */
  lemma {:induction false} InsertWf(f: seq<Region>, r: Region, lo: int, hi: int)
    requires Wf(f, lo, hi) && Good(r, lo, hi) && Misses(f, r)
    ensures Wf(Insert(f, r), lo, hi)
    decreases |f|
  {
    if f == [] || r.End() < f[0].start {
      if f != [] {
        assert Wf(f, r.End() + 1, hi);
      }
      assert ([r] + f)[1..] == f;
    } else if r.End() == f[0].start {
      var m := Region(r.start, r.size + f[0].size);
      assert ([m] + f[1..])[1..] == f[1..];
    } else if f[0].End() == r.start {
      MissesMerged(f[1..], f[0], r, hi);
      WfWeaken(f[1..], f[0].End() + 1, hi, lo, hi);
      InsertWf(f[1..], Region(f[0].start, f[0].size + r.size), lo, hi);
    } else {
      InsertWf(f[1..], r, f[0].End() + 1, hi);
      assert ([f[0]] + Insert(f[1..], r))[1..] == Insert(f[1..], r);
    }
  }

  /** Insertion adds exactly r's bytes. */
  lemma {:induction false} InsertRemaining(f: seq<Region>, r: Region)
    ensures Remaining(Insert(f, r)) == Remaining(f) + r.size
    decreases |f|
  {
    if f == [] || r.End() < f[0].start {
      assert ([r] + f)[1..] == f;
    } else if r.End() == f[0].start {
      assert ([Region(r.start, r.size + f[0].size)] + f[1..])[1..] == f[1..];
    } else if f[0].End() == r.start {
      InsertRemaining(f[1..], Region(f[0].start, f[0].size + r.size));
    } else {
      InsertRemaining(f[1..], r);
      assert ([f[0]] + Insert(f[1..], r))[1..] == Insert(f[1..], r);
    }
  }

  lemma {:induction false} InsertCovers(f: seq<Region>, r: Region, b: nat)
    ensures Covers(Insert(f, r), b) <==> Covers(f, b) || r.Has(b)
    decreases |f|
  {
    if f == [] || r.End() < f[0].start {
      assert ([r] + f)[1..] == f;
    } else if r.End() == f[0].start {
      assert ([Region(r.start, r.size + f[0].size)] + f[1..])[1..] == f[1..];
    } else if f[0].End() == r.start {
      InsertCovers(f[1..], Region(f[0].start, f[0].size + r.size), b);
    } else {
      InsertCovers(f[1..], r, b);
      assert ([f[0]] + Insert(f[1..], r))[1..] == Insert(f[1..], r);
    }
  }

  /** Regions that end before r starts are passed over. */
  lemma {:induction false} InsertSkips(p: seq<Region>, q: seq<Region>, r: Region, lo: int)
    requires Wf(p, lo, r.start - 1)
    ensures Insert(p + q, r) == p + Insert(q, r)
  {
    if p == [] {
      assert p + q == q && p + Insert(q, r) == Insert(q, r);
    } else {
      var rest := p[1..];
      InsertSkips(rest, q, r, p[0].End() + 1);
      assert (p + q)[1..] == rest + q && (p + q)[0] == p[0];
      assert [p[0]] + (rest + Insert(q, r)) == p + Insert(q, r);
    }
  }
}
