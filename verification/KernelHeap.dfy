/** The allocator itself: list nodes live inside the free memory they describe and point at each
    other by address. Every operation is proved against the value-level free list. */
module KernelHeap {
  import opened Alignment
  import opened FreeList
  import opened FirstFit
  import opened HeapRuns

  /** A list node as stored at the start of a free region; next == 0 ends the list. */
  datatype Node = Node(size: nat, next: nat)

  /** Following the links from `at` visits exactly the regions of f and arrives at `to`. */
  predicate Seg(at: nat, nodes: map<nat, Node>, f: seq<Region>, to: nat)
    decreases |f|
  {
    if f == [] then at == to
    else
      && at == f[0].start && at != 0 && at in nodes && nodes[at].size == f[0].size
      && Seg(nodes[at].next, nodes, f[1..], to)
  }

  /** Address of the last node of p; 0 stands for the list head. */
  function LastAddr(p: seq<Region>): nat {
    if p == [] then 0 else p[|p| - 1].start
  }

  /** Absorb the regions that start where r ends. */
  function MergeRight(r: Region, q: seq<Region>): seq<Region>
    decreases |q|
  {
    if q != [] && r.End() == q[0].start then MergeRight(Region(r.start, r.size + q[0].size), q[1..])
    else [r] + q
  }

  // ---------------------------------------------------------------- chains

  lemma {:induction false} SegConcat(at: nat, nodes: map<nat, Node>, p: seq<Region>, mid: nat, q: seq<Region>, to: nat)
    requires Seg(at, nodes, p, mid) && Seg(mid, nodes, q, to)
    ensures Seg(at, nodes, p + q, to)
    decreases |p|
  {
    if p == [] {
      assert p + q == q;
    } else {
      assert (p + q)[1..] == p[1..] + q;
      SegConcat(nodes[at].next, nodes, p[1..], mid, q, to);
    }
  }

  /** Writing a node below or above a chain leaves the chain alone. */
  lemma {:induction false} SegFrame(at: nat, nodes: map<nat, Node>, f: seq<Region>, to: nat, key: nat, n: Node,
    lo: int, hi: int)
    requires Seg(at, nodes, f, to) && Wf(f, lo, hi) && (key < lo || hi <= key)
    ensures Seg(at, nodes[key := n], f, to)
    decreases |f|
  {
    if f == [] {
    } else {
      SegFrame(nodes[at].next, nodes, f[1..], to, key, n, f[0].End() + 1, hi);
    }
  }

  /** Redirecting the last link of a chain. */
  lemma {:induction false} SegRelink(at: nat, nodes: map<nat, Node>, p: seq<Region>, to: nat, to': nat, lo: int,
    hi: int)
    requires Seg(at, nodes, p, to) && Wf(p, lo, hi) && p != []
    ensures LastAddr(p) in nodes
    ensures Seg(at, nodes[LastAddr(p) := nodes[LastAddr(p)].(next := to')], p, to')
    decreases |p|
  {
    if |p| <= 1 {
    } else {
      assert LastAddr(p[1..]) == LastAddr(p);
      SegRelink(nodes[at].next, nodes, p[1..], to, to', p[0].End() + 1, hi);
      WfAt(p, |p| - 1, lo, hi);
      WfOrder(p, 0, |p| - 1, lo, hi);
    }
  }

  lemma {:induction false} SegSnoc(at: nat, nodes: map<nat, Node>, p: seq<Region>, r: Region, mid: nat)
    requires mid in nodes && Seg(at, nodes, p, mid) && Seg(mid, nodes, [r], nodes[mid].next)
    ensures Seg(at, nodes, p + [r], nodes[mid].next)
  {
    SegConcat(at, nodes, p, mid, [r], nodes[mid].next);
  }

  /** A walk from `at` along the chain of f to `to` has passed i nodes: current is the last of them and
      next the one to come. */
  ghost predicate Walked(at: nat, nodes: map<nat, Node>, f: seq<Region>, to: nat, i: nat, current: nat, next: nat) {
    && i <= |f| && Seg(at, nodes, f[..i], next) && Seg(next, nodes, f[i..], to)
    && current == LastAddr(f[..i])
  }

  lemma WalkBegins(at: nat, nodes: map<nat, Node>, f: seq<Region>, to: nat)
    requires Seg(at, nodes, f, to)
    ensures Walked(at, nodes, f, to, 0, 0, at)
  {
    assert f[0..] == f;
  }

  /** As long as the end is not reached the walk is at a region of f and goes on behind it. */
  lemma {:induction false} WalkGoesOn(at: nat, nodes: map<nat, Node>, f: seq<Region>, to: nat, i: nat, current: nat,
    next: nat)
    requires Walked(at, nodes, f, to, i, current, next) && next != to
    ensures i < |f| && next == f[i].start && next in nodes && nodes[next].size == f[i].size
    ensures Walked(at, nodes, f, to, i + 1, next, nodes[next].next)
  {
    var q := f[i..];
    assert q != [] && q[0] == f[i] && q[1..] == f[i + 1..];
    var one := [f[i]];
    assert one[1..] == [];
    SegSnoc(at, nodes, f[..i], f[i], next);
    assert f[..i] + one == f[..i + 1];
  }

  /** A walk to the node behind a chain that lies below it ends behind the whole chain. */
  lemma {:induction false} WalkOver(at: nat, nodes: map<nat, Node>, f: seq<Region>, to: nat, i: nat, current: nat,
    limit: nat, lo: int)
    requires Walked(at, nodes, f, to, i, current, to) && Wf(f, lo, limit) && to == limit
    ensures i == |f| && current == LastAddr(f)
  {
    if i < |f| {
      WfAt(f, i, lo, limit);
    }
    assert f[..|f|] == f;
  }

  lemma {:induction false} WalkAll(at: nat, nodes: map<nat, Node>, f: seq<Region>, i: nat, current: nat, lo: int,
    hi: int)
    requires Walked(at, nodes, f, 0, i, current, 0) && Wf(f, lo, hi) && lo > 0
    ensures i == |f|
  {
    if i < |f| {
      WfAt(f, i, lo, hi);
    }
  }

  /** The last node of a chain. */
  lemma {:induction false} SegLast(at: nat, nodes: map<nat, Node>, p: seq<Region>, to: nat)
    requires Seg(at, nodes, p, to) && p != []
    ensures var last := p[|p| - 1];
      && last.start != 0 && last.start in nodes && nodes[last.start] == Node(last.size, to)
      && Seg(at, nodes, p[..|p| - 1], last.start)
    decreases |p|
  {
    if |p| <= 1 {
    } else {
      SegLast(nodes[at].next, nodes, p[1..], to);
      assert p[1..][..|p| - 2] == p[..|p| - 1][1..];
    }
  }

  // ---------------------------------------------------------------- merging is insertion

  lemma {:induction false} MergeRightInserts(r: Region, q: seq<Region>, hi: int)
    requires Wf(q, r.End(), hi)
    ensures MergeRight(r, q) == Insert(q, r)
  {
    if q != [] && r.End() == q[0].start {
      var m := Region(r.start, r.size + q[0].size);
      if q[1..] != [] {
        assert m.End() < q[1..][0].start;
      }
      assert MergeRight(m, q[1..]) == [m] + q[1..];
    }
  }

  /** Absorbing rightwards twice, with a left neighbour joined in between, absorbs once. */
  lemma {:induction false} MergeLeft(last: Region, r: Region, q: seq<Region>, hi: int)
    requires last.End() == r.start && r.size > 0 && Wf(q, r.End(), hi)
    ensures var m := MergeRight(r, q);
      m != [] && m[0].start == r.start
      && MergeRight(Region(last.start, last.size + m[0].size), m[1..]) == Insert([last] + q, r)
  {
    MergedShape(r, q, hi);
    MergeTwice(last, r, q, hi);
    MergeRightInserts(Region(last.start, last.size + r.size), q, hi);
    InsertBehind(last, r, q);
  }

  lemma {:induction false} MergeTwice(last: Region, r: Region, q: seq<Region>, hi: int)
    requires last.End() == r.start && Wf(q, r.End(), hi) && MergeRight(r, q) != []
    ensures var m := MergeRight(r, q);
      MergeRight(Region(last.start, last.size + m[0].size), m[1..])
      == MergeRight(Region(last.start, last.size + r.size), q)
  {
    var m := MergeRight(r, q);
    MergeRightInserts(r, q, hi);
    if q != [] && r.End() == q[0].start {
      assert m[1..] == q[1..];
    } else {
      assert m[1..] == q;
    }
  }

  lemma InsertBehind(last: Region, r: Region, q: seq<Region>)
    requires last.End() == r.start && r.size > 0
    ensures Insert([last] + q, r) == Insert(q, Region(last.start, last.size + r.size))
  {
    assert ([last] + q)[1..] == q;
  }

  lemma {:induction false} MergedShape(r: Region, q: seq<Region>, hi: int)
    requires Wf(q, r.End(), hi)
    ensures var m := MergeRight(r, q);
      m != [] && m == [m[0]] + m[1..] && m[0].start == r.start && m[0].size >= r.size && Wf(m[1..], m[0].End(), hi)
    decreases |q|
  {
    if q != [] && r.End() == q[0].start {
      var m := Region(r.start, r.size + q[0].size);
      WfWeaken(q[1..], q[0].End() + 1, hi, m.End(), hi);
      MergedShape(m, q[1..], hi);
    } else {
      assert ([r] + q)[1..] == q;
    }
  }

  lemma {:induction false} WfTighten(p: seq<Region>, lo: int, hi: int, hi': int)
    requires Wf(p, lo, hi) && (p != [] ==> p[|p| - 1].End() <= hi')
    ensures Wf(p, lo, hi')
    decreases |p|
  {
    if |p| == 1 {
      assert p[0] == p[|p| - 1];
    } else if |p| > 1 {
      WfTighten(p[1..], p[0].End() + 1, hi, hi');
      assert Good(p[1], p[0].End() + 1, hi');
    }
  }

  /** The list p with the piece kept in front of the block behind it, if there is one. */
  function Kept(p: seq<Region>, r: Region, s: nat): seq<Region>
    requires r.start <= s
  {
    if s - r.start >= MIN_REGION then p + [Region(r.start, s - r.start)] else p
  }

  lemma KeptIs(p: seq<Region>, r: Region, s: nat, q: seq<Region>)
    requires r.start <= s
    ensures Kept(p, r, s) + q == p + WithFront(r, s, q)
  {
  }

  lemma {:induction false} FrontRoom(p: seq<Region>, r: Region, s: nat, n: nat, lo: int, hi: int)
    requires Wf(p, lo, r.start - 1) && Good(r, lo, hi) && Inside(r, s, n)
    ensures Wf(Kept(p, r, s), lo, s + n - 1)
  {
    if s - r.start >= MIN_REGION {
      WfConcat(p, [Region(r.start, s - r.start)], lo, r.start - 1, s + n - 1);
    } else {
      WfWeaken(p, lo, r.start - 1, lo, s + n - 1);
    }
  }

  lemma PickedAt(f: seq<Region>, p: seq<Region>, q: seq<Region>)
    requires f == p + q && q != []
    ensures f[..|p|] == p && f[|p|] == q[0] && f[|p| + 1..] == q[1..]
    ensures q == [q[0]] + q[1..] && f == p + [q[0]] + q[1..]
  {
  }

  lemma Reassemble(p: seq<Region>, m: seq<Region>)
    requires m != []
    ensures p + [m[0]] + m[1..] == p + m
  {
  }

  /** The two merges after linking r between p and q amount to coalescing insertion. */
  lemma {:induction false} MergesInsert(p: seq<Region>, r: Region, q: seq<Region>, lo: int, hi: int)
    requires Good(r, lo, hi) && Wf(p, lo, r.start) && Wf(q, r.End(), hi)
    ensures var m := MergeRight(r, q);
      m != [] &&
      (if p != [] && p[|p| - 1].End() == m[0].start
       then p[..|p| - 1] + MergeRight(Region(p[|p| - 1].start, p[|p| - 1].size + m[0].size), m[1..])
       else p + [m[0]] + m[1..]) == Insert(p + q, r)
  {
    MergedShape(r, q, hi);
    var m := MergeRight(r, q);
    if p != [] { WfAt(p, |p| - 1, lo, r.start); }
    if p != [] && p[|p| - 1].End() == r.start {
      assert p == p[..|p| - 1] + [p[|p| - 1]];
      MergesLeft(p[..|p| - 1], p[|p| - 1], r, q, lo, hi);
    } else {
      WfTighten(p, lo, r.start, r.start - 1);
      InsertSkips(p, q, r, lo);
      MergeRightInserts(r, q, hi);
      Reassemble(p, m);
    }
  }

  lemma {:induction false} MergesLeft(p: seq<Region>, last: Region, r: Region, q: seq<Region>, lo: int, hi: int)
    requires Wf(p, lo, last.start - 1) && last.End() == r.start && r.size > 0 && Wf(q, r.End(), hi)
    ensures var m := MergeRight(r, q);
      m != [] && p + MergeRight(Region(last.start, last.size + m[0].size), m[1..]) == Insert(p + [last] + q, r)
  {
    WfWeaken(p, lo, last.start - 1, lo, r.start - 1);
    InsertSkips(p, [last] + q, r, lo);
    assert p + [last] + q == p + ([last] + q);
    MergeLeft(last, r, q, hi);
  }

  lemma {:induction false} MissesPart(f: seq<Region>, r: Region, part: Region)
    requires Misses(f, r) && r.start <= part.start && part.End() <= r.End()
    ensures Misses(f, part)
  {
    if f == [] {
    } else {
      MissesPart(f[1..], r, part);
    }
  }

  /** What a list has in front of r and what it has behind it. */
  lemma {:induction false} Straddle(f: seq<Region>, i: nat, r: Region, lo: int, hi: int)
    requires Wf(f, lo, hi) && Misses(f, r) && r.size > 0 && i <= |f|
    requires (i > 0 ==> f[i - 1].start < r.start) && (i < |f| ==> f[i].start >= r.start)
    ensures Wf(f[..i], lo, r.start) && Wf(f[i..], r.End(), hi)
    decreases i
  {
    if i == 0 {
      assert f[0..] == f;
    } else {
      if i > 1 {
        WfOrder(f, 0, i - 1, lo, hi);
      }
      var t := f[1..];
      Straddle(t, i - 1, r, f[0].End() + 1, hi);
      assert f[..i][1..] == t[..i - 1] && t[i - 1..] == f[i..];
    }
  }

  /** A region in the gap between two lists misses both. */
  lemma {:induction false} GapMisses(p: seq<Region>, q: seq<Region>, lo: int, a: int, b: int, hi: int, x: Region)
    requires Wf(p, lo, a) && Wf(q, b, hi) && a <= x.start && x.End() <= b
    ensures Misses(p + q, x)
  {
    MissesOutside(p, lo, a, x);
    MissesOutside(q, b, hi, x);
    MissesConcat(p, q, x);
  }

  class LinkedListAllocator {
    var head: nat
    var nodes: map<nat, Node>
    ghost var free: seq<Region>
    ghost const lo: nat
    ghost const hi: nat

    ghost predicate Valid()
      reads this
    {
      Bounds(lo, hi) && Wf(free, lo, hi) && Seg(head, nodes, free, 0)
    }

    /** `new` followed by `init` over the heap array. */
    constructor (start: nat, size: nat)
      requires Bounds(start, start + size)
      ensures Valid() && lo == start && hi == start + size
      ensures free == Init(start, size).free
    {
      head, nodes, free, lo, hi := 0, map[], [], start, start + size;
      new;
      this.InsertRegion(start, size);
    }

    method Remaining() returns (total: nat)
      requires Valid()
      ensures total == FreeList.Remaining(free)
    {
      total := 0;
      var current := head;
      ghost var rest := free;
      while current != 0
        invariant Seg(current, nodes, rest, 0)
        invariant total + FreeList.Remaining(rest) == FreeList.Remaining(free)
        modifies {}
        decreases |rest|
      {
        total := total + nodes[current].size;
        current := nodes[current].next;
        rest := rest[1..];
      }
    }

    /** `merge_with_next` from the node of r, the regions p before it and q after it. */
    method MergeWithNext(node: nat, ghost p: seq<Region>, ghost r: Region, ghost q: seq<Region>)
      requires free == p + [r] + q && node == r.start > 0 && r.size > 0
      requires Wf(p, lo, r.start) && Wf(q, r.End(), hi)
      requires Seg(head, nodes, p, node) && node in nodes && nodes[node].size == r.size
        && Seg(nodes[node].next, nodes, q, 0)
      modifies this
      ensures free == p + MergeRight(r, q)
      ensures Seg(head, nodes, p, node) && Seg(node, nodes, MergeRight(r, q), 0)
      ensures r.size <= (if node in nodes then nodes[node].size else 0)
    {
      ghost var r', q' := r, q;
      while true
        invariant free == p + [r'] + q' && MergeRight(r', q') == MergeRight(r, q)
        invariant r'.start == r.start && r'.size >= r.size && Wf(q', r'.End(), hi)
        invariant Seg(head, nodes, p, node) && node in nodes && nodes[node].size == r'.size
        invariant Seg(nodes[node].next, nodes, q', 0)
        decreases |q'|
      {
        var next := nodes[node].next;
        if next == 0 || node + nodes[node].size != next {
          break;
        }
        ghost var m := Region(r'.start, r'.size + q'[0].size);
        var merged := Node(nodes[node].size + nodes[next].size, nodes[next].next);
        SegFrame(head, nodes, p, node, node, merged, lo, r.start);
        SegFrame(nodes[next].next, nodes, q'[1..], 0, node, merged, q'[0].End() + 1, hi);
        WfWeaken(q'[1..], q'[0].End() + 1, hi, m.End(), hi);
        nodes := nodes[node := merged];
        r', q' := m, q'[1..];
        free := p + [r'] + q';
      }
      assert ([r'] + q')[1..] == q';
      assert p + [r'] + q' == p + ([r'] + q');
    }

    /** The walk to the node in front of a given one; 0 when it is the first. */
    method FindPrevious(node: nat, ghost p: seq<Region>, ghost limit: nat) returns (current: nat)
      requires Seg(head, nodes, p, node) && Wf(p, lo, limit) && node == limit
      ensures current == LastAddr(p)
    {
      var next: nat := head;
      current := 0;
      ghost var i := 0;
      WalkBegins(head, nodes, p, node);
      while next != node
        invariant Walked(head, nodes, p, node, i, current, next)
        modifies {}
        decreases |p| - i
      {
        WalkGoesOn(head, nodes, p, node, i, current, next);
        current, next, i := next, nodes[next].next, i + 1;
      }
      WalkOver(head, nodes, p, node, i, current, limit, lo);
    }

    /** `merge_with_previous`: find the node before r's and absorb r into it if they touch. */
    method MergeWithPrevious(node: nat, ghost p: seq<Region>, ghost r: Region, ghost q: seq<Region>)
      requires free == p + [r] + q && node == r.start > 0 && r.size > 0
      requires Wf(p, lo, r.start) && Wf(q, r.End(), hi)
      requires Seg(head, nodes, p, node) && node in nodes && nodes[node].size == r.size
        && Seg(nodes[node].next, nodes, q, 0)
      modifies this
      ensures Seg(head, nodes, free, 0)
      ensures free == if p != [] && p[|p| - 1].End() == r.start
                      then p[..|p| - 1] + MergeRight(Region(p[|p| - 1].start, p[|p| - 1].size + r.size), q)
                      else p + [r] + q
    {
      var current := FindPrevious(node, p, r.start);
      if p != [] { SegLast(head, nodes, p, node); }
      if current != 0 && current + nodes[current].size == node {
        AbsorbInto(current, node, p, r, q);
      } else {
        assert ([r] + q)[1..] == q;
        SegConcat(head, nodes, p, node, [r] + q, 0);
        assert p + [r] + q == p + ([r] + q);
      }
    }

    method AbsorbInto(current: nat, node: nat, ghost p: seq<Region>, ghost r: Region, ghost q: seq<Region>)
      requires free == p + [r] + q && node == r.start && r.size > 0 && p != [] && current == LastAddr(p)
      requires Wf(p, lo, r.start) && Wf(q, r.End(), hi)
      requires Seg(head, nodes, p, node) && node in nodes && nodes[node].size == r.size
        && Seg(nodes[node].next, nodes, q, 0)
      requires current in nodes && current + nodes[current].size == node
      modifies this
      ensures p[|p| - 1].End() == r.start
      ensures Seg(head, nodes, free, 0)
      ensures free == p[..|p| - 1] + MergeRight(Region(p[|p| - 1].start, p[|p| - 1].size + r.size), q)
    {
      SegLast(head, nodes, p, node);
      WfAt(p, |p| - 1, lo, r.start);
      ghost var last, p' := p[|p| - 1], p[..|p| - 1];
      ghost var m := Region(last.start, last.size + r.size);
      var merged := Node(nodes[current].size + nodes[node].size, nodes[node].next);
      SegFrame(head, nodes, p', current, current, merged, lo, last.start - 1);
      SegFrame(nodes[node].next, nodes, q, 0, current, merged, r.End(), hi);
      WfWeaken(p', lo, last.start - 1, lo, last.start);
      nodes := nodes[current := merged];
      free := p' + [m] + q;
      MergeWithNext(current, p', m, q);
      SegConcat(head, nodes, p', current, MergeRight(m, q), 0);
    }

    /** Write r's node between p and q. */
    method PlaceNode(current: nat, next: nat, ghost p: seq<Region>, r: Region, ghost q: seq<Region>)
      requires Bounds(lo, hi) && Good(r, lo, hi) && Wf(p, lo, r.start) && Wf(q, r.End(), hi)
      requires Seg(head, nodes, p, next) && Seg(next, nodes, q, 0) && current == LastAddr(p)
      modifies this
      ensures Seg(head, nodes, p, r.start) && Seg(next, nodes, q, 0) && free == p + [r] + q
      ensures r.start in nodes && nodes[r.start] == Node(r.size, next)
    {
      var node := Node(r.size, next);
      SegFrame(head, nodes, p, next, r.start, node, lo, r.start);
      SegFrame(next, nodes, q, 0, r.start, node, r.End(), hi);
      nodes := nodes[r.start := node];
      if p != [] { WfAt(p, |p| - 1, lo, r.start); }
      if current == 0 {
        head := r.start;
      } else {
        SegRelink(head, nodes, p, next, r.start, lo, r.start);
        SegFrame(next, nodes, q, 0, current, nodes[current].(next := r.start), r.End(), hi);
        nodes := nodes[current := nodes[current].(next := r.start)];
      }
      free := p + [r] + q;
    }

    /** Write r's node between p and q, then merge with the next and with the previous region. */
    method LinkNode(current: nat, next: nat, ghost p: seq<Region>, r: Region, ghost q: seq<Region>)
      requires Bounds(lo, hi) && free == p + q && Good(r, lo, hi) && Wf(p, lo, r.start) && Wf(q, r.End(), hi)
      requires Seg(head, nodes, p, next) && Seg(next, nodes, q, 0) && current == LastAddr(p)
      modifies this
      ensures Seg(head, nodes, free, 0) && free == Insert(p + q, r)
    {
      PlaceNode(current, next, p, r, q);
      MergeWithNext(r.start, p, r, q);
      MergedShape(r, q, hi);
      ghost var m := MergeRight(r, q);
      MergeWithPrevious(r.start, p, m[0], m[1..]);
      MergesInsert(p, r, q, lo, hi);
    }

    /** `insert_region`: link a node for [addr, addr + size) into the list and coalesce. */
    method InsertRegion(addr: nat, size: nat)
      requires Valid() && lo <= addr && addr + size <= hi && Misses(free, Region(addr, size))
      modifies this
      ensures Valid() && free == FreeList.InsertRegion(old(free), addr, size)
    {
      var start := AlignUp(addr, NODE_ALIGN);
      var end := addr + size;
      if end >= WORD || start >= end || end - start < MIN_REGION {
        return;
      }
      ghost var r := Region(start, end - start);
      MissesPart(free, Region(addr, size), r);
      var current: nat, next: nat := 0, head;
      ghost var i := 0;
      WalkBegins(head, nodes, free, 0);
      while next != 0 && next < start
        invariant Walked(head, nodes, free, 0, i, current, next) && (i > 0 ==> free[i - 1].start < start)
        modifies {}
        decreases |free| - i
      {
        WalkGoesOn(head, nodes, free, 0, i, current, next);
        current, next, i := next, nodes[next].next, i + 1;
      }
      if next == 0 {
        WalkAll(head, nodes, free, i, current, lo, hi);
      } else {
        WalkGoesOn(head, nodes, free, 0, i, current, next);
      }
      Straddle(free, i, r, lo, hi);
      assert free == free[..i] + free[i..];
      LinkNode(current, next, free[..i], Region(start, end - start), free[i..]);
      InsertWf(old(free), r, lo, hi);
    }

    /** Take r's node out of the list. */
    method Unlink(current: nat, node: nat, ghost p: seq<Region>, ghost r: Region, ghost q: seq<Region>)
      requires Bounds(lo, hi) && free == p + [r] + q && Amid(p, r, q, lo, hi)
      requires Seg(head, nodes, p, node) && Seg(node, nodes, [r] + q, 0) && current == LastAddr(p)
      modifies this
      ensures Valid() && free == p + q
    {
      assert ([r] + q)[1..] == q;
      var next := nodes[node].next;
      if p != [] { WfAt(p, |p| - 1, lo, r.start - 1); }
      if current == 0 {
        head := next;
      } else {
        SegRelink(head, nodes, p, node, next, lo, r.start - 1);
        SegFrame(next, nodes, q, 0, current, nodes[current].(next := next), r.End() + 1, hi);
        nodes := nodes[current := nodes[current].(next := next)];
      }
      free := p + q;
      SegConcat(head, nodes, p, next, q, 0);
      WfWeaken(q, r.End() + 1, hi, r.start, hi);
      WfConcat(p, q, lo, r.start - 1, hi);
    }

    /** Unlink r and hand out [s, s + n); what is left on either side goes back to the list. */
    method Take(current: nat, node: nat, s: nat, n: nat, ghost p: seq<Region>, ghost r: Region, ghost q: seq<Region>)
      requires Bounds(lo, hi) && free == p + [r] + q && Amid(p, r, q, lo, hi) && Inside(r, s, n)
      requires Seg(head, nodes, p, node) && Seg(node, nodes, [r] + q, 0) && current == LastAddr(p)
      modifies this
      ensures Valid() && free == Split(p, r, q, s, s + n)
    {
      var start, size := node, nodes[node].size;
      Unlink(current, node, p, r, q);
      GiveBack(start, start + size, s, n, p, r, q);
    }

    /** Both excess pieces of an unlinked region. */
    method GiveBack(start: nat, end: nat, s: nat, n: nat, ghost p: seq<Region>, ghost r: Region, ghost q: seq<Region>)
      requires Valid() && free == p + q && Amid(p, r, q, lo, hi) && Inside(r, s, n) && start == r.start
        && end == r.End()
      modifies this
      ensures Valid() && free == Split(p, r, q, s, s + n)
    {
      GiveBackFront(start, s, p, r, q);
      FrontRoom(p, r, s, n, lo, hi);
      KeptIs(p, r, s, q);
      GiveBackBack(s + n, end, Kept(p, r, s), r, q);
      KeptIs(p, r, s, WithBack(r, s + n, q));
    }

    method GiveBackFront(start: nat, s: nat, ghost p: seq<Region>, ghost r: Region, ghost q: seq<Region>)
      requires Valid() && free == p + q && Amid(p, r, q, lo, hi) && start == r.start <= s <= r.End()
      modifies this
      ensures Valid() && free == p + WithFront(r, s, q)
    {
      CutFront(p, r, q, s, s - start, lo, hi);
      if s - start >= MIN_REGION {
        GapMisses(p, q, lo, r.start - 1, r.End() + 1, hi, Region(start, s - start));
        InsertRegion(start, s - start);
      }
    }

    method GiveBackBack(e: nat, end: nat, ghost p: seq<Region>, ghost r: Region, ghost q: seq<Region>)
      requires Valid() && free == p + q && r.start < e <= r.End() == end
      requires lo <= e && end <= hi && Wf(p, lo, e - 1) && Wf(q, r.End() + 1, hi)
      modifies this
      ensures Valid() && free == p + WithBack(r, e, q)
    {
      CutBack(p, r, q, e, end - e, lo, hi);
      if end - e >= MIN_REGION {
        GapMisses(p, q, lo, e - 1, r.End() + 1, hi, Region(e, end - e));
        InsertRegion(e, end - e);
      }
    }

    /** The walk of `allocate`: the first region that fits and the node before it. */
    method Search(layout: Layout)
      returns (res: Search, current: nat, next: nat, ghost p: seq<Region>, ghost q: seq<Region>)
      requires Valid()
      ensures res == Find(free, layout, 0)
      ensures res.Found? ==>
        && free == p + q && q != [] && res.index == |p| && Fits(q[0], layout)
        && Seg(head, nodes, p, next) && Seg(next, nodes, q, 0) && current == LastAddr(p)
    {
      var size, align := layout.Size(), layout.Align();
      current, next := 0, head;
      p, q := [], free;
      var i := 0;
      WalkBegins(head, nodes, free, 0);
      while next != 0
        invariant Walked(head, nodes, free, 0, i, current, next)
        invariant Find(free, layout, 0) == Find(free, layout, i)
        decreases |free| - i
      {
        WalkGoesOn(head, nodes, free, 0, i, current, next);
        if next + align >= WORD {
          return Overflow, current, next, p, q;
        }
        var allocStart := AlignUp(next, align);
        if allocStart + size >= WORD {
          return NoRegion, current, next, p, q;
        }
        if allocStart + size <= next + nodes[next].size {
          p, q := free[..i], free[i..];
          return Found(i), current, next, p, q;
        }
        current, next, i := next, nodes[next].next, i + 1;
      }
      WalkAll(head, nodes, free, i, current, lo, hi);
      res := NoRegion;
    }

    /** `allocate`: first fit, splitting on both sides. */
    method Allocate(layout: Layout) returns (res: AllocResult)
      requires Valid() && layout.Valid()
      modifies this
      ensures Valid() && res == HeapRuns.Allocate(old(free), layout).0
      ensures free == HeapRuns.Allocate(old(free), layout).1
      ensures res.Block? ==> layout.align > 0 && res.addr % layout.align == 0
      ensures res.Block? ==> HeapRuns.TakenOut(old(free), free, res.addr, layout.size)
      ensures res.Null? ==> HeapRuns.NoRoom(old(free), layout)
    {
      HeapRuns.AllocateGives(free, layout, lo, hi);
      var found, current, next, p, q := Search(layout);
      match found
      case Found(i) =>
        var allocStart := AlignUp(next, layout.Align());
        TakeFound(current, next, allocStart, layout, p, q);
        res := Block(allocStart);
      case NoRegion => res := Null;
      case Overflow => res := Trap;
    }

    method TakeFound(current: nat, next: nat, allocStart: nat, layout: Layout, ghost p: seq<Region>,
      ghost q: seq<Region>)
      requires Valid() && layout.Valid() && free == p + q && q != []
      requires Seg(head, nodes, p, next) && Seg(next, nodes, q, 0) && current == LastAddr(p)
      requires Fits(q[0], layout) && allocStart == AllocStart(q[0], layout)
      requires Find(free, layout, 0) == Found(|p|)
      modifies this
      ensures Valid() && HeapRuns.Allocate(old(free), layout) == (Block(allocStart), free)
    {
      ghost var r := q[0];
      PickedAt(free, p, q);
      WfAt(free, |p|, lo, hi);
      BlockPlaced(r, layout, lo, hi);
      HeapRuns.AllocateCuts(free, layout, |p|);
      Take(current, next, allocStart, layout.Size(), p, r, q[1..]);
    }

    /** `deallocate` of a live block. */
    method Deallocate(ptr: nat, layout: Layout)
      requires Valid() && lo <= ptr && ptr + layout.Size() <= hi && Misses(free, Region(ptr, layout.Size()))
      modifies this
      ensures Valid() && free == FreeList.InsertRegion(old(free), ptr, layout.Size())
    {
      InsertRegion(ptr, layout.Size());
    }
  }
}
