/** The physical frame allocator: a bump pointer over the firmware's table of usable regions. */
module Frames {
  import opened Alignment
  import opened Lists
  import opened Options

  datatype MemRegion = MemRegion(base: nat, length: nat) {
    function End(): nat { base + length }
  }

  /** The 64-bit arithmetic on a region overflows: its end, or the round-up of where its frames start. */
  predicate Traps(r: MemRegion, limit: nat) {
    r.length != 0 && (r.End() >= WORD || (r.End() > limit && Max(r.base, limit) + PAGE > WORD))
  }

  /** Page starts from `start` on, below `end`, without the null frame. */
  function Steps(start: nat, end: nat): seq<nat>
    decreases if start < end then end - start else 0
  {
    if start >= end then []
    else if start == 0 then Steps(start + PAGE, end)
    else [start] + Steps(start + PAGE, end)
  }

  /** The frames a region yields: none below the reserved limit. */
  function RegionFrames(r: MemRegion, limit: nat): seq<nat> {
    if r.length == 0 || r.End() <= limit then []
    else Steps(AlignUp(Max(r.base, limit), PAGE), r.End())
  }

  /** The frames of the regions from i on, up to the first region whose arithmetic overflows. */
  function FramesFrom(regions: seq<MemRegion>, i: nat, limit: nat): seq<nat>
    requires i <= |regions|
    decreases |regions| - i
  {
    if i == |regions| || Traps(regions[i], limit) then []
    else Join(RegionFrames(regions[i], limit), FramesFrom(regions, i + 1, limit))
  }

  function AllFrames(regions: seq<MemRegion>, limit: nat): seq<nat> { FramesFrom(regions, 0, limit) }

  /** The arithmetic of some region from i on overflows, so that the allocator ends in a trap. */
  predicate Doomed(regions: seq<MemRegion>, i: nat, limit: nat)
    requires i <= |regions|
    decreases |regions| - i
  {
    i < |regions| && (Traps(regions[i], limit) || Doomed(regions, i + 1, limit))
  }

  // ---------------------------------------------------------------- which frames

  lemma {:induction false} StepsExact(start: nat, end: nat, f: nat)
    requires start % PAGE == 0
    ensures f in Steps(start, end) <==> f % PAGE == 0 && f != 0 && start <= f < end
    decreases if start < end then end - start else 0
  {
    if start >= end {
    } else {
      StepsExact(start + PAGE, end, f);
    }
  }

  lemma {:induction false} StepsAscend(start: nat, end: nat)
    requires start % PAGE == 0
    ensures NoDup(Steps(start, end))
    decreases if start < end then end - start else 0
  {
    if start >= end {
    } else {
      var rest := Steps(start + PAGE, end);
      StepsAscend(start + PAGE, end);
      StepsExact(start + PAGE, end, start);
      if start != 0 {
        assert ([start] + rest)[1..] == rest;
      }
    }
  }

  /** A region yields exactly its non-null page starts at or above the reserved limit. */
  lemma {:induction false} RegionFramesExact(r: MemRegion, limit: nat, f: nat)
    ensures f in RegionFrames(r, limit) <==> f % PAGE == 0 && f != 0 && Max(r.base, limit) <= f < r.End()
  {
    var m := Max(r.base, limit);
    StepsExact(AlignUp(m, PAGE), r.End(), f);
    if f % PAGE == 0 && m <= f {
      AlignUpLeast(m, PAGE, f);
    }
  }

  lemma FrameFits(f: nat, end: nat)
    requires f % PAGE == 0 && f < end && end % PAGE == 0
    ensures f + PAGE <= end
  {
  }

  /** The last frame of a region. */
  lemma {:induction false} LastFrame(r: MemRegion, limit: nat) returns (last: nat)
    requires RegionFrames(r, limit) != []
    ensures last in RegionFrames(r, limit) && last < r.End() <= last + PAGE
  {
    var first := RegionFrames(r, limit)[0];
    RegionFramesExact(r, limit, first);
    last := AlignDown(r.End() - 1, PAGE);
    NoneBetween(first, last, r.End() - 1);
    RegionFramesExact(r, limit, last);
  }

  lemma NoneBetween(f: nat, g: nat, x: nat)
    requires f % PAGE == 0 && g % PAGE == 0 && f <= x < g + PAGE
    ensures f <= g
  {
  }

  /** All of a region's frames lie inside the region exactly when its end is page aligned. */
  lemma {:induction false} FramesContained(r: MemRegion, limit: nat)
    requires RegionFrames(r, limit) != []
    ensures (forall f :: f in RegionFrames(r, limit) ==> f + PAGE <= r.End()) <==> r.End() % PAGE == 0
  {
    var last := LastFrame(r, limit);
    RegionFramesExact(r, limit, last);
    if r.End() % PAGE == 0 {
      forall f | f in RegionFrames(r, limit) ensures f + PAGE <= r.End() {
        RegionFramesExact(r, limit, f);
        FrameFits(f, r.End());
      }
    }
  }

  ghost predicate NoDup(s: seq<nat>) {
    s == [] || (s[0] !in s[1..] && NoDup(s[1..]))
  }

  predicate Disjoint(r: MemRegion, s: MemRegion) {
    r.End() <= s.base || s.End() <= r.base
  }

  ghost predicate NoOverlap(regions: seq<MemRegion>) {
    forall i, j :: 0 <= i < j < |regions| ==> Disjoint(regions[i], regions[j])
  }

  lemma {:induction false} NoDupConcat(a: seq<nat>, b: seq<nat>)
    requires NoDup(a) && NoDup(b) && forall x :: x in a ==> x !in b
    ensures NoDup(Join(a, b))
  {
    if |a| <= 1 {
      assert a != [] ==> (a + b)[1..] == b;
    } else {
      assert (a + b)[1..] == a[1..] + b;
      NoDupConcat(a[1..], b);
    }
  }

  lemma {:induction false} FramesOwner(regions: seq<MemRegion>, i: nat, limit: nat, f: nat) returns (k: nat)
    requires i <= |regions| && f in FramesFrom(regions, i, limit)
    ensures i <= k < |regions| && f in RegionFrames(regions[k], limit)
    decreases |regions| - i
  {
    if f in RegionFrames(regions[i], limit) {
      k := i;
    } else {
      k := FramesOwner(regions, i + 1, limit, f);
    }
  }

  /** A page start inside a region, at or above the limit, and not null. */
  predicate OnOffer(r: MemRegion, limit: nat, f: nat) {
    f % 4096 == 0 && f > 0 && r.base <= f < r.base + r.length && limit <= f
  }

  /** No arithmetic overflows up to region k. */
  ghost predicate Safe(regions: seq<MemRegion>, i: nat, limit: nat, k: int) {
    i <= k < |regions| && forall j :: i <= j <= k ==> !Traps(regions[j], limit)
  }

  lemma {:induction false} FramesFromExact(regions: seq<MemRegion>, i: nat, limit: nat, f: nat)
    requires i <= |regions|
    ensures f in FramesFrom(regions, i, limit)
      <==> exists k :: Safe(regions, i, limit, k) && OnOffer(regions[k], limit, f)
    decreases |regions| - i
  {
    if i == |regions| || Traps(regions[i], limit) {
    } else {
      RegionFramesExact(regions[i], limit, f);
      FramesFromExact(regions, i + 1, limit, f);
      JoinIs(RegionFrames(regions[i], limit), FramesFrom(regions, i + 1, limit));
      if k :| Safe(regions, i + 1, limit, k) && OnOffer(regions[k], limit, f) {
        assert Safe(regions, i, limit, k);
      }
      if k :| Safe(regions, i, limit, k) && OnOffer(regions[k], limit, f) {
        assert k > i ==> Safe(regions, i + 1, limit, k);
      }
      assert OnOffer(regions[i], limit, f) ==> Safe(regions, i, limit, i);
    }
  }

  /** The frames on offer are all the page starts of the regions that come before an overflow, and no others. */
  lemma {:induction false} AllFramesExact(regions: seq<MemRegion>, limit: nat, f: nat)
    ensures f in AllFrames(regions, limit)
      <==> exists k :: Safe(regions, 0, limit, k) && OnOffer(regions[k], limit, f)
  {
    FramesFromExact(regions, 0, limit, f);
  }

  /** A region's frames go upwards. */
  lemma {:induction false} StepsUpwards(start: nat, end: nat, i: nat, j: nat)
    requires i < j < |Steps(start, end)|
    ensures start <= Steps(start, end)[i] < Steps(start, end)[j]
    decreases if start < end then end - start else 0
  {
    if start == 0 {
      StepsUpwards(start + PAGE, end, i, j);
    } else if i > 0 {
      StepsUpwards(start + PAGE, end, i - 1, j - 1);
    } else {
      StepsFrom(start + PAGE, end, j - 1);
    }
  }

  lemma {:induction false} StepsFrom(start: nat, end: nat, i: nat)
    requires i < |Steps(start, end)|
    ensures start <= Steps(start, end)[i]
    decreases if start < end then end - start else 0
  {
    if start == 0 {
    } else if i > 0 {
      StepsFrom(start + PAGE, end, i - 1);
    }
  }

  /** Every frame on offer is a whole, non-null page at or above the limit. */
  lemma {:induction false} AllFramesAligned(regions: seq<MemRegion>, limit: nat, f: nat)
    requires f in AllFrames(regions, limit)
    ensures f % PAGE == 0 && f != 0 && limit <= f
  {
    var i := FramesOwner(regions, 0, limit, f);
    RegionFramesExact(regions[i], limit, f);
  }

  lemma {:induction false} RegionFramesDistinct(r: MemRegion, limit: nat)
    ensures NoDup(RegionFrames(r, limit))
  {
    if r.length != 0 && r.End() > limit {
      StepsAscend(AlignUp(Max(r.base, limit), PAGE), r.End());
    }
  }

  lemma {:induction false} FramesDistinct(regions: seq<MemRegion>, i: nat, limit: nat)
    requires NoOverlap(regions) && i <= |regions|
    ensures NoDup(FramesFrom(regions, i, limit))
    decreases |regions| - i
  {
    if i == |regions| || Traps(regions[i], limit) {
    } else {
      FramesDistinct(regions, i + 1, limit);
      RegionFramesDistinct(regions[i], limit);
      forall f | f in RegionFrames(regions[i], limit) ensures f !in FramesFrom(regions, i + 1, limit) {
        if f in FramesFrom(regions, i + 1, limit) {
          var k := FramesOwner(regions, i + 1, limit, f);
          assert Disjoint(regions[i], regions[k]);
          RegionFramesExact(regions[i], limit, f);
          RegionFramesExact(regions[k], limit, f);
        }
      }
      NoDupConcat(RegionFrames(regions[i], limit), FramesFrom(regions, i + 1, limit));
    }
  }

  /** Regions that do not overlap yield no frame twice, even when they share a page. */
  lemma {:induction false} AllFramesDistinct(regions: seq<MemRegion>, limit: nat)
    requires NoOverlap(regions)
    ensures NoDup(AllFrames(regions, limit))
  {
    FramesDistinct(regions, 0, limit);
  }

  /** Distinct page starts are disjoint frames. */
  lemma PagesApart(f: nat, g: nat)
    requires f % PAGE == 0 && g % PAGE == 0 && f != g
    ensures f + PAGE <= g || g + PAGE <= f
  {
  }

  // ---------------------------------------------------------------- contiguous ranges

  /** Length of the longest contiguous prefix, at most n. */
  function RunLength(pending: seq<nat>, n: nat): (k: nat)
    ensures k <= n && k <= |pending| && (n > 0 && pending != [] ==> k > 0)
  {
    if n == 0 || pending == [] then 0
    else if n == 1 then 1
    else
      var k := RunLength(pending, n - 1);
      if k == n - 1 && k < |pending| && pending[k] == pending[0] + k * PAGE then k + 1 else k
  }

  /** The prefix is contiguous, and the next frame, if there is one and it is wanted, would break it. */
  lemma {:induction false} RunLengthMeans(pending: seq<nat>, n: nat)
    ensures var k := RunLength(pending, n);
      && (forall i :: 0 <= i < k ==> pending[i] == pending[0] + i * PAGE)
      && (k < n && 0 < k < |pending| ==> pending[k] != pending[0] + k * PAGE)
  {
    if n <= 1 || pending == [] {
    } else {
      RunLengthMeans(pending, n - 1);
    }
  }

  /** How many frames a range request consumes: the range, and the frame that broke it. */
  function Consumed(pending: seq<nat>, n: nat): (c: nat)
    ensures c <= |pending|
  {
    var k := RunLength(pending, n);
    if k < n && k < |pending| then k + 1 else k
  }

  /** What a request leaves. */
  function Rest(pending: seq<nat>, n: nat): seq<nat> { pending[Consumed(pending, n)..] }

  /** Requests served one after another, request n for n contiguous frames: what is left for the i-th. */
  function Left(pending: seq<nat>, requests: seq<nat>, i: nat): seq<nat>
    requires i <= |requests|
  {
    if i == 0 then pending else Rest(Left(pending, requests, i - 1), requests[i - 1])
  }

  /** What the i-th request gets. */
  function Granted(pending: seq<nat>, requests: seq<nat>, i: nat): seq<nat>
    requires i < |requests|
  {
    var left := Left(pending, requests, i);
    left[..RunLength(left, requests[i])]
  }

  lemma {:induction false} NoDupDrop(s: seq<nat>, k: nat)
    requires NoDup(s) && k <= |s|
    ensures NoDup(s[k..]) && forall x :: x in s[..k] ==> x !in s[k..]
  {
    if k == 0 {
    } else {
      NoDupDrop(s[1..], k - 1);
      assert s[1..][k - 1..] == s[k..];
      forall x | x in s[..k] ensures x !in s[k..] {
        assert x == s[0] || x in s[1..][..k - 1];
        assert forall y :: y in s[k..] ==> y in s[1..];
      }
    }
  }

  /** A request's frames are not left for later. */
  lemma {:induction false} GrantGone(pending: seq<nat>, n: nat, f: nat)
    requires NoDup(pending)
    ensures NoDup(Rest(pending, n)) && !(f in pending[..RunLength(pending, n)] && f in Rest(pending, n))
  {
    var k, c := RunLength(pending, n), Consumed(pending, n);
    NoDupDrop(pending, c);
    assert f in pending[..k] ==> f in pending[..c];
  }

  lemma {:induction false} LeftNoDup(pending: seq<nat>, requests: seq<nat>, i: nat)
    requires NoDup(pending) && i <= |requests|
    ensures NoDup(Left(pending, requests, i))
  {
    if i == 0 {
    } else {
      LeftNoDup(pending, requests, i - 1);
      GrantGone(Left(pending, requests, i - 1), requests[i - 1], 0);
    }
  }

  lemma {:induction false} LeftShrinks(pending: seq<nat>, requests: seq<nat>, i: nat, j: nat, f: nat)
    requires i <= j <= |requests| && f in Left(pending, requests, j)
    ensures f in Left(pending, requests, i)
    decreases j
  {
    if i == j {
    } else {
      LeftShrinks(pending, requests, i, j - 1, f);
    }
  }

  /** No frame is granted twice, whatever mix of single frames and ranges is asked for. */
  lemma {:induction false} NeverReissued(pending: seq<nat>, requests: seq<nat>, i: nat, j: nat, f: nat)
    requires NoDup(pending) && i < j < |requests|
    ensures !(f in Granted(pending, requests, i) && f in Granted(pending, requests, j))
  {
    LeftNoDup(pending, requests, i);
    GrantGone(Left(pending, requests, i), requests[i], f);
    if f in Left(pending, requests, j) {
      LeftShrinks(pending, requests, i + 1, j, f);
    }
  }

  /** A request for one frame takes the first. */
  lemma OneGrant(pending: seq<nat>)
    ensures pending[..RunLength(pending, 1)] == if pending == [] then [] else [pending[0]]
    ensures Rest(pending, 1) == if pending == [] then [] else pending[1..]
  {
  }

  lemma {:induction false} LeftSingles(pending: seq<nat>, requests: seq<nat>, i: nat)
    requires i <= |requests| && forall k :: 0 <= k < |requests| ==> requests[k] == 1
    ensures Left(pending, requests, i) == if i <= |pending| then pending[i..] else []
  {
    if i == 0 {
    } else {
      LeftSingles(pending, requests, i - 1);
      OneGrant(Left(pending, requests, i - 1));
      assert i <= |pending| ==> pending[i - 1..][1..] == pending[i..];
    }
  }

  /** Asking for one frame at a time yields the frames on offer in order, then nothing forever. */
  lemma {:induction false} SinglesInOrder(pending: seq<nat>, requests: seq<nat>, i: nat)
    requires i < |requests| && forall k :: 0 <= k < |requests| ==> requests[k] == 1
    ensures Granted(pending, requests, i) == if i < |pending| then [pending[i]] else []
  {
    LeftSingles(pending, requests, i);
    OneGrant(Left(pending, requests, i));
  }

  // ---------------------------------------------------------------- the allocator

  datatype FrameRange = FrameRange(start: nat, count: nat)

  /** A frame, none left, or an overflow. */
  datatype Grant = Frame(start: nat) | Exhausted | Trap

  /** What the allocator makes of a region: nothing to hand out, a range to hand out from, or an overflow. */
  datatype Visit = Skip | Enter(start: nat, end: nat) | Overflow

  function VisitRegion(r: MemRegion, limit: nat): Visit {
    if r.length == 0 then Skip
    else if r.End() >= WORD then Overflow
    else if r.End() <= limit then Skip
    else if Max(r.base, limit) + (PAGE - 1) >= WORD then Overflow
    else
      var start := AlignUp(Max(r.base, limit), PAGE);
      if start < r.End() then Enter(start, r.End()) else Skip
  }

  lemma {:induction false} VisitMeans(r: MemRegion, limit: nat)
    ensures match VisitRegion(r, limit)
      case Skip => !Traps(r, limit) && RegionFrames(r, limit) == []
      case Enter(start, end) => !Traps(r, limit) && start < end < WORD && RegionFrames(r, limit) == Steps(start, end)
      case Overflow => Traps(r, limit)
  {
  }

  /** The frames from `current` to `end`, then those of the regions from i on. */
  function Queue(current: nat, end: nat, regions: seq<MemRegion>, i: nat, limit: nat): seq<nat>
    requires i <= |regions|
    decreases if current < end then end - current else 0
  {
    if current >= end then FramesFrom(regions, i, limit)
    else if current == 0 then Queue(current + PAGE, end, regions, i, limit)
    else [current] + Queue(current + PAGE, end, regions, i, limit)
  }

  lemma {:induction false} QueueIs(current: nat, end: nat, regions: seq<MemRegion>, i: nat, limit: nat)
    requires i <= |regions|
    ensures Queue(current, end, regions, i, limit) == Join(Steps(current, end), FramesFrom(regions, i, limit))
    decreases if current < end then end - current else 0
  {
    if current >= end {
    } else {
      QueueIs(current + PAGE, end, regions, i, limit);
      if current != 0 {
        JoinFirst(current, Steps(current + PAGE, end), FramesFrom(regions, i, limit));
      }
    }
  }

  lemma JoinFirst(x: nat, a: seq<nat>, b: seq<nat>)
    ensures Join([x] + a, b) == [x] + Join(a, b)
  {
    if a != [] {
      assert [x] + a + b == [x] + (a + b);
    }
  }

  lemma {:induction false} VisitNext(regions: seq<MemRegion>, i: nat, limit: nat)
    requires i < |regions|
    ensures var doomed := Doomed(regions, i + 1, limit);
      match VisitRegion(regions[i], limit)
      case Skip =>
        FramesFrom(regions, i, limit) == FramesFrom(regions, i + 1, limit) && (Doomed(regions, i, limit) <==> doomed)
      case Enter(start, end) =>
        && start < end < WORD && FramesFrom(regions, i, limit) == Queue(start, end, regions, i + 1, limit)
        && (Doomed(regions, i, limit) <==> doomed)
      case Overflow => FramesFrom(regions, i, limit) == [] && Doomed(regions, i, limit)
  {
    VisitMeans(regions[i], limit);
    var visit := VisitRegion(regions[i], limit);
    if visit.Enter? {
      QueueIs(visit.start, visit.end, regions, i + 1, limit);
    }
  }

  /** What a visit to the region before k says about the regions from i on. */
  ghost predicate Reached(regions: seq<MemRegion>, i: nat, visit: Visit, k: nat, limit: nat)
    requires i <= |regions| && k <= |regions|
  {
    match visit
    case Skip =>
      FramesFrom(regions, i, limit) == FramesFrom(regions, k, limit)
      && (Doomed(regions, i, limit) <==> Doomed(regions, k, limit))
    case Enter(start, end) =>
      && start < end < WORD && FramesFrom(regions, i, limit) == Queue(start, end, regions, k, limit)
      && (Doomed(regions, i, limit) <==> Doomed(regions, k, limit))
    case Overflow => FramesFrom(regions, i, limit) == [] && Doomed(regions, i, limit)
  }

  lemma {:induction false} ReachNext(regions: seq<MemRegion>, i: nat, k: nat, limit: nat)
    requires i <= k < |regions| && Reached(regions, i, Skip, k, limit)
    ensures Reached(regions, i, VisitRegion(regions[k], limit), k + 1, limit)
  {
    VisitNext(regions, k, limit);
  }

  /** The loop over the regions from i on: the first that is not skipped, and the index behind it. */
  method FirstVisit(regions: seq<MemRegion>, i: nat, limit: nat) returns (visit: Visit, k: nat)
    requires i <= |regions|
    ensures i <= k <= |regions| && (visit.Skip? ==> k == |regions|) && (!visit.Skip? ==> i < k)
    ensures Reached(regions, i, visit, k, limit)
  {
    visit, k := Skip, i;
    while k < |regions|
      invariant i <= k <= |regions| && visit == Skip && Reached(regions, i, Skip, k, limit)
    {
      ReachNext(regions, i, k, limit);
      visit := VisitRegion(regions[k], limit);
      k := k + 1;
      if visit != Skip {
        return;
      }
    }
  }

  lemma {:induction false} QueueNext(current: nat, end: nat, regions: seq<MemRegion>, i: nat, limit: nat, next: nat)
    requires i <= |regions| && current < end < WORD
    requires next == if current + PAGE < WORD then current + PAGE else WORD - 1
    ensures var now, later := Queue(current, end, regions, i, limit), Queue(next, end, regions, i, limit);
      now == if current == 0 then later else [current] + later
  {
    assert Queue(current + PAGE, end, regions, i, limit) == Queue(next, end, regions, i, limit);
  }

  class FrameAllocator {
    var current: nat
    var end: nat
    var regionIndex: nat
    var stopped: bool // an overflow has stopped the kernel
    const regions: seq<MemRegion>
    const limit: nat

    ghost predicate Valid()
      reads this
    {
      regionIndex <= |regions| && end < WORD && limit % PAGE == 0 && limit < WORD
    }

    /** The frames still to be handed out, in order. */
    ghost function Pending(): seq<nat>
      reads this
      requires Valid()
    {
      if stopped then [] else Queue(current, end, regions, regionIndex, limit)
    }

    /** After those frames comes an overflow. */
    ghost predicate Fatal()
      reads this
      requires Valid()
    {
      stopped || Doomed(regions, regionIndex, limit)
    }

    /** `init_from_map`; the reserved limit is rounded up to a page. */
    constructor (regions: seq<MemRegion>, limit: nat)
      requires limit % PAGE == 0 && limit < WORD
      ensures Valid() && Pending() == AllFrames(regions, limit) && (Fatal() <==> Doomed(regions, 0, limit))
      ensures this.regions == regions && this.limit == limit
    {
      this.regions, this.limit := regions, limit;
      current, end, regionIndex, stopped := 0, 0, 0, false;
      new;
      AdvanceToNextRegion();
    }

    method AdvanceToNextRegion()
      requires Valid() && !stopped && current >= end
      modifies this
      ensures Valid() && Pending() == old(Pending()) && (Fatal() <==> old(Fatal()))
      ensures !stopped && current >= end ==> regionIndex == |regions|
      ensures regionIndex >= old(regionIndex) && (!stopped && current < end ==> regionIndex > old(regionIndex))
    {
      var visit, k := FirstVisit(regions, regionIndex, limit);
      regionIndex := k;
      match visit {
        case Overflow => stopped := true;
        case Enter(from, to) => current, end := from, to;
        case Skip => current := end;
      }
    }

    /** The next frame; once the regions are used up none for ever, or the overflow of the region that
        could not be entered. */
    method Allocate() returns (g: Grant)
      requires Valid()
      modifies this
      ensures Valid() && (Fatal() <==> old(Fatal()))
      ensures match g
        case Frame(f) => f < WORD && old(Pending()) == [f] + Pending()
        case Exhausted => old(Pending()) == [] && Pending() == [] && !Fatal()
        case Trap => old(Pending()) == [] && Pending() == [] && Fatal()
    {
      while true
        invariant Valid() && Pending() == old(Pending()) && (Fatal() <==> old(Fatal()))
        decreases |regions| - regionIndex, if current < end then end - current else 0
      {
        if stopped {
          return Trap;
        }
        if current >= end {
          AdvanceToNextRegion();
          if stopped {
            return Trap;
          }
          if current >= end {
            return Exhausted;
          }
        }
        var f := current;
        current := if current + PAGE < WORD then current + PAGE else WORD - 1; // saturating
        QueueNext(f, end, regions, regionIndex, limit, current);
        if f != 0 {
          return Frame(f);
        }
      }
    }

    /** The next frame, when the first k of `all` are gone. */
    method Draw(ghost all: seq<nat>, ghost k: nat) returns (g: Grant)
      requires Valid() && k <= |all| && Pending() == Tail(all, k)
      modifies this
      ensures Valid() && (Fatal() <==> old(Fatal()))
      ensures g.Frame? ==> k < |all| && g.start == all[k] < WORD && Pending() == Tail(all, k + 1)
      ensures !g.Frame? ==> k == |all| && Pending() == Tail(all, k) && (g.Trap? <==> Fatal())
    {
      TailIs(all, k);
      g := Allocate();
      if g.Frame? {
        Popped(all, k, g.start, Pending());
        TailIs(all, k + 1);
      }
    }

    /** One turn of the loop of `allocate_frames`: whether the run of k frames up to `last` grows by one, and
        if not, how long it is. */
    method GrowRun(first: nat, last: nat, ghost count: nat, ghost all: seq<nat>, ghost k: nat)
      returns (next: Option<nat>, n: nat, trap: bool)
      requires Valid() && k < count && InRun(all, k, first, last) && Pending() == Tail(all, k)
      modifies this
      ensures Valid() && (Fatal() <==> old(Fatal()))
      ensures next.Some? ==> InRun(all, k + 1, first, next.value) && Pending() == Tail(all, k + 1) && !trap
      ensures next.None? ==> n == k == RunLength(all, count)
      ensures next.None? ==> (trap <==> if k == |all| then Fatal() else last + PAGE >= WORD)
      ensures next.None? ==> Pending() == Tail(all, Consumed(all, count))
    {
      var g := Draw(all, k);
      if !g.Frame? {
        RunStops(all, k, count, first, last);
        return None, (last - first) / PAGE + 1, g.Trap?;
      }
      if last + PAGE >= WORD || g.start != last + PAGE {
        RunStops(all, k, count, first, last);
        return None, (last - first) / PAGE + 1, last + PAGE >= WORD;
      }
      RunGrows(all, k, first, last);
      return Some(g.start), 0, false;
    }

    /** The loop of `allocate_frames`: how far the run that starts at `first` goes. */
    method ExtendRun(first: nat, count: nat, ghost all: seq<nat>) returns (k: nat, trap: bool)
      requires Valid() && all != [] && all[0] == first && Pending() == Tail(all, 1) && count > 0
      modifies this
      ensures Valid() && (Fatal() <==> old(Fatal())) && k == RunLength(all, count) > 0
      ensures trap <==> k < count && if k == |all| then Fatal() else all[k - 1] + PAGE >= WORD
      ensures Pending() == Tail(all, Consumed(all, count))
    {
      var last: nat := first;
      k := 1;
      trap := false;
      while k < count
        invariant 1 <= k <= count && Valid() && InRun(all, k, first, last) && Pending() == Tail(all, k)
        invariant !trap && (Fatal() <==> old(Fatal()))
      {
        var next, n;
        next, n, trap := GrowRun(first, last, count, all, k);
        if next.None? {
          return n, trap;
        }
        last := next.value;
        k := k + 1;
      }
    }

    /** `allocate_frames`: a contiguous run from the front of the queue. A frame that breaks the
        run has left the queue and is lost. The kernel stops when it looks past the last frame into an
        overflow, or when the address behind the run is past 64 bits. */
    method AllocateFrames(count: nat) returns (range: Option<FrameRange>, trap: bool)
      requires Valid()
      modifies this
      ensures Valid() && (Fatal() <==> old(Fatal()))
      ensures var all := old(Pending()); var k := RunLength(all, count);
        && (trap <==> k < count && if k == |all| then Fatal() else all[k - 1] + PAGE >= WORD)
        && (!trap ==> range == if k == 0 then None else Some(FrameRange(all[0], k)))
        && Pending() == all[Consumed(all, count)..]
    {
      if count == 0 {
        return None, false;
      }
      ghost var all := Pending();
      var first := Allocate();
      if !first.Frame? {
        return None, first.Trap?;
      }
      Popped(all, 0, first.start, Pending());
      TailIs(all, 1);
      TailIs(all, Consumed(all, count));
      var k;
      k, trap := ExtendRun(first.start, count, all);
      return Some(FrameRange(first.start, k)), trap;
    }
  }

  /** What is left of a list when the first k are gone. */
  function Tail(all: seq<nat>, k: nat): (t: seq<nat>)
    requires k <= |all|
    ensures |t| == |all| - k
  {
    if k == 0 then all else Tail(all, k - 1)[1..]
  }

  lemma {:induction false} TailIs(all: seq<nat>, k: nat)
    requires k <= |all|
    ensures Tail(all, k) == all[k..]
  {
    if k == 0 {
    } else {
      TailIs(all, k - 1);
      assert all[k - 1..][1..] == all[k..];
    }
  }

  lemma Popped(all: seq<nat>, k: nat, f: nat, rest: seq<nat>)
    requires k <= |all| && all[k..] == [f] + rest
    ensures k < |all| && all[k] == f && all[k + 1..] == rest
  {
    assert all[k..][0] == f && all[k..][1..] == rest;
  }

  /** The first k frames follow each other; last is the k-th. */
  predicate InRun(all: seq<nat>, k: nat, first: nat, last: nat) {
    0 < k <= |all| && RunLength(all, k) == k && all[0] == first && last == all[k - 1] == first + (k - 1) * PAGE
  }

  lemma RunGrows(all: seq<nat>, k: nat, first: nat, last: nat)
    requires InRun(all, k, first, last) && k < |all| && all[k] == last + PAGE
    ensures InRun(all, k + 1, first, all[k])
  {
  }

  lemma {:induction false} RunStops(all: seq<nat>, k: nat, count: nat, first: nat, last: nat)
    requires InRun(all, k, first, last) && k < count && (k < |all| ==> all[k] != last + PAGE)
    ensures (last - first) / PAGE + 1 == k == RunLength(all, count)
    ensures Consumed(all, count) == if k < |all| then k + 1 else k
  {
    ModUnique(last - first, PAGE, k - 1, 0);
    RunLengthStops(all, k, count);
  }

  lemma {:induction false} RunLengthStops(pending: seq<nat>, k: nat, n: nat)
    requires 0 < k < n && RunLength(pending, k) == k
    requires k >= |pending| || pending[k] != pending[0] + k * PAGE
    ensures RunLength(pending, n) == k
    decreases n
  {
    if n <= k + 1 {
    } else {
      RunLengthStops(pending, k, n - 1);
    }
  }
}
