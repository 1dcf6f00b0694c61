/** The page tables the boot code sets up, and what they map. */
module BootTables {
  import opened Alignment
  import opened Options
  import opened PageTables
  import opened TableTrees
  import opened PhysBytes
  import AddressSpaces
  import Frames
  import LittleEndian
  import UserCopy

  const GIB: nat := 0x4000_0000
  const DIRECT_MAP: nat := 0xFFFF_8000_0000_0000
  const KERNEL_WINDOW: nat := 0xFFFF_FFFF_8000_0000

  /** One top-level table whose entries 0, 256 and 511 share one table, whose entries 0 and 510 share one
      directory of 512 large pages. */
  ghost predicate BootMemory(m: Mem, pml4: nat, pdpt: nat, pd: nat) {
    && FrameOk(pml4) && FrameOk(pdpt) && FrameOk(pd) && pml4 != pdpt && pml4 != pd && pdpt != pd
    && (forall i :: 0 <= i < ENTRIES ==> Entry(m, pml4, i) == if i == 0 || i == 256 || i == 511 then pdpt + 3 else 0)
    && (forall i :: 0 <= i < ENTRIES ==> Entry(m, pdpt, i) == if i == 0 || i == 510 then pd + 3 else 0)
    && (forall i :: 0 <= i < ENTRIES ==> Entry(m, pd, i) == 0x20_0000 * i + 0x83)
  }

  function BootOwn(pml4: nat, pdpt: nat, pd: nat): Own {
    map[pml4 := Kernel(4), pdpt := Kernel(3), pd := Kernel(2)]
  }

  lemma LinkBits(f: nat, level: nat)
    requires FrameOk(f) && 3 <= level <= 4
    ensures Present(f + 3) && !Leaf(f + 3, level) && AddrOf(f + 3) == f
  {
    var k := f / PAGE;
    ModUnique(f + 3, PAGE, k, 3);
    ModUnique(f + 3, 128, 32 * k, 3);
    ModUnique(f + 3, 2, 2048 * k + 1, 1);
  }

  lemma LargeBits(i: nat)
    requires i < ENTRIES
    ensures var e := 0x20_0000 * i + 0x83; Present(e) && Leaf(e, 2) && AddrOf(e) == 0x20_0000 * i
  {
    var e := 0x20_0000 * i + 0x83;
    assert e / 128 == 0x4000 * i + 1;
    assert e / 4096 == 512 * i;
  }

  /** The boot tables have the shape that the rest of the paging code keeps. */
  lemma {:induction false} BootTree(m: Mem, pml4: nat, pdpt: nat, pd: nat)
    requires BootMemory(m, pml4, pdpt, pd)
    ensures Tree(m, BootOwn(pml4, pdpt, pd))
  {
    var own := BootOwn(pml4, pdpt, pd);
    LinkBits(pdpt, 4);
    LinkBits(pd, 3);
    forall t, i | t in own && 0 <= i < ENTRIES ensures EntryOk(m, own, t, i) {
      LargeBits(i);
      if t == pml4 {
        assert Entry(m, pml4, i) == if i == 0 || i == 256 || i == 511 then pdpt + 3 else 0;
      } else if t == pdpt {
        assert Entry(m, pdpt, i) == if i == 0 || i == 510 then pd + 3 else 0;
      } else {
        assert Entry(m, pd, i) == 0x20_0000 * i + 0x83;
      }
    }
  }

  /** So the kernel starts in a state that every run of the paging operations may start from. */
  lemma {:induction false} BootReady(s: State, pml4: nat, pdpt: nat, pd: nat)
    requires BootMemory(s.mem, pml4, pdpt, pd) && Fresh(s.pending, BootOwn(pml4, pdpt, pd))
    ensures AddressSpaces.Rel(s, BootOwn(pml4, pdpt, pd), AddressSpaces.Start(s.mem, pml4), AddressSpaces.Spaces({},
      map[], {}, []))
  {
    BootTree(s.mem, pml4, pdpt, pd);
    AddressSpaces.BootRel(s, BootOwn(pml4, pdpt, pd), pml4);
  }

  lemma {:induction false} NoDupAt(s: seq<nat>, i: nat, j: nat)
    requires Frames.NoDup(s) && i < j < |s|
    ensures s[i] != s[j]
  {
    if i > 0 {
      NoDupAt(s[1..], i - 1, j - 1);
    } else {
      assert s[j] == s[1..][j - 1];
    }
  }

  lemma {:induction false} FrameUsable(regions: seq<Frames.MemRegion>, limit: nat, f: nat)
    requires forall i :: 0 <= i < |regions| ==> regions[i].End() <= ADDR_LIMIT
    requires f in Frames.AllFrames(regions, limit)
    ensures FrameOk(f) && f >= limit
  {
    Frames.AllFramesAligned(regions, limit, f);
    var i := Frames.FramesOwner(regions, 0, limit, f);
    Frames.RegionFramesExact(regions[i], limit, f);
    Frames.FrameFits(f, ADDR_LIMIT);
  }

  /** What the frame allocator hands out over a region table without overlaps is fresh: whole, distinct
      frames, none of them a table below the reserved limit. */
  lemma {:induction false} AllocatorFresh(regions: seq<Frames.MemRegion>, limit: nat, own: Own)
    requires Frames.NoOverlap(regions) && forall i :: 0 <= i < |regions| ==> regions[i].End() <= ADDR_LIMIT
    requires forall t :: t in own ==> t < limit
    ensures Fresh(Frames.AllFrames(regions, limit), own)
  {
    var all := Frames.AllFrames(regions, limit);
    Frames.AllFramesDistinct(regions, limit);
    forall i | 0 <= i < |all| ensures FrameOk(all[i]) && all[i] !in own {
      FrameUsable(regions, limit, all[i]);
    }
    forall i, j | 0 <= i < j < |all| ensures all[i] != all[j] {
      NoDupAt(all, i, j);
    }
  }

  lemma Indices(x: nat)
    requires x < GIB
    ensures Index(x, 4) == 0 && Index(x, 3) == 0
    ensures Index(DIRECT_MAP + x, 4) == 256 && Index(DIRECT_MAP + x, 3) == 0
    ensures Index(KERNEL_WINDOW + x, 4) == 511 && Index(KERNEL_WINDOW + x, 3) == 510
  {
  }

  lemma LowIndex(base: nat, x: nat)
    requires x < GIB && base % GIB == 0
    ensures Index(base + x, 2) == x / 0x20_0000 && (base + x) % 0x20_0000 == x % 0x20_0000
  {
    var k := base / GIB;
    ModUnique(base + x, 0x20_0000, 512 * k + x / 0x20_0000, x % 0x20_0000);
    ModUnique(512 * k + x / 0x20_0000, 512, k, x / 0x20_0000);
  }

  lemma {:induction false} WindowMaps(m: Mem, pml4: nat, pdpt: nat, pd: nat, base: nat, x: nat)
    requires BootMemory(m, pml4, pdpt, pd) && x < GIB && base % GIB == 0
    requires Index(base + x, 4) == 0 || Index(base + x, 4) == 256 || Index(base + x, 4) == 511
    requires Index(base + x, 3) == 0 || Index(base + x, 3) == 510
    ensures Translate(m, pml4, base + x) == Some(x)
  {
    var a := base + x;
    assert Entry(m, pml4, Index(a, 4)) == pdpt + 3;
    assert Entry(m, pdpt, Index(a, 3)) == pd + 3;
    LinkBits(pdpt, 4);
    LinkBits(pd, 3);
    LeadsWalk(m, pml4, a, 4, pdpt);
    LeadsWalk(m, pdpt, a, 3, pd);
    LowIndex(base, x);
    assert Entry(m, pd, Index(a, 2)) == 0x20_0000 * (x / 0x20_0000) + 0x83;
    LargeWalk(m, pd, a, x);
  }

  lemma LargeWalk(m: Mem, pd: nat, a: nat, x: nat)
    requires x < GIB && Index(a, 2) == x / 0x20_0000 && a % 0x20_0000 == x % 0x20_0000
    requires Entry(m, pd, Index(a, 2)) == 0x20_0000 * (x / 0x20_0000) + 0x83
    ensures Walk(m, pd, a, 2) == Some(x)
  {
    LargeBits(x / 0x20_0000);
  }

  /** The first gigabyte of physical memory appears three times: in place, in the direct map and in the
      kernel's window. */
  lemma {:induction false} FirstGigabyte(m: Mem, pml4: nat, pdpt: nat, pd: nat, x: nat)
    requires BootMemory(m, pml4, pdpt, pd) && x < GIB
    ensures Translate(m, pml4, x) == Some(x)
    ensures Translate(m, pml4, DIRECT_MAP + x) == Some(x)
    ensures Translate(m, pml4, KERNEL_WINDOW + x) == Some(x)
  {
    Indices(x);
    WindowMaps(m, pml4, pdpt, pd, 0, x);
    WindowMaps(m, pml4, pdpt, pd, DIRECT_MAP, x);
    WindowMaps(m, pml4, pdpt, pd, KERNEL_WINDOW, x);
  }

  // ---------------------------------------------------------------- writes that reach a table

  /** A table that maps itself: where the large page that holds the directory pd has its own entry. */
  function SelfEntry(pd: nat): nat { pd + 8 * (pd / 0x20_0000) }

  lemma SelfPlace(pd: nat)
    requires FrameOk(pd) && pd < GIB
    ensures SelfEntry(pd) + 1 < GIB && SelfEntry(pd) / 0x20_0000 == pd / 0x20_0000 < ENTRIES
    ensures (SelfEntry(pd) + 1) / 0x20_0000 == pd / 0x20_0000
    ensures SelfEntry(pd) % PAGE + 2 <= PAGE && SelfEntry(pd) % 8 == 0
  {
    var i, r := pd / 0x20_0000, pd % 0x20_0000 / PAGE;
    assert pd == 0x20_0000 * i + PAGE * r && r < 512;
    ModUnique(SelfEntry(pd), 0x20_0000, i, PAGE * r + 8 * i);
    ModUnique(SelfEntry(pd) + 1, 0x20_0000, i, PAGE * r + 8 * i + 1);
    ModUnique(SelfEntry(pd), PAGE, 512 * i + r, 8 * i);
    ModUnique(SelfEntry(pd), 8, 0x4_0000 * i + 512 * r + i, 0);
  }

  lemma WindowIndices(x: nat)
    requires x < GIB
    ensures Index(LOWER_LIMIT + x, 4) == 256 && Index(LOWER_LIMIT + x, 3) == 0 && !LowerHalf(LOWER_LIMIT + x)
    ensures Index(LOWER_LIMIT + x, 2) == x / 0x20_0000
  {
    LowIndex(LOWER_LIMIT, x);
  }

  /** In a clone the lowest addresses of the upper half lead to the first gigabyte, as they do in the
      kernel's own space. */
  lemma {:induction false} CloneWindow(s: State, pml4: nat, pdpt: nat, pd: nat, root: nat, s1: State, x: nat)
    requires BootMemory(s.mem, pml4, pdpt, pd) && Fresh(s.pending, BootOwn(pml4, pdpt, pd)) && x < GIB
    requires CloneRoot(s, pml4) == (Ok(root), s1)
    ensures Translate(s1.mem, root, LOWER_LIMIT + x) == Some(x)
  {
    BootTree(s.mem, pml4, pdpt, pd);
    WindowIndices(x);
    WindowMaps(s.mem, pml4, pdpt, pd, LOWER_LIMIT, x);
    CloneKeeps(s, BootOwn(pml4, pdpt, pd), pml4);
  }

  lemma ClearedByte(m: Mem, a: nat)
    requires a % 8 == 0
    ensures !Present(Word(SetBytes(m, a, [0]), a)) && forall x :: x != a ==> Word(SetBytes(m, a, [0]), x) == Word(m, x)
  {
    var w := Word(m, a);
    ClearedWord(m, a, w);
    EvenRest(w);
  }

  lemma ClearedWord(m: Mem, a: nat, w: nat)
    requires a % 8 == 0 && w == Word(m, a)
    ensures SetBytes(m, a, [0]) == m[a := w - w % 256]
  {
    assert SetBytes(m, a, [0]) == SetByte(m, a, 0);
  }

  lemma EvenRest(w: nat)
    ensures !Present(w - w % 256)
  {
  }

  /** The clone's way to the directory, before and after a write to one of the directory's entries. */
  lemma {:induction false} WindowLinks(s: State, pml4: nat, pdpt: nat, pd: nat, root: nat, s1: State, m: Mem, j: nat)
    requires BootMemory(s.mem, pml4, pdpt, pd) && Fresh(s.pending, BootOwn(pml4, pdpt, pd)) && j < ENTRIES
    requires CloneRoot(s, pml4) == (Ok(root), s1) && forall x :: x != pd + 8 * j ==> Word(m, x) == Word(s1.mem, x)
    ensures Entry(m, root, 256) == pdpt + 3 && Entry(m, pdpt, 0) == pd + 3
  {
    var own := BootOwn(pml4, pdpt, pd);
    assert root == s.pending[0] && root !in own && root % PAGE == 0;
    CloneWords(s.mem, own, pml4, root);
    assert Entry(s1.mem, root, 256) == Entry(s.mem, pml4, 256);
    assert Entry(s1.mem, pdpt, 0) == Entry(s.mem, pdpt, 0);
    OtherEntry(root, 256, pd, j);
    OtherEntry(pdpt, 0, pd, j);
  }

  /** With the low byte of its entry cleared, the large page is gone. */
  lemma {:induction false} WindowGone(s: State, pml4: nat, pdpt: nat, pd: nat, root: nat, s1: State, x: nat)
    requires BootMemory(s.mem, pml4, pdpt, pd) && Fresh(s.pending, BootOwn(pml4, pdpt, pd)) && x < GIB && pd < GIB
    requires CloneRoot(s, pml4) == (Ok(root), s1) && x / 0x20_0000 == pd / 0x20_0000
    ensures Translate(SetBytes(s1.mem, SelfEntry(pd), [0]), root, LOWER_LIMIT + x) == None
  {
    var m := SetBytes(s1.mem, SelfEntry(pd), [0]);
    SelfPlace(pd);
    WindowIndices(x);
    ClearedByte(s1.mem, SelfEntry(pd));
    WindowLinks(s, pml4, pdpt, pd, root, s1, m, pd / 0x20_0000);
    WindowBelow(m, root, pdpt, pd, x);
  }

  lemma WindowBelow(m: Mem, root: nat, pdpt: nat, pd: nat, x: nat)
    requires FrameOk(pdpt) && FrameOk(pd) && x < GIB
    requires Entry(m, root, 256) == pdpt + 3 && Entry(m, pdpt, 0) == pd + 3
      && !Present(Word(m, pd + 8 * (x / 0x20_0000)))
    ensures Translate(m, root, LOWER_LIMIT + x) == None
  {
    WindowIndices(x);
    GoneBelow(m, root, pdpt, pd, LOWER_LIMIT + x);
  }

  lemma OtherEntry(t: nat, i: nat, u: nat, j: nat)
    requires t % PAGE == 0 && u % PAGE == 0 && t != u && i < ENTRIES && j < ENTRIES
    ensures t + 8 * i != u + 8 * j
  {
  }

  lemma GoneBelow(m: Mem, root: nat, pdpt: nat, pd: nat, a: nat)
    requires FrameOk(pdpt) && FrameOk(pd) && Word(m, Slot(root, a, 4)) == pdpt + 3
      && Word(m, Slot(pdpt, a, 3)) == pd + 3
    requires !Present(Word(m, Slot(pd, a, 2)))
    ensures Translate(m, root, a) == None
  {
    LinkBits(pdpt, 4);
    LinkBits(pd, 3);
    assert Walk(m, pd, a, 2) == None;
    assert Walk(m, pdpt, a, 3) == None;
  }

  lemma {:induction false} WholeTurn(m: Mem, root: nat, ptr: nat, p: nat, src: seq<LittleEndian.byte>)
    requires |src| == 2 && Translate(m, root, ptr) == Some(p) && p % PAGE + 2 <= PAGE
    ensures UserCopy.WriteLoop(m, root, ptr, src, 0, PAGE).0 == UserCopy.Done
  {
    var m1 := SetBytes(m, p, src[0..2]);
    UserCopy.WriteLoopStep(m, m1, root, ptr, src, 0, 2, PAGE, p);
    UserCopy.WriteLoopEnds(m1, root, ptr, src, 2, PAGE);
  }

  lemma {:induction false} ByteTurn(m: Mem, root: nat, ptr: nat, p: nat, src: seq<LittleEndian.byte>)
    requires |src| == 2 && Translate(m, root, ptr) == Some(p)
      && Translate(SetBytes(m, p, [src[0]]), root, ptr + 1) == None
    ensures UserCopy.WriteLoop(m, root, ptr, src, 0, 1).0 == UserCopy.UserMemoryNotPresent
  {
    assert src[0..1] == [src[0]];
    var m1 := SetBytes(m, p, [src[0]]);
    UserCopy.WriteLoopStep(m, m1, root, ptr, src, 0, 1, 1, p);
    UserCopy.WriteLoopEnds(m1, root, ptr, src, 1, 1);
  }

  lemma WindowAccepted(x: nat)
    requires x + 1 < GIB
    ensures UserCopy.RangeOk(LOWER_LIMIT + x, 2) && !UserCopy.PrivateRange(LOWER_LIMIT + x, 2)
  {
  }

  lemma TurnsDiffer(m: Mem, root: nat, ptr: nat, p: nat, src: seq<LittleEndian.byte>)
    requires |src| == 2 && Translate(m, root, ptr) == Some(p) && p % PAGE + 2 <= PAGE
    requires Translate(SetBytes(m, p, [src[0]]), root, ptr + 1) == None && UserCopy.RangeOk(ptr, 2)
    ensures UserCopy.CopyTo(m, root, ptr, src).0 == UserCopy.Done
    ensures UserCopy.WriteLoop(m, root, ptr, src, 0, 1).0 == UserCopy.UserMemoryNotPresent
  {
    WholeTurn(m, root, ptr, p, src);
    ByteTurn(m, root, ptr, p, src);
  }

  /** Page by page and byte by byte differ on a range that reaches a table. The range is one that the limit
      check accepts and the private half does not contain; the first byte of the range takes away the page
      that the second one needs. */
  lemma {:induction false} TurnsMatter(s: State, pml4: nat, pdpt: nat, pd: nat, root: nat, s1: State,
    src: seq<LittleEndian.byte>)
    requires BootMemory(s.mem, pml4, pdpt, pd) && Fresh(s.pending, BootOwn(pml4, pdpt, pd)) && pd < GIB
    requires CloneRoot(s, pml4) == (Ok(root), s1) && src == [0, 0]
    ensures var ptr := LOWER_LIMIT + SelfEntry(pd);
      && UserCopy.RangeOk(ptr, 2) && !UserCopy.PrivateRange(ptr, 2)
      && UserCopy.CopyTo(s1.mem, root, ptr, src).0 == UserCopy.Done
      && UserCopy.WriteLoop(s1.mem, root, ptr, src, 0, 1).0 == UserCopy.UserMemoryNotPresent
  {
    var x := SelfEntry(pd);
    SelfPlace(pd);
    WindowAccepted(x);
    CloneWindow(s, pml4, pdpt, pd, root, s1, x);
    WindowGone(s, pml4, pdpt, pd, root, s1, x + 1);
    TurnsDiffer(s1.mem, root, LOWER_LIMIT + x, x, src);
  }
}
