/** `map_user_segments` as it runs, with the end-to-end theorem from file bytes to user memory. As in
    PagingUnit, `trap` reports that an overflow in the frame allocator stopped the kernel. */
module ImageLoader {
  import opened Alignment
  import opened Options
  import opened LittleEndian
  import opened PageTables
  import opened TableTrees
  import opened PhysBytes
  import opened PagingUnit
  import opened UserImage
  import opened AccessRights
  import ImageRights
  import Elf
  import UserCopy

  const NO_FRAMES: Load := Refused(AddressSpaceAllocationFailed(OutOfMemory))

  /** Which file bytes a page takes, with the checks of the arithmetic on the way. */
  method PlanCopy(seg: Elf.Segment, len: nat, page: u64) returns (plan: Plan)
    ensures plan == PlanPage(seg, len, page)
  {
    if seg.vaddr + seg.filesz >= WORD {
      return Overflow;
    }
    var fileEnd := seg.vaddr + seg.filesz;
    if page + PAGE >= WORD {
      return Overflow;
    }
    var start, end := Max(seg.vaddr, page), Min(fileEnd, page + PAGE);
    if end <= start {
      return Copy(0, 0, 0);
    }
    var srcOffset, n := start - seg.vaddr, end - start;
    if seg.offset + srcOffset >= WORD {
      return Overflow;
    }
    var src := seg.offset + srcOffset;
    if src + n >= WORD {
      return Overflow;
    }
    if src + n > len {
      return Beyond;
    }
    return Copy(start - page, src, n);
  }

  /** The file bytes of one page. */
  method CopyFilePart(p: Pager, f: nat, seg: Elf.Segment, data: seq<byte>, page: u64) returns (load: Load)
    modifies p`mem
    ensures (load, p.mem) == FillPage(old(p.mem), f, seg, data, page)
  {
    var plan := PlanCopy(seg, |data|, page);
    match plan {
      case Overflow => return Trap;
      case Beyond => return Refused(InvalidElf);
      case Copy(to, src, n) =>
        CopySliceSets(p.mem, f + to, data, src, n);
        UserCopy.CopyIn(p, f + to, data[src..src + n]);
        return Loaded;
    }
  }

  /** The body of the page loop: a zeroed frame, mapped, then filled. */
  method MapUserPage(p: Pager, root: nat, seg: Elf.Segment, data: seq<byte>, page: u64)
    returns (load: Load, trap: bool)
    requires p.Valid()
    modifies p, p.frames
    ensures p.Valid() && (load, p.View()) == LoadPage(old(p.View()), root, seg, data, page)
    ensures (p.frames.Fatal() <==> old(p.frames.Fatal())) && (trap <==> load == NO_FRAMES && p.frames.Fatal())
  {
    var frame, res;
    frame, trap := p.AllocateTable();
    if frame.Err? {
      return NO_FRAMES, trap;
    }
    var flags := FlagsOf(seg.flags);
    res, trap := p.MapPage(root, page, frame.value, flags);
    if res.Err? {
      return Refused(AddressSpaceAllocationFailed(res.error)), trap;
    }
    load := CopyFilePart(p, frame.value, seg, data, page);
  }

  /** The page flags for a segment's permissions. */
  method FlagsOf(permissions: nat) returns (flags: u64)
    ensures flags == PageFlags(permissions)
  {
    flags := FLAG_USER;
    if permissions / 2 % 2 == 1 {
      flags := flags + FLAG_WRITABLE;
    }
    if permissions % 2 == 0 {
      flags := flags + FLAG_NO_EXECUTE;
    }
  }

  method MapUserPages(p: Pager, root: nat, seg: Elf.Segment, data: seq<byte>, start: u64, end: u64)
    returns (load: Load, trap: bool)
    requires p.Valid()
    modifies p, p.frames
    ensures p.Valid() && (load, p.View()) == LoadPages(old(p.View()), root, seg, data, start, end)
    ensures (p.frames.Fatal() <==> old(p.frames.Fatal())) && (trap <==> load == NO_FRAMES && p.frames.Fatal())
  {
    ghost var goal := LoadPages(p.View(), root, seg, data, start, end);
    var page: u64 := start;
    while page < end
      invariant p.Valid() && LoadPages(p.View(), root, seg, data, page, end) == goal
      invariant p.frames.Fatal() <==> old(p.frames.Fatal())
      decreases end - page
    {
      PagesUnfold(p.View(), root, seg, data, page, end);
      load, trap := MapUserPage(p, root, seg, data, page);
      if load != Loaded {
        return;
      }
      page := Min(page + PAGE, WORD - 1);
    }
    return Loaded, false;
  }

  method MapUserSegment(p: Pager, root: nat, seg: Elf.Segment, data: seq<byte>)
    returns (load: Load, trap: bool)
    requires p.Valid()
    modifies p, p.frames
    ensures p.Valid() && (load, p.View()) == LoadSegment(old(p.View()), root, seg, data)
    ensures (p.frames.Fatal() <==> old(p.frames.Fatal())) && (trap <==> load == NO_FRAMES && p.frames.Fatal())
  {
    if seg.vaddr + seg.memsz >= WORD {
      return Trap, false;
    }
    var start: u64, end: u64 := seg.vaddr - seg.vaddr % PAGE, RoundUp(seg.vaddr + seg.memsz);
    assert LoadSegment(p.View(), root, seg, data) == LoadPages(p.View(), root, seg, data, start, end);
    load, trap := MapUserPages(p, root, seg, data, start, end);
  }

  /** `map_user_segments`. */
  method MapUserSegments(p: Pager, root: nat, segs: seq<Elf.Segment>, data: seq<byte>)
    returns (load: Load, trap: bool)
    requires p.Valid()
    modifies p, p.frames
    ensures p.Valid() && (load, p.View()) == LoadSegments(old(p.View()), root, segs, data)
    ensures (p.frames.Fatal() <==> old(p.frames.Fatal())) && (trap <==> load == NO_FRAMES && p.frames.Fatal())
  {
    var k := 0;
    ghost var goal := LoadSegments(p.View(), root, segs, data);
    assert segs[0..] == segs;
    while k < |segs|
      invariant k <= |segs| && p.Valid() && LoadSegments(p.View(), root, segs[k..], data) == goal
      invariant p.frames.Fatal() <==> old(p.frames.Fatal())
    {
      load, trap := MapUserSegment(p, root, segs[k], data);
      assert segs[k..][1..] == segs[k + 1..];
      if load != Loaded {
        return;
      }
      k := k + 1;
    }
    return Loaded, false;
  }

  lemma {:induction false} CloneSound(s: State, own: Own, kernel: nat, root: nat, s1: State)
    requires Tree(s.mem, own) && Fresh(s.pending, own) && kernel in own && own[kernel] == Kernel(4)
    requires CloneRoot(s, kernel) == (Ok(root), s1)
    ensures Sound(s1, own[root := Table(root, 4, 0)], root)
  {
    CloneKeeps(s, own, kernel);
  }

  lemma ShownByte(s: State, own: Own, root: nat, seg: Elf.Segment, data: seq<byte>, i: nat)
    requires Shows(s, own, root, seg, data, i)
    ensures i < seg.filesz ==> seg.offset + i < |data|
    ensures var t := Translate(s.mem, root, seg.vaddr + i);
      t.Some? && ByteAt(s.mem, t.value) == if i < seg.filesz then data[seg.offset + i] else 0
  {
  }

  lemma {:induction false} LoadedByte(s1: State, own1: Own, segs: seq<Elf.Segment>, data: seq<byte>, root: nat,
    s2: State, k: nat, i: nat)
    requires Sound(s1, own1, root) && LoadSegments(s1, root, segs, data) == (Loaded, s2)
    requires k < |segs| && i < segs[k].memsz
    ensures i < segs[k].filesz ==> segs[k].offset + i < |data|
    ensures var t := Translate(s2.mem, root, segs[k].vaddr + i);
      t.Some? && ByteAt(s2.mem, t.value) == if i < segs[k].filesz then data[segs[k].offset + i] else 0
  {
    var own2 := LoadSegmentsShow(s1, own1, root, segs, data, s2);
    ShownByte(s2, own2, root, segs[k], data, i);
  }

  lemma {:induction false} ShownBytes(s: State, own: Own, kernel: nat, segs: seq<Elf.Segment>, data: seq<byte>,
    root: nat, s1: State, s2: State, k: nat, i: nat)
    requires Tree(s.mem, own) && Fresh(s.pending, own) && kernel in own && own[kernel] == Kernel(4)
    requires CloneRoot(s, kernel) == (Ok(root), s1) && LoadSegments(s1, root, segs, data) == (Loaded, s2)
    requires k < |segs| && i < segs[k].memsz
    ensures i < segs[k].filesz ==> segs[k].offset + i < |data|
    ensures var t := Translate(s2.mem, root, segs[k].vaddr + i);
      t.Some? && ByteAt(s2.mem, t.value) == if i < segs[k].filesz then data[segs[k].offset + i] else 0
  {
    CloneSound(s, own, kernel, root, s1);
    LoadedByte(s1, own[root := Table(root, 4, 0)], segs, data, root, s2, k, i);
  }

  /** From file to memory: in a fresh clone of the kernel's address space, an image that loads can be read back
      byte for byte through translate, zero-filled up to the memory size. In the private half the program may read
      every byte, write those of segments with bit 1 of their flags set and execute those with bit 0 set; in the
      shared half it may do so as far as the kernel's tables allow. */
  lemma {:induction false} EndToEnd(s: State, own: Own, kernel: nat, data: seq<byte>, image: Elf.Image,
    root: nat, s1: State, s2: State, k: nat, i: nat)
    requires Tree(s.mem, own) && Fresh(s.pending, own) && kernel in own && own[kernel] == Kernel(4)
    requires CloneRoot(s, kernel) == (Ok(root), s1)
    requires LoadSegments(s1, root, image.segments, data) == (Loaded, s2)
    requires k < |image.segments| && i < image.segments[k].memsz
    ensures var seg := image.segments[k];
      && (i < seg.filesz ==> seg.offset + i < |data|)
      && var t := Translate(s2.mem, root, seg.vaddr + i);
      t.Some? && ByteAt(s2.mem, t.value) == if i < seg.filesz then data[seg.offset + i] else 0
    ensures var seg := image.segments[k]; var a := seg.vaddr + i;
      var g := Rights(true, seg.flags / 2 % 2 == 1, seg.flags % 2 == 1);
      Access(s2.mem, root, a, 4) == Some(if LowerHalf(a) then g else Both(Above(s.mem, kernel, a, 4), g))
  {
    ShownBytes(s, own, kernel, image.segments, data, root, s1, s2, k, i);
    ShownRights(s, own, kernel, image.segments, data, root, s1, s2, k, i);
  }

  lemma {:induction false} ShownRights(s: State, own: Own, kernel: nat, segs: seq<Elf.Segment>, data: seq<byte>,
    root: nat, s1: State, s2: State, k: nat, i: nat)
    requires Tree(s.mem, own) && Fresh(s.pending, own) && kernel in own && own[kernel] == Kernel(4)
    requires CloneRoot(s, kernel) == (Ok(root), s1) && LoadSegments(s1, root, segs, data) == (Loaded, s2)
    requires k < |segs| && i < segs[k].memsz
    ensures var a, g := segs[k].vaddr + i, ImageRights.SegmentRights(segs[k]);
      Access(s2.mem, root, a, 4) == Some(if LowerHalf(a) then g else Both(Above(s.mem, kernel, a, 4), g))
  {
    CloneSound(s, own, kernel, root, s1);
    var own2 := ImageRights.LoadSegmentsRights(s1, own[root := Table(root, 4, 0)], root, segs, data, s2);
    assert ImageRights.ByteAllowed(s1.mem, s2.mem, root, segs[k], i);
    CloneRights(s, own, kernel, root, s1, kernel, segs[k].vaddr + i);
  }
}
