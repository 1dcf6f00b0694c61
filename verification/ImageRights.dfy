/** What a loaded image allows: each byte can be read by the program, written where its segment is writable, and
    executed where its segment is executable. */
module ImageRights {
  import opened Alignment
  import opened Options
  import opened LittleEndian
  import opened PageTables
  import opened TableTrees
  import opened TableAliases
  import opened AccessRights
  import opened DataWrites
  import opened UserImage
  import AddressSpaces
  import Elf

  /** What a segment asks for: bit 0 of its flags is for execution, bit 1 for writing. */
  function SegmentRights(seg: Elf.Segment): Rights {
    Rights(true, seg.flags / 2 % 2 == 1, seg.flags % 2 == 1)
  }

  /** The page flags ask for the rights of the segment. */
  lemma FlagsAsk(frame: u64, seg: Elf.Segment)
    requires FrameOk(frame)
    ensures Asked(frame, PageFlags(seg.flags)) == SegmentRights(seg) && PageFlags(seg.flags) / 4 % 2 == 1
  {
  }

  /** Rights that were there stay, and so does what the tables allow. */
  ghost predicate RightsKept(m: Mem, m': Mem, root: nat) {
    && (forall a: nat :: Access(m, root, a, 4).Some? ==> Access(m', root, a, 4) == Access(m, root, a, 4))
    && (forall a: nat :: Above(m', root, a, 4) == Above(m, root, a, 4))
  }

  lemma RightsTransitive(m: Mem, m1: Mem, m2: Mem, root: nat)
    requires RightsKept(m, m1, root) && RightsKept(m1, m2, root)
    ensures RightsKept(m, m2, root)
  {
  }

  /** Address a has the rights of the segment, as far as the tables of m allow. */
  predicate Allowed(m: Mem, m': Mem, root: nat, seg: Elf.Segment, a: nat) {
    Access(m', root, a, 4) == Some(Both(Above(m, root, a, 4), SegmentRights(seg)))
  }

  /** Byte i of the segment has its rights. */
  predicate ByteAllowed(m: Mem, m': Mem, root: nat, seg: Elf.Segment, i: nat) {
    Allowed(m, m', root, seg, seg.vaddr + i)
  }

  lemma {:induction false} AllowedLater(m: Mem, m1: Mem, m2: Mem, m3: Mem, root: nat, seg: Elf.Segment, a: nat)
    requires RightsKept(m, m1, root) && RightsKept(m2, m3, root) && Allowed(m1, m2, root, seg, a)
    ensures Allowed(m, m3, root, seg, a)
  {
  }

  lemma {:induction false} StepRights(s: State, s1: State, s2: State, s3: State, own: Own, own': Own, root: nat,
    page: u64, f: u64, a: nat, chunk: seq<byte>, seg: Elf.Segment, va: nat)
    requires Steps(s, s1, s2, s3, own, own', root, page, f, a, chunk)
    requires MapPage(s1, root, page, f, PageFlags(seg.flags)).0.Ok?
    requires s2 == MapPage(s1, root, page, f, PageFlags(seg.flags)).1
    ensures Access(s.mem, root, va, 4).Some? ==> Access(s3.mem, root, va, 4) == Access(s.mem, root, va, 4)
    ensures Above(s3.mem, root, va, 4) == Above(s.mem, root, va, 4)
    ensures Page(va) == Page(page) ==> Allowed(s.mem, s3.mem, root, seg, va)
  {
    FlagsAsk(f, seg);
    RootOnPath(own, root, va);
    DataRights(s.mem, s1.mem, own, root, root, va, 4);
    MapRights(s1, own, root, page, f, PageFlags(seg.flags), root, va);
    MapAbove(s1, own, root, page, f, PageFlags(seg.flags), root, va);
    SamePageTop(va, page);
    if Alias(s1.mem, root, va, root, page, 4) {
      AliasSome(s1.mem, root, va, root, page, 4);
      AccessSome(s1.mem, root, va, 4);
    }
    BytesSame(s2.mem, f, a, chunk, own');
    RootOnPath(own', root, va);
    DataRights(s2.mem, s3.mem, own', root, root, va, 4);
  }

  /** One page: earlier rights stay, and those of the page are the segment's. */
  lemma {:induction false} LoadPageRights(s: State, own: Own, root: nat, seg: Elf.Segment, data: seq<byte>, page: u64,
    s3: State)
    returns (own': Own)
    requires Sound(s, own, root) && page % PAGE == 0 && LoadPage(s, root, seg, data, page) == (Loaded, s3)
    ensures Sound(s3, own', root) && RightsKept(s.mem, s3.mem, root)
    ensures forall va: nat :: page <= va < page + PAGE ==> Allowed(s.mem, s3.mem, root, seg, va)
  {
    var s1, s2, f, a, chunk;
    s1, s2, own', f, a, chunk := LoadPageSteps(s, own, root, seg, data, page, s3);
    StepsSound(s, s1, s2, s3, own, own', root, page, f, a, chunk);
    forall va: nat
      ensures Access(s.mem, root, va, 4).Some? ==> Access(s3.mem, root, va, 4) == Access(s.mem, root, va, 4)
      ensures Above(s3.mem, root, va, 4) == Above(s.mem, root, va, 4)
      ensures Page(va) == Page(page) ==> Allowed(s.mem, s3.mem, root, seg, va)
    {
      StepRights(s, s1, s2, s3, own, own', root, page, f, a, chunk, seg, va);
    }
    forall va: nat | page <= va < page + PAGE ensures Allowed(s.mem, s3.mem, root, seg, va) {
      SamePageNumber(page, va);
    }
  }

  lemma {:induction false} LoadPagesRights(s: State, own: Own, root: nat, seg: Elf.Segment, data: seq<byte>, page: u64,
    end: u64, s': State)
    returns (own': Own)
    requires Sound(s, own, root) && page % PAGE == 0 && LoadPages(s, root, seg, data, page, end) == (Loaded, s')
    ensures Sound(s', own', root) && RightsKept(s.mem, s'.mem, root)
    ensures forall va: nat :: page <= va < end ==> Allowed(s.mem, s'.mem, root, seg, va)
    decreases end - page
  {
    own' := own;
    if page >= end {
    } else {
      var s1 := FirstPage(s, root, seg, data, page, end, s');
      var own1 := LoadPageRights(s, own, root, seg, data, page, s1);
      own' := LoadPagesRights(s1, own1, root, seg, data, page + PAGE, end, s');
      RightsTransitive(s.mem, s1.mem, s'.mem, root);
      forall va: nat | page <= va < end ensures Allowed(s.mem, s'.mem, root, seg, va) {
        if va < page + PAGE {
          AllowedLater(s.mem, s.mem, s1.mem, s'.mem, root, seg, va);
        } else {
          AllowedLater(s.mem, s1.mem, s'.mem, s'.mem, root, seg, va);
        }
      }
    }
  }

  lemma {:induction false} LoadSegmentRights(s: State, own: Own, root: nat, seg: Elf.Segment, data: seq<byte>,
    s': State)
    returns (own': Own)
    requires Sound(s, own, root) && LoadSegment(s, root, seg, data) == (Loaded, s')
    ensures Sound(s', own', root) && RightsKept(s.mem, s'.mem, root)
    ensures forall i: nat :: i < seg.memsz ==> ByteAllowed(s.mem, s'.mem, root, seg, i)
  {
    var start, end := SegmentPages(s, root, seg, data, s');
    own' := LoadPagesRights(s, own, root, seg, data, start, end, s');
  }

  /** The rights theorem. After map_user_segments succeeds, every byte of every segment has the rights of its
      segment, as far as the tables that were there before allow; rights given before are not disturbed. */
  lemma {:induction false} LoadSegmentsRights(s: State, own: Own, root: nat, segs: seq<Elf.Segment>, data: seq<byte>,
    s': State)
    returns (own': Own)
    requires Sound(s, own, root) && LoadSegments(s, root, segs, data) == (Loaded, s')
    ensures Sound(s', own', root) && RightsKept(s.mem, s'.mem, root)
    ensures forall k, i: nat :: 0 <= k < |segs| && i < segs[k].memsz ==> ByteAllowed(s.mem, s'.mem, root, segs[k], i)
    decreases |segs|
  {
    own' := own;
    if segs == [] {
    } else {
      var s1 := FirstSegment(s, root, segs, data, s');
      var own1 := LoadSegmentRights(s, own, root, segs[0], data, s1);
      own' := LoadSegmentsRights(s1, own1, root, segs[1..], data, s');
      RightsTransitive(s.mem, s1.mem, s'.mem, root);
      JoinSegments(s.mem, s1.mem, s'.mem, root, segs);
    }
  }

  lemma FirstSegment(s: State, root: nat, segs: seq<Elf.Segment>, data: seq<byte>, s': State) returns (s1: State)
    requires segs != [] && LoadSegments(s, root, segs, data) == (Loaded, s')
    ensures LoadSegment(s, root, segs[0], data) == (Loaded, s1)
    ensures LoadSegments(s1, root, segs[1..], data) == (Loaded, s')
  {
    s1 := LoadSegment(s, root, segs[0], data).1;
  }

  lemma {:induction false} JoinSegments(m: Mem, m1: Mem, m': Mem, root: nat, segs: seq<Elf.Segment>)
    requires segs != [] && RightsKept(m, m1, root) && RightsKept(m1, m', root)
    requires forall i: nat :: i < segs[0].memsz ==> ByteAllowed(m, m1, root, segs[0], i)
    requires forall k, i: nat :: 0 <= k < |segs[1..]| && i < segs[1..][k].memsz ==>
      ByteAllowed(m1, m', root, segs[1..][k], i)
    ensures forall k, i: nat :: 0 <= k < |segs| && i < segs[k].memsz ==> ByteAllowed(m, m', root, segs[k], i)
  {
    forall k, i: nat | 0 <= k < |segs| && i < segs[k].memsz ensures ByteAllowed(m, m', root, segs[k], i) {
      if k == 0 {
        assert ByteAllowed(m, m1, root, segs[0], i);
        AllowedLater(m, m, m1, m', root, segs[0], segs[0].vaddr + i);
      } else {
        assert ByteAllowed(m1, m', root, segs[1..][k - 1], i);
        AllowedLater(m, m1, m', m', root, segs[k], segs[k].vaddr + i);
      }
    }
  }
}
