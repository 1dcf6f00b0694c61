/** When `map_user_segments` succeeds. */
module LoadConditions {
  import opened Alignment
  import opened Options
  import opened LittleEndian
  import opened PageTables
  import opened TableTrees
  import opened TableAliases
  import opened DataWrites
  import opened UserImage
  import AddressSpaces
  import Elf

  /** One page of one segment. */
  datatype Job = Job(seg: Elf.Segment, page: u64)

  function PageJobs(seg: Elf.Segment, page: u64, end: u64): seq<Job>
    decreases end - page
  {
    if page >= end then [] else [Job(seg, page)] + PageJobs(seg, Min(page + PAGE, WORD - 1), end)
  }

  /** The pages of a segment; its end fits in 64 bits. */
  function SegmentJobs(seg: Elf.Segment): seq<Job>
    requires seg.vaddr + seg.memsz < WORD
  {
    PageJobs(seg, seg.vaddr - seg.vaddr % PAGE, RoundUp(seg.vaddr + seg.memsz))
  }

  /** Every segment's end fits in 64 bits. */
  predicate EndsFit(segs: seq<Elf.Segment>) {
    segs == [] || (segs[0].vaddr + segs[0].memsz < WORD && EndsFit(segs[1..]))
  }

  /** The pages of all segments, in the order in which they are loaded. */
  function Jobs(segs: seq<Elf.Segment>): seq<Job>
    requires EndsFit(segs)
  {
    if segs == [] then [] else SegmentJobs(segs[0]) + Jobs(segs[1..])
  }

  function LoadJobs(s: State, root: nat, jobs: seq<Job>, data: seq<byte>): (Load, State)
    decreases |jobs|
  {
    if jobs == [] then (Loaded, s)
    else
      var (load, s') := LoadPage(s, root, jobs[0].seg, data, jobs[0].page);
      if load.Loaded? then LoadJobs(s', root, jobs[1..], data) else (load, s')
  }

  // ---------------------------------------------------------------- segments as one list of pages

  lemma {:induction false} LoadPageJobs(s: State, root: nat, seg: Elf.Segment, data: seq<byte>, page: u64, end: u64)
    ensures LoadPages(s, root, seg, data, page, end) == LoadJobs(s, root, PageJobs(seg, page, end), data)
    decreases end - page
  {
    if page >= end {
    } else {
      var rest := PageJobs(seg, Min(page + PAGE, WORD - 1), end);
      assert PageJobs(seg, page, end)[1..] == rest;
      var s' := LoadPage(s, root, seg, data, page).1;
      PagesUnfold(s, root, seg, data, page, end);
      LoadPageJobs(s', root, seg, data, Min(page + PAGE, WORD - 1), end);
    }
  }

  lemma {:induction false} LoadConcat(s: State, root: nat, a: seq<Job>, b: seq<Job>, data: seq<byte>)
    ensures LoadJobs(s, root, a + b, data)
      == var (load, s') := LoadJobs(s, root, a, data); if load.Loaded? then LoadJobs(s', root, b, data) else (load, s')
    decreases |a|
  {
    if a == [] {
      assert a + b == b;
    } else {
      assert (a + b)[1..] == a[1..] + b;
      LoadConcat(LoadPage(s, root, a[0].seg, data, a[0].page).1, root, a[1..], b, data);
    }
  }

  lemma {:induction false} LoadSegmentJobs(s: State, root: nat, seg: Elf.Segment, data: seq<byte>)
    requires seg.vaddr + seg.memsz < WORD
    ensures LoadSegment(s, root, seg, data) == LoadJobs(s, root, SegmentJobs(seg), data)
  {
    LoadPageJobs(s, root, seg, data, seg.vaddr - seg.vaddr % PAGE, RoundUp(seg.vaddr + seg.memsz));
  }

  /** Loading the segments is loading their pages one after the other. */
  lemma {:induction false} SegmentsAreJobs(s: State, root: nat, segs: seq<Elf.Segment>, data: seq<byte>)
    requires EndsFit(segs)
    ensures LoadSegments(s, root, segs, data) == LoadJobs(s, root, Jobs(segs), data)
    decreases |segs|
  {
    if segs == [] {
    } else {
      var s' := LoadSegment(s, root, segs[0], data).1;
      LoadSegmentJobs(s, root, segs[0], data);
      LoadConcat(s, root, SegmentJobs(segs[0]), Jobs(segs[1..]), data);
      SegmentsAreJobs(s', root, segs[1..], data);
    }
  }

  /** A segment whose end does not fit is never loaded. */
  lemma {:induction false} EndMustFit(s: State, root: nat, segs: seq<Elf.Segment>, data: seq<byte>)
    requires LoadSegments(s, root, segs, data).0 == Loaded
    ensures EndsFit(segs)
    decreases |segs|
  {
    if segs == [] {
    } else {
      EndMustFit(LoadSegment(s, root, segs[0], data).1, root, segs[1..], data);
    }
  }

  // ---------------------------------------------------------------- the conditions

  /** The file holds what each page needs, and the arithmetic fits. */
  predicate Planned(jobs: seq<Job>, len: nat) {
    jobs == [] || (PlanPage(jobs[0].seg, len, jobs[0].page).Copy? && Planned(jobs[1..], len))
  }

  predicate Apart(m: Mem, root: nat, page: nat, jobs: seq<Job>) {
    jobs == [] || (!Alias(m, root, jobs[0].page, root, page, 4) && Apart(m, root, page, jobs[1..]))
  }

  /** No two pages are aliases; in particular no page is wanted twice. */
  predicate Distinct(m: Mem, root: nat, jobs: seq<Job>) {
    jobs == [] || (Apart(m, root, jobs[0].page, jobs[1..]) && Distinct(m, root, jobs[1..]))
  }

  /** No page is mapped yet. */
  predicate Unmapped(m: Mem, root: nat, jobs: seq<Job>) {
    jobs == [] || (Translate(m, root, jobs[0].page) == None && Unmapped(m, root, jobs[1..]))
  }

  predicate PagesReady(m: Mem, root: nat, jobs: seq<Job>) { Distinct(m, root, jobs) && Unmapped(m, root, jobs) }

  predicate Aligned(jobs: seq<Job>) {
    jobs == [] || (jobs[0].page % PAGE == 0 && Aligned(jobs[1..]))
  }

  // ---------------------------------------------------------------- which files hold the bytes

  /** Where the pages of a segment end. */
  function PagesEnd(seg: Elf.Segment): nat { AlignUp(seg.vaddr + seg.memsz, PAGE) }

  predicate NoPages(seg: Elf.Segment) { seg.memsz == 0 && seg.vaddr % PAGE == 0 }

  /** The first n bytes of the segment that come from the file are in it. */
  predicate FileReaches(seg: Elf.Segment, len: nat, n: nat) {
    var last := seg.offset + Min(seg.filesz, n);
    last < WORD && last <= len
  }

  /** The file's bytes for this segment are there, as far as its pages go. */
  predicate BytesThere(seg: Elf.Segment, len: nat) { FileReaches(seg, len, PagesEnd(seg) - seg.vaddr) }

  /** What a segment must satisfy to be loaded: it has no pages, or its file end and the end of its pages fit in
      64 bits and its bytes are there. */
  predicate SegmentFits(seg: Elf.Segment, len: nat) {
    NoPages(seg)
    || (seg.vaddr + seg.filesz < WORD && PagesEnd(seg) < WORD && (seg.filesz == 0 || BytesThere(seg, len)))
  }

  predicate SegmentsFit(segs: seq<Elf.Segment>, len: nat) {
    segs == [] || (SegmentFits(segs[0], len) && SegmentsFit(segs[1..], len))
  }

  /** The file bytes on the pages from `page` on, of which there are some up to the given end. */
  predicate RestFits(seg: Elf.Segment, page: nat, len: nat) {
    && seg.vaddr + seg.filesz < WORD && PagesEnd(seg) < WORD
    && (seg.vaddr + seg.filesz <= Max(seg.vaddr, page) || BytesThere(seg, len))
  }

  lemma RoundUpEnd(seg: Elf.Segment)
    requires seg.vaddr + seg.memsz < WORD
    ensures PagesEnd(seg) <= WORD && RoundUp(seg.vaddr + seg.memsz) == Min(PagesEnd(seg), WORD - 1)
  {
    var v := seg.vaddr + seg.memsz;
    if v % PAGE == 0 {
      AlignedUp(v, PAGE);
    } else {
      AlignUpLeast(v, PAGE, v - v % PAGE + PAGE);
    }
  }

  /** One page's plan, for the pages of a segment. */
  lemma PlanExactly(seg: Elf.Segment, len: nat, page: u64)
    requires page < PagesEnd(seg) && page % PAGE == 0 && seg.vaddr < page + PAGE
    ensures PlanPage(seg, len, page).Copy?
      <==> (&& seg.vaddr + seg.filesz < WORD && page + PAGE < WORD
            && (seg.vaddr + seg.filesz <= Max(seg.vaddr, page) || FileReaches(seg, len, page + PAGE - seg.vaddr)))
  {
  }

  lemma NextBelow(page: nat, end: nat)
    requires page % PAGE == 0 && end % PAGE == 0 && page < end
    ensures page + PAGE <= end
  {
  }

  /** The plans of all pages, said at once. */
  lemma {:induction false} PagesPlanned(seg: Elf.Segment, page: u64, len: nat)
    requires seg.vaddr + seg.memsz < WORD && page % PAGE == 0 && seg.vaddr < page + PAGE && page < PagesEnd(seg)
    ensures Planned(PageJobs(seg, page, RoundUp(seg.vaddr + seg.memsz)), len) <==> RestFits(seg, page, len)
    decreases PagesEnd(seg) - page
  {
    var end := RoundUp(seg.vaddr + seg.memsz);
    RoundUpEnd(seg);
    NextBelow(page, PagesEnd(seg));
    PlanExactly(seg, len, page);
    assert PageJobs(seg, page, end)[1..] == PageJobs(seg, Min(page + PAGE, WORD - 1), end);
    if page + PAGE < PagesEnd(seg) {
      NextPage(page);
      PagesPlanned(seg, page + PAGE, len);
    }
  }

  lemma {:induction false} SegmentPlanned(seg: Elf.Segment, len: nat)
    requires seg.vaddr + seg.memsz < WORD
    ensures Planned(SegmentJobs(seg), len) <==> SegmentFits(seg, len)
  {
    var start := seg.vaddr - seg.vaddr % PAGE;
    RoundUpEnd(seg);
    PageStart(seg.vaddr);
    if NoPages(seg) {
      AlignedUp(seg.vaddr, PAGE);
    } else {
      StartBelow(seg);
      PagesPlanned(seg, start, len);
      assert Planned(SegmentJobs(seg), len) <==> RestFits(seg, start, len);
    }
  }

  lemma StartBelow(seg: Elf.Segment)
    requires !NoPages(seg)
    ensures seg.vaddr - seg.vaddr % PAGE < PagesEnd(seg)
  {
  }

  lemma {:induction false} PlannedConcat(a: seq<Job>, b: seq<Job>, len: nat)
    ensures Planned(a + b, len) <==> Planned(a, len) && Planned(b, len)
  {
    if a == [] {
      assert a + b == b;
    } else {
      assert (a + b)[1..] == a[1..] + b;
      PlannedConcat(a[1..], b, len);
    }
  }

  lemma {:induction false} PlannedExactly(segs: seq<Elf.Segment>, len: nat)
    requires EndsFit(segs)
    ensures Planned(Jobs(segs), len) <==> SegmentsFit(segs, len)
  {
    if segs == [] {
    } else {
      SegmentPlanned(segs[0], len);
      PlannedExactly(segs[1..], len);
      PlannedConcat(SegmentJobs(segs[0]), Jobs(segs[1..]), len);
    }
  }

  // ---------------------------------------------------------------- one page

  /** What loading a page changes: its aliases are mapped, nothing else is, and aliases stay what they are. */
  ghost predicate Gained(m: Mem, m': Mem, root: nat, page: nat) {
    && (forall a: nat :: Translate(m', root, a).Some? <==>
          Translate(m, root, a).Some? || Alias(m, root, a, root, page, 4))
    && (forall a, b: nat :: Alias(m', root, a, root, b, 4) <==> Alias(m, root, a, root, b, 4))
  }

  lemma {:induction false} StepGains(s: State, s1: State, s2: State, s3: State, own: Own, own': Own, root: nat,
    page: nat, f: nat, a: nat, chunk: seq<byte>)
    requires Steps(s, s1, s2, s3, own, own', root, page, f, a, chunk)
    ensures Translate(s.mem, root, page) == None && Gained(s.mem, s3.mem, root, page)
  {
    DataAliases(s.mem, s1.mem, own);
    BytesSame(s2.mem, f, a, chunk, own');
    DataAliases(s2.mem, s3.mem, own');
    SameTranslation(s.mem, s1.mem, own, root, page);
    assert Root(own, root) && Root(own', root);
    forall va: nat
      ensures Translate(s3.mem, root, va).Some? <==>
        Translate(s.mem, root, va).Some? || Alias(s.mem, root, va, root, page, 4)
    {
      SameTranslation(s.mem, s1.mem, own, root, va);
      SameTranslation(s2.mem, s3.mem, own', root, va);
    }
    forall x, y: nat ensures Alias(s3.mem, root, x, root, y, 4) <==> Alias(s.mem, root, x, root, y, 4) {
      assert Alias(s3.mem, root, x, root, y, 4) <==> Alias(s2.mem, root, x, root, y, 4);
      assert Alias(s2.mem, root, x, root, y, 4) <==> Alias(s1.mem, root, x, root, y, 4);
    }
  }

  lemma {:induction false} PageGains(s: State, own: Own, root: nat, seg: Elf.Segment, data: seq<byte>, page: u64,
    s': State)
    returns (own': Own)
    requires Sound(s, own, root) && page % PAGE == 0 && LoadPage(s, root, seg, data, page) == (Loaded, s')
    ensures Sound(s', own', root) && Translate(s.mem, root, page) == None && Gained(s.mem, s'.mem, root, page)
    ensures PlanPage(seg, |data|, page).Copy? && |s.pending| <= |s'.pending| + 4
  {
    var s1, s2, f, a, chunk;
    s1, s2, own', f, a, chunk := LoadPageSteps(s, own, root, seg, data, page, s');
    StepsSound(s, s1, s2, s', own, own', root, page, f, a, chunk);
    LoadedBelow(s, root, seg, data, page);
    StepGains(s, s1, s2, s', own, own', root, page, f, a, chunk);
  }

  lemma Answers(res: Result<()>)
    ensures res.Ok? || res == Err(OutOfMemory) || res == Err(AlreadyMapped)
  {
    if res.Err? {
      match res.error
      case OutOfMemory =>
      case AlreadyMapped =>
    }
  }

  /** With four frames to spare, an unmapped page loads when the file holds what it needs. */
  lemma {:induction false} PageLoads(s: State, own: Own, root: nat, seg: Elf.Segment, data: seq<byte>, page: u64)
    requires Sound(s, own, root) && page % PAGE == 0 && |s.pending| >= 4
    requires Translate(s.mem, root, page) == None && PlanPage(seg, |data|, page).Copy?
    ensures LoadPage(s, root, seg, data, page).0 == Loaded
  {
    var f, s1 := s.pending[0], State(ZeroPage(s.mem, s.pending[0]), s.pending[1..]);
    TakeFrame(s, own, root);
    SameTranslation(s.mem, s1.mem, own, root, page);
    var own' := AddressSpaces.MapPageKeeps(s1, own, root, page, f, PageFlags(seg.flags));
    var res := MapPage(s1, root, page, f, PageFlags(seg.flags)).0;
    assert res != Err(AlreadyMapped) && res != Err(OutOfMemory);
    Answers(res);
  }

  // ---------------------------------------------------------------- all pages

  /** The other pages are unmapped after the first has been loaded if they were, and are not its aliases. */
  lemma {:induction false} UnmappedStill(m: Mem, m': Mem, root: nat, page: nat, jobs: seq<Job>)
    requires Gained(m, m', root, page)
    ensures Unmapped(m', root, jobs) <==> Unmapped(m, root, jobs) && Apart(m, root, page, jobs)
    decreases |jobs|
  {
    if jobs == [] {
    } else {
      UnmappedStill(m, m', root, page, jobs[1..]);
    }
  }

  lemma {:induction false} ApartStill(m: Mem, m': Mem, root: nat, page: nat, first: nat, jobs: seq<Job>)
    requires Gained(m, m', root, first)
    ensures Apart(m', root, page, jobs) <==> Apart(m, root, page, jobs)
    decreases |jobs|
  {
    if jobs == [] {
    } else {
      ApartStill(m, m', root, page, first, jobs[1..]);
    }
  }

  lemma {:induction false} DistinctStill(m: Mem, m': Mem, root: nat, first: nat, jobs: seq<Job>)
    requires Gained(m, m', root, first)
    ensures Distinct(m', root, jobs) <==> Distinct(m, root, jobs)
    decreases |jobs|
  {
    if jobs == [] {
    } else {
      ApartStill(m, m', root, jobs[0].page, first, jobs[1..]);
      DistinctStill(m, m', root, first, jobs[1..]);
    }
  }

  /** What loads had pages of which no two are aliases, that were not mapped and found their bytes in the file;
      and such pages load, with four frames for each. */
  lemma {:induction false} JobsLoad(s: State, own: Own, root: nat, jobs: seq<Job>, data: seq<byte>)
    requires Sound(s, own, root) && Aligned(jobs)
    ensures var loads := LoadJobs(s, root, jobs, data).0 == Loaded;
      var ready := Planned(jobs, |data|) && PagesReady(s.mem, root, jobs);
      (loads ==> ready) && (ready && |s.pending| >= 4 * |jobs| ==> loads)
    decreases |jobs|
  {
    if jobs == [] {
    } else {
      var job, rest := jobs[0], jobs[1..];
      var (load, s') := LoadPage(s, root, job.seg, data, job.page);
      if load.Loaded? {
        var own' := PageGains(s, own, root, job.seg, data, job.page, s');
        JobsLoad(s', own', root, rest, data);
        UnmappedStill(s.mem, s'.mem, root, job.page, rest);
        DistinctStill(s.mem, s'.mem, root, job.page, rest);
      } else if |s.pending| >= 4 && Translate(s.mem, root, job.page) == None
          && PlanPage(job.seg, |data|, job.page).Copy? {
        PageLoads(s, own, root, job.seg, data, job.page);
      }
    }
  }

  // ---------------------------------------------------------------- segments

  lemma {:induction false} AlignedConcat(a: seq<Job>, b: seq<Job>)
    requires Aligned(a) && Aligned(b)
    ensures Aligned(a + b)
  {
    if a == [] {
      assert a + b == b;
    } else {
      assert (a + b)[1..] == a[1..] + b;
      AlignedConcat(a[1..], b);
    }
  }

  lemma {:induction false} PageJobsAligned(seg: Elf.Segment, page: u64, end: u64)
    requires page % PAGE == 0 || page >= end
    ensures Aligned(PageJobs(seg, page, end))
    decreases end - page
  {
    if page >= end {
    } else {
      assert PageJobs(seg, page, end)[1..] == PageJobs(seg, Min(page + PAGE, WORD - 1), end);
      NextPage(page);
      PageJobsAligned(seg, Min(page + PAGE, WORD - 1), end);
    }
  }

  lemma {:induction false} JobsAligned(segs: seq<Elf.Segment>)
    requires EndsFit(segs)
    ensures Aligned(Jobs(segs))
    decreases |segs|
  {
    if segs == [] {
    } else {
      var seg := segs[0];
      PageStart(seg.vaddr);
      PageJobsAligned(seg, seg.vaddr - seg.vaddr % PAGE, RoundUp(seg.vaddr + seg.memsz));
      JobsAligned(segs[1..]);
      AlignedConcat(SegmentJobs(seg), Jobs(segs[1..]));
    }
  }

  /** Whatever the frames: an image that loads has segments whose ends fit and whose file bytes are there, and
      pages that were unmapped and of which no two are aliases. So two segments that share a page are refused. */
  lemma {:induction false} LoadNeeds(s: State, own: Own, root: nat, segs: seq<Elf.Segment>, data: seq<byte>)
    requires Sound(s, own, root) && LoadSegments(s, root, segs, data).0 == Loaded
    ensures EndsFit(segs) && SegmentsFit(segs, |data|)
    ensures PagesReady(s.mem, root, Jobs(segs))
  {
    EndMustFit(s, root, segs, data);
    SegmentsAreJobs(s, root, segs, data);
    JobsAligned(segs);
    JobsLoad(s, own, root, Jobs(segs), data);
    PlannedExactly(segs, |data|);
  }

  /** When an image loads: with four frames for each page, exactly when the segments' ends fit, the file holds
      their bytes, and their pages are unmapped and no two of them aliases. */
  lemma {:induction false} LoadsExactlyWhen(s: State, own: Own, root: nat, segs: seq<Elf.Segment>, data: seq<byte>)
    requires Sound(s, own, root) && (EndsFit(segs) ==> |s.pending| >= 4 * |Jobs(segs)|)
    ensures LoadSegments(s, root, segs, data).0 == Loaded
      <==> EndsFit(segs) && SegmentsFit(segs, |data|) && PagesReady(s.mem, root, Jobs(segs))
  {
    if EndsFit(segs) {
      SegmentsAreJobs(s, root, segs, data);
      JobsAligned(segs);
      JobsLoad(s, own, root, Jobs(segs), data);
      PlannedExactly(segs, |data|);
    } else if LoadSegments(s, root, segs, data).0 == Loaded {
      EndMustFit(s, root, segs, data);
    }
  }

  // ---------------------------------------------------------------- in a fresh clone

  /** In a clone, upper-half addresses are aliases if they are in the kernel's space; others have none but their
      own page. */
  lemma {:induction false} CloneAlias(s: State, own: Own, kernel: nat, root: nat, s1: State, a: nat, b: nat)
    requires Tree(s.mem, own) && Fresh(s.pending, own) && kernel in own && own[kernel] == Kernel(4)
    requires CloneRoot(s, kernel) == (Ok(root), s1)
    ensures Alias(s1.mem, root, a, root, b, 4)
      <==> Page(a) == Page(b) || (!LowerHalf(a) && !LowerHalf(b) && Alias(s.mem, kernel, a, kernel, b, 4))
  {
    var m, m1 := s.mem, s1.mem;
    CloneWords(m, own, kernel, root);
    SamePageTop(a, b);
    CloneSlot(m, m1, own, kernel, root, a);
    CloneSlot(m, m1, own, kernel, root, b);
    var e1, e2 := Word(m1, Slot(root, a, 4)), Word(m1, Slot(root, b, 4));
    if Linked(e1, 4) && Linked(e2, 4) {
      RootOnPath(own, kernel, a);
      RootOnPath(own, kernel, b);
      Descend(m, own, kernel, kernel, 4, a);
      Descend(m, own, kernel, kernel, 4, b);
      AliasSame(m, m1, own, AddrOf(e1), kernel, a, AddrOf(e2), kernel, b, 3);
    }
  }

  lemma {:induction false} CloneSlot(m: Mem, m1: Mem, own: Own, kernel: nat, root: nat, a: nat)
    requires Cloned(m, m1, own, kernel, root)
    ensures Word(m1, Slot(root, a, 4)) == if LowerHalf(a) then 0 else Word(m, Slot(kernel, a, 4))
  {
    AddressSpaces.LowerIndex(a);
    var i := Index(a, 4);
    assert Entry(m1, root, i) == if i < HALF then 0 else Entry(m, kernel, i);
  }

  /** Two pages of an image that cannot both be loaded into a clone. */
  predicate Clash(m: Mem, kernel: nat, a: nat, b: nat) {
    Page(a) == Page(b) || (!LowerHalf(a) && !LowerHalf(b) && Alias(m, kernel, a, kernel, b, 4))
  }

  predicate NoClash(m: Mem, kernel: nat, jobs: seq<Job>) {
    forall i, j :: 0 <= i < j < |jobs| ==> !Clash(m, kernel, jobs[j].page, jobs[i].page)
  }

  /** The page is in the private half, or the kernel has nothing there. */
  predicate FreeInClone(m: Mem, kernel: nat, page: nat) { LowerHalf(page) || Translate(m, kernel, page) == None }

  predicate AllFree(m: Mem, kernel: nat, jobs: seq<Job>) {
    forall i :: 0 <= i < |jobs| ==> FreeInClone(m, kernel, jobs[i].page)
  }

  lemma {:induction false} ApartEach(m: Mem, root: nat, page: nat, jobs: seq<Job>)
    ensures Apart(m, root, page, jobs) <==> forall j :: 0 <= j < |jobs| ==> !Alias(m, root, jobs[j].page, root, page, 4)
    decreases |jobs|
  {
    if jobs == [] {
    } else {
      ApartEach(m, root, page, jobs[1..]);
      assert jobs == [jobs[0]] + jobs[1..];
    }
  }

  lemma {:induction false} DistinctEach(m: Mem, root: nat, jobs: seq<Job>)
    ensures Distinct(m, root, jobs)
      <==> forall i, j :: 0 <= i < j < |jobs| ==> !Alias(m, root, jobs[j].page, root, jobs[i].page, 4)
    decreases |jobs|
  {
    if jobs == [] {
    } else {
      ApartEach(m, root, jobs[0].page, jobs[1..]);
      DistinctEach(m, root, jobs[1..]);
      assert jobs == [jobs[0]] + jobs[1..];
    }
  }

  lemma {:induction false} UnmappedEach(m: Mem, root: nat, jobs: seq<Job>)
    ensures Unmapped(m, root, jobs) <==> forall i :: 0 <= i < |jobs| ==> Translate(m, root, jobs[i].page) == None
    decreases |jobs|
  {
    if jobs == [] {
    } else {
      UnmappedEach(m, root, jobs[1..]);
      assert jobs == [jobs[0]] + jobs[1..];
    }
  }

  lemma {:induction false} CloneReady(s: State, own: Own, kernel: nat, root: nat, s1: State, jobs: seq<Job>)
    requires Tree(s.mem, own) && Fresh(s.pending, own) && kernel in own && own[kernel] == Kernel(4)
    requires CloneRoot(s, kernel) == (Ok(root), s1)
    ensures Distinct(s1.mem, root, jobs) <==> NoClash(s.mem, kernel, jobs)
    ensures Unmapped(s1.mem, root, jobs) <==> AllFree(s.mem, kernel, jobs)
  {
    DistinctEach(s1.mem, root, jobs);
    UnmappedEach(s1.mem, root, jobs);
    CloneKeeps(s, own, kernel);
    forall a, b: nat ensures Alias(s1.mem, root, a, root, b, 4) <==> Clash(s.mem, kernel, a, b) {
      CloneAlias(s, own, kernel, root, s1, a, b);
    }
    forall a: nat ensures Translate(s1.mem, root, a) == None <==> FreeInClone(s.mem, kernel, a) {
    }
  }

  /** In a fresh clone an image loads, given four frames for each page, exactly when its segments' ends fit, the
      file holds its bytes, no two of its pages clash, and the kernel has nothing at those in its half. */
  lemma {:induction false} CloneLoadsExactlyWhen(s: State, own: Own, kernel: nat, root: nat, s1: State,
    segs: seq<Elf.Segment>, data: seq<byte>)
    requires Tree(s.mem, own) && Fresh(s.pending, own) && kernel in own && own[kernel] == Kernel(4)
    requires CloneRoot(s, kernel) == (Ok(root), s1) && (EndsFit(segs) ==> |s1.pending| >= 4 * |Jobs(segs)|)
    ensures LoadSegments(s1, root, segs, data).0 == Loaded
      <==> EndsFit(segs) && SegmentsFit(segs, |data|)
           && NoClash(s.mem, kernel, Jobs(segs)) && AllFree(s.mem, kernel, Jobs(segs))
  {
    CloneKeeps(s, own, kernel);
    LoadsExactlyWhen(s1, own[root := Table(root, 4, 0)], root, segs, data);
    if EndsFit(segs) {
      CloneReady(s, own, kernel, root, s1, Jobs(segs));
    }
  }
}
