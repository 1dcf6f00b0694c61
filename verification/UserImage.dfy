/** Loading the segments of an image into an address space, page by page. */
module UserImage {
  import opened Alignment
  import opened Options
  import opened LittleEndian
  import opened PageTables
  import opened TableTrees
  import opened TableAliases
  import opened PhysBytes
  import opened DataWrites
  import AddressSpaces
  import Elf
  import UserCopy

  const FLAG_NO_EXECUTE: nat := 0x8000_0000_0000_0000

  /** Why the kernel refuses an image; it reports an allocation that failed without the cause. */
  datatype LoadError = AddressSpaceAllocationFailed(cause: MapError) | InvalidElf

  /** `map_user_segments` succeeds or fails; checked arithmetic that overflows stops the kernel. */
  datatype Load = Loaded | Refused(error: LoadError) | Trap

  function PageFlags(flags: nat): u64 {
    FLAG_USER + (if flags / 2 % 2 == 1 then FLAG_WRITABLE else 0) + if flags % 2 == 0 then FLAG_NO_EXECUTE else 0
  }

  /** What to copy to a page: n bytes of the file from src on, to offset `to`. */
  datatype Plan = Copy(to: nat, src: nat, n: nat) | Beyond | Overflow

  function PlanPage(seg: Elf.Segment, len: nat, page: nat): (p: Plan)
    ensures p.Copy? ==> p.to + p.n <= PAGE && p.src + p.n <= len
  {
    if seg.vaddr + seg.filesz >= WORD || page + PAGE >= WORD then Overflow
    else
      var start, end := Max(seg.vaddr, page), Min(seg.vaddr + seg.filesz, page + PAGE);
      if end <= start then Copy(0, 0, 0)
      else
        var src := seg.offset + (start - seg.vaddr);
        if src + (end - start) >= WORD then Overflow
        else if src + (end - start) > len then Beyond
        else Copy(start - page, src, end - start)
  }

  /** The file bytes of one page, copied into its frame. */
  function FillPage(m: Mem, f: nat, seg: Elf.Segment, data: seq<byte>, page: nat): (Load, Mem) {
    match PlanPage(seg, |data|, page)
    case Overflow => (Trap, m)
    case Beyond => (Refused(InvalidElf), m)
    case Copy(to, src, n) => (Loaded, CopySlice(m, f + to, data, src, n))
  }

  /** One page: a zeroed frame, mapped, then filled. */
  function LoadPage(s: State, root: nat, seg: Elf.Segment, data: seq<byte>, page: u64): (Load, State)
  {
    if s.pending == [] then (Refused(AddressSpaceAllocationFailed(OutOfMemory)), s)
    else
      var f := s.pending[0];
      var s1 := State(ZeroPage(s.mem, f), s.pending[1..]);
      var (res, s2) := MapPage(s1, root, page, f, PageFlags(seg.flags));
      FillMapped(res, s2, f, seg, data, page)
  }

  /** The rest of it, when map_page has answered. */
  function FillMapped(res: Result<()>, s: State, f: nat, seg: Elf.Segment, data: seq<byte>, page: nat): (Load, State) {
    if res.Err? then (Refused(AddressSpaceAllocationFailed(res.error)), s)
    else var (load, m) := FillPage(s.mem, f, seg, data, page); (load, State(m, s.pending))
  }

  /** The pages of a segment from `page` on. */
  function LoadPages(s: State, root: nat, seg: Elf.Segment, data: seq<byte>, page: u64, end: u64): (Load, State)
    decreases end - page
  {
    if page >= end then (Loaded, s)
    else
      var (load, s') := LoadPage(s, root, seg, data, page);
      if load.Loaded? then LoadPages(s', root, seg, data, Min(page + PAGE, WORD - 1), end) else (load, s')
  }

  function RoundUp(v: u64): u64 {
    if v % PAGE == 0 then v else Min(v - v % PAGE + PAGE, WORD - 1)
  }

  function LoadSegment(s: State, root: nat, seg: Elf.Segment, data: seq<byte>): (Load, State)
  {
    if seg.vaddr + seg.memsz >= WORD then (Trap, s)
    else LoadPages(s, root, seg, data, seg.vaddr - seg.vaddr % PAGE, RoundUp(seg.vaddr + seg.memsz))
  }

  function LoadSegments(s: State, root: nat, segs: seq<Elf.Segment>, data: seq<byte>): (Load, State)
    decreases |segs|
  {
    if segs == [] then (Loaded, s)
    else
      var (load, s') := LoadSegment(s, root, segs[0], data);
      if load.Loaded? then LoadSegments(s', root, segs[1..], data) else (load, s')
  }

  // ---------------------------------------------------------------- what memory shows

  /** Byte i of a segment: from the file, then zero. */
  function Content(seg: Elf.Segment, data: seq<byte>, i: nat): byte {
    if i < seg.filesz && seg.offset + i < |data| then data[seg.offset + i] else 0
  }

  /** A frame that is neither a table nor still to be handed out. */
  predicate Private(s: State, own: Own, p: nat) {
    p - p % PAGE !in own && p - p % PAGE !in s.pending
  }

  /** Address va reads as b, from a frame nothing else will use. */
  predicate Held(s: State, own: Own, root: nat, va: nat, b: byte) {
    var t := Translate(s.mem, root, va);
    t.Some? && ByteAt(s.mem, t.value) == b && Private(s, own, t.value)
  }

  ghost predicate Keeps(s: State, own: Own, s': State, own': Own, root: nat) {
    forall va: nat, b: byte :: Held(s, own, root, va, b) ==> Held(s', own', root, va, b)
  }

  /** Byte i of the segment is loaded: it lies in the file if it should, and it can be read. */
  predicate Shows(s: State, own: Own, root: nat, seg: Elf.Segment, data: seq<byte>, i: nat) {
    && (i < seg.filesz ==> seg.offset + i < |data|)
    && Held(s, own, root, seg.vaddr + i, Content(seg, data, i))
  }

  /** A well-formed state of an address space under construction. */
  ghost predicate Sound(s: State, own: Own, root: nat) {
    Tree(s.mem, own) && Fresh(s.pending, own) && root in own && own[root] == Table(root, 4, 0)
  }

  lemma {:induction false} DataByte(m: Mem, m': Mem, own': Own, x: nat)
    requires DataKept(m, m', own') && x - x % PAGE !in own'
    ensures ByteAt(m', x) == ByteAt(m, x)
  {
    SamePageWord(x);
    assert Word(m', WordOf(x)) == Word(m, WordOf(x));
  }

  // ---------------------------------------------------------------- one page

  lemma PageFlagsClear(flags: nat)
    ensures AddrOf(PageFlags(flags)) == 0
  {
    var e := PageFlags(flags);
    assert e < PAGE || e - FLAG_NO_EXECUTE < PAGE;
  }

  /** A frame taken from the allocator and zeroed. */
  lemma {:induction false} TakeFrame(s: State, own: Own, root: nat)
    requires Sound(s, own, root) && s.pending != []
    ensures var f, s1 := s.pending[0], State(ZeroPage(s.mem, s.pending[0]), s.pending[1..]);
      Sound(s1, own, root) && FrameOk(f) && f !in own && f !in s1.pending && SameTables(s.mem, s1.mem, own)
  {
    var f, m1 := s.pending[0], ZeroPage(s.mem, s.pending[0]);
    ZeroSame(s.mem, f, own);
    SameTree(s.mem, m1, own);
  }

  /** The aliases of the page lead into frame f, and every other address leads where it led. */
  ghost predicate Mapped(m: Mem, m': Mem, root: nat, page: nat, f: nat) {
    forall a: nat :: Translate(m', root, a)
      == if Alias(m, root, a, root, page, 4) then Some(f + a % PAGE) else Translate(m, root, a)
  }

  /** What mapping frame f at a page did. */
  ghost predicate Installed(s1: State, s2: State, own: Own, own': Own, root: nat, page: nat, f: nat) {
    && Sound(s2, own', root) && DataKept(s1.mem, s2.mem, own')
    && (forall x :: x in own' ==> x in own || x in s1.pending) && (forall x :: x in s2.pending ==> x in s1.pending)
    && Grown(s1.mem, s2.mem, own) && PageAt(s2.mem, root, 4, page, f) && Translate(s1.mem, root, page) == None
    && Mapped(s1.mem, s2.mem, root, page, f) && SameAliases(s1.mem, s2.mem, own)
  }

  lemma {:induction false} Install(s1: State, s2: State, own: Own, root: nat, page: u64, f: u64, flags: u64)
    returns (own': Own)
    requires Sound(s1, own, root) && AddrOf(Pte(f, flags)) == f
    requires MapPage(s1, root, page, f, flags).0.Ok? && s2 == MapPage(s1, root, page, f, flags).1
    ensures Installed(s1, s2, own, own', root, page, f) && |s1.pending| - 4 < |s2.pending|
  {
    own' := AddressSpaces.MapPageKeeps(s1, own, root, page, f, flags);
    AddressSpaces.SuffixIn(s1.pending, |s1.pending| - |s2.pending|);
    MapAliases(s1, own, root, page, f, flags);
    forall a: nat
      ensures Translate(s2.mem, root, a)
        == if Alias(s1.mem, root, a, root, page, 4) then Some(f + a % PAGE) else Translate(s1.mem, root, a)
    {
      MapExactly(s1, own, root, page, f, flags, root, a);
    }
  }

  /** A held byte survives taking a frame. */
  lemma {:induction false} HeldTake(s: State, own: Own, root: nat, va: nat, b: byte)
    requires Sound(s, own, root) && s.pending != [] && Held(s, own, root, va, b)
    ensures Held(State(ZeroPage(s.mem, s.pending[0]), s.pending[1..]), own, root, va, b)
  {
    var f, p := s.pending[0], Translate(s.mem, root, va).value;
    TakeFrame(s, own, root);
    SameTranslation(s.mem, ZeroPage(s.mem, f), own, root, va);
    OutsideFrame(p, f);
    ZeroPageBytes(s.mem, f, p);
  }

  /** A held byte survives a mapping. */
  lemma {:induction false} HeldInstall(s1: State, s2: State, own: Own, own': Own, root: nat, page: nat, f: nat,
    va: nat, b: byte)
    requires Sound(s1, own, root) && Installed(s1, s2, own, own', root, page, f) && Held(s1, own, root, va, b)
    ensures Held(s2, own', root, va, b)
  {
    var p := Translate(s1.mem, root, va).value;
    StaysPut(s1, s2, own, own', root, page, f, va, p);
    DataByte(s1.mem, s2.mem, own', p);
  }

  /** Any byte survives a write to another frame. */
  lemma {:induction false} HeldWrite(s: State, own: Own, root: nat, f: nat, a: nat, data: seq<byte>, va: nat, b: byte)
    requires Sound(s, own, root) && f % PAGE == 0 && f !in own && f <= a && a + |data| <= f + PAGE
    requires Held(s, own, root, va, b) && var p := Phys(s, root, va); p - p % PAGE != f
    ensures Held(s.(mem := SetBytes(s.mem, a, data)), own, root, va, b)
  {
    var p := Phys(s, root, va);
    BytesSame(s.mem, f, a, data, own);
    SameTranslation(s.mem, SetBytes(s.mem, a, data), own, root, va);
    OutsideFrame(p, f);
    SetBytesAt(s.mem, a, data, p);
  }

  function Phys(s: State, root: nat, va: nat): nat {
    var t := Translate(s.mem, root, va);
    if t.Some? then t.value else 0
  }

  lemma {:induction false} FilledAt(m: Mem, m': Mem, f: nat, seg: Elf.Segment, data: seq<byte>, page: nat)
    returns (a: nat, chunk: seq<byte>)
    requires FillPage(m, f, seg, data, page) == (Loaded, m')
    ensures f <= a && a + |chunk| <= f + PAGE && m' == SetBytes(m, a, chunk)
  {
    var p := PlanPage(seg, |data|, page);
    a, chunk := CopyAt(m, f, data, p.to, p.src, p.n);
  }

  lemma {:induction false} CopyAt(m: Mem, f: nat, data: seq<byte>, to: nat, src: nat, n: nat)
    returns (a: nat, chunk: seq<byte>)
    requires to + n <= PAGE && src + n <= |data|
    ensures f <= a && a + |chunk| <= f + PAGE && CopySlice(m, f + to, data, src, n) == SetBytes(m, a, chunk)
  {
    a, chunk := f + to, data[src..src + n];
    CopySliceSets(m, a, data, src, n);
  }

  /** The plan covers exactly the segment's file bytes on the page. */
  lemma PlanCovers(seg: Elf.Segment, len: nat, page: nat, i: nat)
    requires PlanPage(seg, len, page).Copy? && page <= seg.vaddr + i < page + PAGE
    ensures var p, j := PlanPage(seg, len, page), seg.vaddr + i - page;
      && (i < seg.filesz <==> p.to <= j < p.to + p.n)
      && (i < seg.filesz ==> p.src + (j - p.to) == seg.offset + i < len)
  {
  }

  /** The bytes of the frame after filling: the file's, and zeros. */
  lemma {:induction false} FilledByte(m: Mem, m': Mem, f: nat, seg: Elf.Segment, data: seq<byte>, page: nat, i: nat)
    requires FillPage(m, f, seg, data, page) == (Loaded, m') && page <= seg.vaddr + i < page + PAGE
    requires ByteAt(m, f + (seg.vaddr + i - page)) == 0
    ensures i < seg.filesz ==> seg.offset + i < |data|
    ensures ByteAt(m', f + (seg.vaddr + i - page)) == Content(seg, data, i)
  {
    var p := PlanPage(seg, |data|, page);
    PlanCovers(seg, |data|, page, i);
    CopySliceAt(m, f + p.to, data, p.src, p.n, f + (seg.vaddr + i - page));
  }

  /** The three states of LoadPage after the first. */
  ghost predicate Steps(s: State, s1: State, s2: State, s3: State, own: Own, own': Own, root: nat, page: nat, f: nat,
    a: nat, chunk: seq<byte>)
  {
    && Sound(s, own, root) && s.pending != [] && f == s.pending[0] && s1 == State(ZeroPage(s.mem, f), s.pending[1..])
    && Sound(s1, own, root) && FrameOk(f) && f !in own' && f !in s2.pending && SameTables(s.mem, s1.mem, own)
    && Installed(s1, s2, own, own', root, page, f) && |s.pending| <= |s2.pending| + 4
    && f <= a && a + |chunk| <= f + PAGE && s3 == s2.(mem := SetBytes(s2.mem, a, chunk))
  }

  lemma {:induction false} KeepOne(s: State, s1: State, s2: State, s3: State, own: Own, own': Own, root: nat,
    page: nat, f: nat, a: nat, chunk: seq<byte>, va: nat, b: byte)
    requires Steps(s, s1, s2, s3, own, own', root, page, f, a, chunk) && Held(s, own, root, va, b)
    ensures Held(s3, own', root, va, b)
  {
    var p := Phys(s, root, va);
    HeldTake(s, own, root, va, b);
    SameTranslation(s.mem, s1.mem, own, root, va);
    HeldInstall(s1, s2, own, own', root, page, f, va, b);
    StaysPut(s1, s2, own, own', root, page, f, va, p);
    HeldWrite(s2, own', root, f, a, chunk, va, b);
  }

  lemma {:induction false} StaysPut(s1: State, s2: State, own: Own, own': Own, root: nat, page: nat, f: nat, va: nat,
    p: nat)
    requires Sound(s1, own, root) && Installed(s1, s2, own, own', root, page, f)
      && Translate(s1.mem, root, va) == Some(p)
    ensures Translate(s2.mem, root, va) == Some(p)
  {
    RootOnPath(own, root, va);
  }

  lemma {:induction false} NewPageAt(s1: State, s2: State, s3: State, own: Own, own': Own, root: nat, page: nat, f: nat,
    a: nat, chunk: seq<byte>, va: nat)
    requires Root(own, root) && Installed(s1, s2, own, own', root, page, f) && f % PAGE == 0 && f !in own'
    requires f <= a && a + |chunk| <= f + PAGE && s3 == s2.(mem := SetBytes(s2.mem, a, chunk))
    requires page % PAGE == 0 && page <= va < page + PAGE
    ensures Translate(s3.mem, root, va) == Some(f + (va - page))
  {
    SamePageNumber(page, va);
    assert Translate(s2.mem, root, va) == Some(f + va % PAGE);
    BytesSame(s2.mem, f, a, chunk, own');
    SameTranslation(s2.mem, s3.mem, own', root, va);
  }

  lemma {:induction false} NewPageZero(m: Mem, m2: Mem, own': Own, f: nat, j: nat)
    requires DataKept(ZeroPage(m, f), m2, own') && f % PAGE == 0 && f !in own' && j < PAGE
    ensures ByteAt(m2, f + j) == 0
  {
    InFrame(f, j);
    ZeroPageBytes(m, f, f + j);
    DataByte(ZeroPage(m, f), m2, own', f + j);
  }

  /** The new page translates to the new frame, which is zero before it is filled. */
  lemma {:induction false} NewPage(s: State, s1: State, s2: State, s3: State, own: Own, own': Own, root: nat,
    page: nat, f: nat, a: nat, chunk: seq<byte>, va: nat)
    requires Steps(s, s1, s2, s3, own, own', root, page, f, a, chunk) && page % PAGE == 0 && page <= va < page + PAGE
    ensures Translate(s3.mem, root, va) == Some(f + (va - page)) && ByteAt(s2.mem, f + (va - page)) == 0
    ensures Private(s3, own', f + (va - page))
  {
    NewPageAt(s1, s2, s3, own, own', root, page, f, a, chunk, va);
    NewPageZero(s.mem, s2.mem, own', f, va - page);
    InFrame(f, va - page);
  }

  lemma SamePageNumber(page: nat, va: nat)
    requires page % PAGE == 0 && page <= va < page + PAGE
    ensures Page(va) == Page(page) && va % PAGE == va - page
  {
    ModUnique(va, PAGE, page / PAGE, va - page);
    UserCopy.PageOffset(page, va - page);
  }

  lemma InFrame(f: nat, j: nat)
    requires f % PAGE == 0 && j < PAGE
    ensures f + j - (f + j) % PAGE == f
  {
  }

  lemma LoadPageParts(s: State, root: nat, seg: Elf.Segment, data: seq<byte>, page: u64, s3: State)
    returns (f: u64, s1: State, s2: State)
    requires LoadPage(s, root, seg, data, page) == (Loaded, s3)
    ensures s.pending != [] && f == s.pending[0] && s1 == State(ZeroPage(s.mem, f), s.pending[1..])
    ensures MapPage(s1, root, page, f, PageFlags(seg.flags)).0.Ok?
    ensures s2 == MapPage(s1, root, page, f, PageFlags(seg.flags)).1
    ensures FillPage(s2.mem, f, seg, data, page) == (Loaded, s3.mem) && s3.pending == s2.pending
  {
    f, s1 := s.pending[0], State(ZeroPage(s.mem, s.pending[0]), s.pending[1..]);
    var (res, s') := MapPage(s1, root, page, f, PageFlags(seg.flags));
    s2 := s';
    assert FillMapped(res, s2, f, seg, data, page) == (Loaded, s3);
  }

  lemma {:induction false} LoadPageSteps(s: State, own: Own, root: nat, seg: Elf.Segment, data: seq<byte>, page: u64,
    s3: State)
    returns (s1: State, s2: State, own': Own, f: nat, a: nat, chunk: seq<byte>)
    requires Sound(s, own, root) && page % PAGE == 0
    requires LoadPage(s, root, seg, data, page) == (Loaded, s3)
    ensures Steps(s, s1, s2, s3, own, own', root, page, f, a, chunk)
    ensures FillPage(s2.mem, f, seg, data, page) == (Loaded, s3.mem)
    ensures f < WORD && MapPage(s1, root, page, f, PageFlags(seg.flags)).0.Ok?
    ensures s2 == MapPage(s1, root, page, f, PageFlags(seg.flags)).1
  {
    f, s1, s2 := LoadPageParts(s, root, seg, data, page, s3);
    TakeFrame(s, own, root);
    PageFlagsClear(seg.flags);
    PlainTarget(f, PageFlags(seg.flags));
    own' := Install(s1, s2, own, root, page, f, PageFlags(seg.flags));
    a, chunk := FilledAt(s2.mem, s3.mem, f, seg, data, page);
  }

  lemma {:induction false} StepsSound(s: State, s1: State, s2: State, s3: State, own: Own, own': Own, root: nat,
    page: nat, f: nat, a: nat, chunk: seq<byte>)
    requires Steps(s, s1, s2, s3, own, own', root, page, f, a, chunk)
    ensures Sound(s3, own', root) && Keeps(s, own, s3, own', root)
  {
    BytesSame(s2.mem, f, a, chunk, own');
    SameTree(s2.mem, s3.mem, own');
    forall va: nat, b: byte | Held(s, own, root, va, b) ensures Held(s3, own', root, va, b) {
      KeepOne(s, s1, s2, s3, own, own', root, page, f, a, chunk, va, b);
    }
  }

  lemma {:induction false} ShowOne(s: State, s1: State, s2: State, s3: State, own: Own, own': Own, root: nat,
    page: nat, f: nat, a: nat, chunk: seq<byte>, seg: Elf.Segment, data: seq<byte>, i: nat)
    requires Steps(s, s1, s2, s3, own, own', root, page, f, a, chunk) && page % PAGE == 0
    requires FillPage(s2.mem, f, seg, data, page) == (Loaded, s3.mem) && page <= seg.vaddr + i < page + PAGE
    ensures Shows(s3, own', root, seg, data, i)
  {
    NewPage(s, s1, s2, s3, own, own', root, page, f, a, chunk, seg.vaddr + i);
    FilledByte(s2.mem, s3.mem, f, seg, data, page, i);
    HeldAt(s3, own', root, seg.vaddr + i, f + (seg.vaddr + i - page), Content(seg, data, i));
  }

  lemma HeldAt(s: State, own: Own, root: nat, va: nat, p: nat, b: byte)
    requires Translate(s.mem, root, va) == Some(p) && ByteAt(s.mem, p) == b && Private(s, own, p)
    ensures Held(s, own, root, va, b)
  {
  }

  /** One page: earlier bytes stay, and the segment's bytes on the page appear. */
  lemma {:induction false} LoadPageShows(s: State, own: Own, root: nat, seg: Elf.Segment, data: seq<byte>, page: u64,
    s3: State)
    returns (own': Own)
    requires Sound(s, own, root) && page % PAGE == 0
    requires LoadPage(s, root, seg, data, page) == (Loaded, s3)
    ensures Sound(s3, own', root) && Keeps(s, own, s3, own', root)
    ensures forall i: nat :: page <= seg.vaddr + i < page + PAGE ==> Shows(s3, own', root, seg, data, i)
  {
    var s1, s2, f, a, chunk;
    s1, s2, own', f, a, chunk := LoadPageSteps(s, own, root, seg, data, page, s3);
    StepsSound(s, s1, s2, s3, own, own', root, page, f, a, chunk);
    forall i: nat | page <= seg.vaddr + i < page + PAGE ensures Shows(s3, own', root, seg, data, i) {
      ShowOne(s, s1, s2, s3, own, own', root, page, f, a, chunk, seg, data, i);
    }
  }

  lemma {:induction false} ShowsKept(s: State, own: Own, s': State, own': Own, root: nat, seg: Elf.Segment,
    data: seq<byte>, i: nat)
    requires Keeps(s, own, s', own', root) && Shows(s, own, root, seg, data, i)
    ensures Shows(s', own', root, seg, data, i)
  {
  }

  /** All pages from `page` on. */
  lemma {:induction false} LoadPagesShow(s: State, own: Own, root: nat, seg: Elf.Segment, data: seq<byte>, page: u64,
    end: u64, s': State)
    returns (own': Own)
    requires Sound(s, own, root) && page % PAGE == 0
    requires LoadPages(s, root, seg, data, page, end) == (Loaded, s')
    ensures Sound(s', own', root) && Keeps(s, own, s', own', root)
    ensures forall i: nat :: page <= seg.vaddr + i < end ==> Shows(s', own', root, seg, data, i)
    decreases end - page
  {
    if page >= end {
      own' := own;
    } else {
      var s1 := FirstPage(s, root, seg, data, page, end, s');
      var own1 := LoadPageShows(s, own, root, seg, data, page, s1);
      own' := LoadPagesShow(s1, own1, root, seg, data, page + PAGE, end, s');
      JoinPages(s1, own1, s', own', root, seg, data, page, end);
      KeepsTransitive(s, own, s1, own1, s', own', root);
    }
  }

  lemma KeepsTransitive(s: State, own: Own, s1: State, own1: Own, s2: State, own2: Own, root: nat)
    requires Keeps(s, own, s1, own1, root) && Keeps(s1, own1, s2, own2, root)
    ensures Keeps(s, own, s2, own2, root)
  {
  }

  lemma LoadedBelow(s: State, root: nat, seg: Elf.Segment, data: seq<byte>, page: u64)
    requires LoadPage(s, root, seg, data, page).0 == Loaded
    ensures PlanPage(seg, |data|, page).Copy? && page + PAGE < WORD
  {
    var f, s1, s2 := LoadPageParts(s, root, seg, data, page, LoadPage(s, root, seg, data, page).1);
    assert FillPage(s2.mem, f, seg, data, page).0 == Loaded;
  }

  lemma PagesUnfold(s: State, root: nat, seg: Elf.Segment, data: seq<byte>, page: u64, end: u64)
    requires page < end
    ensures LoadPages(s, root, seg, data, page, end)
      == var (load, s') := LoadPage(s, root, seg, data, page);
         if load.Loaded? then LoadPages(s', root, seg, data, Min(page + PAGE, WORD - 1), end) else (load, s')
  {
  }

  lemma NextPage(page: nat)
    requires page % PAGE == 0
    ensures (page + PAGE) % PAGE == 0
  {
  }

  lemma FirstPage(s: State, root: nat, seg: Elf.Segment, data: seq<byte>, page: u64, end: u64, s': State)
    returns (s1: State)
    requires page % PAGE == 0 && page < end && LoadPages(s, root, seg, data, page, end) == (Loaded, s')
    ensures page + PAGE < WORD && (page + PAGE) % PAGE == 0 && LoadPage(s, root, seg, data, page) == (Loaded, s1)
    ensures LoadPages(s1, root, seg, data, page + PAGE, end) == (Loaded, s')
  {
    s1 := LoadPage(s, root, seg, data, page).1;
    PagesUnfold(s, root, seg, data, page, end);
    LoadedBelow(s, root, seg, data, page);
    NextPage(page);
  }

  lemma {:induction false} JoinPages(s1: State, own1: Own, s': State, own': Own, root: nat, seg: Elf.Segment,
    data: seq<byte>, page: nat, end: nat)
    requires Keeps(s1, own1, s', own', root)
    requires forall i: nat :: page <= seg.vaddr + i < page + PAGE ==> Shows(s1, own1, root, seg, data, i)
    requires forall i: nat :: page + PAGE <= seg.vaddr + i < end ==> Shows(s', own', root, seg, data, i)
    ensures forall i: nat :: page <= seg.vaddr + i < end ==> Shows(s', own', root, seg, data, i)
  {
    forall i: nat | page <= seg.vaddr + i < page + PAGE ensures Shows(s', own', root, seg, data, i) {
      ShowsKept(s1, own1, s', own', root, seg, data, i);
    }
  }

  lemma RoundUpAbove(v: u64)
    ensures v <= RoundUp(v)
  {
  }

  lemma PageStart(v: u64)
    ensures (v - v % PAGE) % PAGE == 0 && v - v % PAGE <= v
  {
  }

  lemma {:induction false} LoadSegmentShows(s: State, own: Own, root: nat, seg: Elf.Segment, data: seq<byte>, s': State)
    returns (own': Own)
    requires Sound(s, own, root) && LoadSegment(s, root, seg, data) == (Loaded, s')
    ensures Sound(s', own', root) && Keeps(s, own, s', own', root)
    ensures forall i: nat :: i < seg.memsz ==> Shows(s', own', root, seg, data, i)
  {
    var start, end := SegmentPages(s, root, seg, data, s');
    own' := LoadPagesShow(s, own, root, seg, data, start, end, s');
    forall i: nat | i < seg.memsz ensures Shows(s', own', root, seg, data, i) {
      assert start <= seg.vaddr + i < end;
    }
  }

  lemma SegmentPages(s: State, root: nat, seg: Elf.Segment, data: seq<byte>, s': State) returns (start: u64, end: u64)
    requires LoadSegment(s, root, seg, data) == (Loaded, s')
    ensures LoadPages(s, root, seg, data, start, end) == (Loaded, s')
    ensures start % PAGE == 0 && start <= seg.vaddr && seg.vaddr + seg.memsz <= end
  {
    start, end := seg.vaddr - seg.vaddr % PAGE, RoundUp(seg.vaddr + seg.memsz);
    RoundUpAbove(seg.vaddr + seg.memsz);
    PageStart(seg.vaddr);
  }

  /** The contents theorem. After map_user_segments succeeds, every byte of every segment can be read
      through translate, wherever it lies: the file's bytes first, then zeros. Bytes that could be read before, and
      those of earlier segments, are not disturbed. */
  lemma {:induction false} LoadSegmentsShow(s: State, own: Own, root: nat, segs: seq<Elf.Segment>, data: seq<byte>,
    s': State)
    returns (own': Own)
    requires Sound(s, own, root) && LoadSegments(s, root, segs, data) == (Loaded, s')
    ensures Sound(s', own', root) && Keeps(s, own, s', own', root)
    ensures forall k, i: nat :: 0 <= k < |segs| && i < segs[k].memsz ==> Shows(s', own', root, segs[k], data, i)
    decreases |segs|
  {
    own' := own;
    if segs == [] {
    } else {
      var s1 := LoadSegment(s, root, segs[0], data).1;
      var own1 := LoadSegmentShows(s, own, root, segs[0], data, s1);
      own' := LoadSegmentsShow(s1, own1, root, segs[1..], data, s');
      forall k, i: nat | 0 <= k < |segs| && i < segs[k].memsz ensures Shows(s', own', root, segs[k], data, i) {
        if k == 0 {
          ShowsKept(s1, own1, s', own', root, segs[0], data, i);
        } else {
          assert segs[k] == segs[1..][k - 1];
        }
      }
    }
  }
}
