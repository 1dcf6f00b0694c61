/** Any run of clone, map and unmap, on any page of any address space, with frames taken from the allocator
    and data written to them, behaves like updates of a finite map from (root, page) to frame for the private
    part of each space, and of one view for the part that all spaces share with the kernel. */
module AddressSpaces {
  import opened Alignment
  import opened Options
  import opened LittleEndian
  import opened PageTables
  import opened TableTrees
  import opened TableAliases
  import opened PhysBytes
  import opened DataWrites
  import UserCopy

  datatype Op =
    | Clone
    | Map(root: nat, va: nat, frame: u64, flags: u64)
    | Unmap(root: nat, va: nat)
    | Take
    | Fill(page: nat, at: nat, data: seq<byte>)
    | Store(root: nat, ptr: nat, src: seq<byte>)

  datatype Reply =
    | Cloned(clone: Result<nat>)
    | Mapped(map_: Result<()>)
    | Unmapped
    | Taken(frame: Option<nat>)
    | Filled
    | Stored(status: UserCopy.CopyResult)

  function Exec(s: State, kernel: nat, op: Op): (Reply, State)
  {
    match op
    case Clone => var (r, s') := CloneRoot(s, kernel); (Cloned(r), s')
    case Map(root, va, frame, flags) => var (r, s') := MapPage(s, root, va, frame, flags); (Mapped(r), s')
    case Unmap(root, va) => (Unmapped, s.(mem := UnmapPage(s.mem, root, va)))
    case Take =>
      if s.pending == [] then (Taken(None), s)
      else (Taken(Some(s.pending[0])), s.(pending := s.pending[1..]))
    case Fill(frame, at, data) => (Filled, s.(mem := SetBytes(s.mem, frame + at, data)))
    case Store(root, ptr, src) => var (r, m) := UserCopy.CopyTo(s.mem, root, ptr, src); (Stored(r), s.(mem := m))
  }

  // ---------------------------------------------------------------- the plain maps

  /** The kernel's tables as a run finds them. */
  datatype Start = Start(mem: Mem, root: nat)

  /** The kernel has a top-level entry for a. */
  predicate KernelTop(k: Start, a: nat) { Present(Entry(k.mem, k.root, Index(a, 4))) }

  /** In space r, address a is served by tables of the kernel. */
  predicate Shared(k: Start, r: nat, a: nat) { KernelTop(k, a) && (r == k.root || !LowerHalf(a)) }

  /** Since this edit the aliases of va lead to a frame, or nowhere. */
  datatype Edit = Edit(va: nat, now: Option<nat>)

  /** The private address spaces, what their private pages lead to, the frames taken for data, and what has
      been mapped and unmapped in the shared part. */
  datatype Spaces = Spaces(roots: set<nat>, pages: map<(nat, nat), nat>, taken: set<nat>, edits: seq<Edit>)

  function Place(now: Option<nat>, a: nat): Option<nat> {
    if now.Some? then Some(now.value + a % PAGE) else None
  }

  /** The kernel's translations: those of the start, as the edits since then have changed them. */
  function KernelView(k: Start, edits: seq<Edit>, a: nat): Option<nat>
    decreases |edits|
  {
    if edits == [] then Translate(k.mem, k.root, a)
    else
      var last := edits[|edits| - 1];
      if Alias(k.mem, k.root, a, k.root, last.va, 4) then Place(last.now, a)
      else KernelView(k, edits[..|edits| - 1], a)
  }

  function Lookup(k: Start, v: Spaces, r: nat, a: nat): Option<nat> {
    if r == k.root || Shared(k, r, a) then KernelView(k, v.edits, a)
    else if (r, Page(a)) in v.pages then Some(v.pages[(r, Page(a))] + a % PAGE)
    else None
  }

  /** The page of va now leads to a frame, or nowhere. */
  function Move(k: Start, v: Spaces, root: nat, va: nat, now: Option<nat>): Spaces {
    var key := (root, Page(va));
    if Shared(k, root, va) then v.(edits := v.edits + [Edit(va, now)])
    else v.(pages := if now.Some? then v.pages[key := now.value] else v.pages - {key})
  }

  /** The page is part of one of the kernel's large pages, which unmap_page leaves alone. */
  predicate OnKernelLarge(k: Start, root: nat, va: nat) {
    Shared(k, root, va) && OnLargePage(k.mem, k.root, 4, va)
  }

  /** The maps after an operation that was answered by reply. */
  function Next(k: Start, v: Spaces, op: Op, reply: Reply): Spaces {
    match (op, reply)
    case (Clone, Cloned(Ok(f))) => v.(roots := v.roots + {f})
    case (Map(root, va, frame, flags), Mapped(Ok(_))) => Move(k, v, root, va, Some(AddrOf(Pte(frame, flags))))
    case (Unmap(root, va), Unmapped) =>
      if va % PAGE == 0 && !OnKernelLarge(k, root, va) then Move(k, v, root, va, None) else v
    case (Take, Taken(Some(f))) => v.(taken := v.taken + {f})
    case _ => v
  }

  /** Every page of the range is mapped. */
  predicate AllMapped(k: Start, v: Spaces, root: nat, ptr: nat, n: nat) {
    forall a :: ptr <= a < ptr + n ==> Lookup(k, v, root, a).Some?
  }

  /** The answers the plain maps allow: a page can be mapped when it is not; a range can be written when
      all of it is mapped; memory may run out. */
  predicate Allowed(k: Start, v: Spaces, op: Op, reply: Reply) {
    match op
    case Clone =>
      reply.Cloned? && (reply.clone.Ok? ==> reply.clone.value !in v.roots + v.taken)
        && reply.clone != Err(AlreadyMapped)
    case Map(root, va, frame, _) =>
      && reply.Mapped?
      && (reply.map_ == Err(AlreadyMapped) <==> va % PAGE != 0 || frame % PAGE != 0 || Lookup(k, v, root, va).Some?)
    case Unmap(_, _) => reply.Unmapped?
    case Take => reply.Taken? && (reply.frame.Some? ==> reply.frame.value !in v.roots + v.taken)
    case Fill(_, _, _) => reply.Filled?
    case Store(root, ptr, src) =>
      reply == Stored(if !UserCopy.RangeOk(ptr, |src|) then UserCopy.InvalidUserPointer
                      else if AllMapped(k, v, root, ptr, |src|) then UserCopy.Done
                      else UserCopy.UserMemoryNotPresent)
  }

  /** The address leads to a frame that was taken for data, if anywhere. */
  predicate ToData(at: Option<nat>, taken: set<nat>) {
    at.Some? ==> at.value - at.value % PAGE in taken
  }

  predicate LeadsToData(k: Start, v: Spaces, root: nat, ptr: nat, n: nat) {
    forall a :: ptr <= a < ptr + n ==> ToData(Lookup(k, v, root, a), v.taken)
  }

  /** Operations on known address spaces; in the kernel's own, on pages under its top-level entries. Data is
      written to frames taken for data. */
  predicate Legal(k: Start, v: Spaces, op: Op) {
    match op
    case Clone => true
    case Map(root, va, _, _) => Reachable(k, v, root, va)
    case Unmap(root, va) => Reachable(k, v, root, va)
    case Take => true
    case Fill(frame, at, data) => frame in v.taken && at + |data| <= PAGE
    case Store(root, ptr, src) =>
      Known(k, v, root) && (UserCopy.RangeOk(ptr, |src|) ==> LeadsToData(k, v, root, ptr, |src|))
  }

  predicate Known(k: Start, v: Spaces, r: nat) { r in v.roots || r == k.root }

  predicate Reachable(k: Start, v: Spaces, root: nat, va: nat) { root in v.roots || (root == k.root && KernelTop(k,
    va)) }

  // ---------------------------------------------------------------- the relation

  /** The kernel translates as the edits say, and each private space by the map where it does not share the
      kernel's tables. */
  ghost predicate Views(m: Mem, k: Start, v: Spaces) {
    && (forall a: nat :: Translate(m, k.root, a) == KernelView(k, v.edits, a))
    && (forall r, a: nat :: r in v.roots && !Shared(k, r, a) ==> Translate(m, r, a) == Lookup(k, v, r, a))
  }

  ghost predicate Shape(s: State, own: Own, k: Start, v: Spaces) {
    && Tree(s.mem, own) && Fresh(s.pending, own) && k.root in own && own[k.root] == Kernel(4)
    && (forall r :: r in v.roots ==> r in own && own[r] == Table(r, 4, 0))
    && (forall r, p :: (r, p) in v.pages ==> r in v.roots)
    && (forall f :: f in v.taken ==> FrameOk(f) && f !in own && f !in s.pending)
  }

  /** Entry i of a private root is a copy of the kernel's. */
  predicate Copied(k: Start, i: nat) { i >= HALF && Present(Entry(k.mem, k.root, i)) }

  /** What a top-level entry may be: the kernel's root has those of the start; a private root has the kernel's
      in the upper half, and where the kernel has none, links to tables of its own. */
  predicate TopOk(m: Mem, own: Own, k: Start, r: nat, i: nat) {
    var e := Entry(m, r, i);
    if r == k.root || Copied(k, i) then e == Entry(k.mem, k.root, i)
    else Present(e) ==> AddrOf(e) in own && own[AddrOf(e)].Table?
  }

  ghost predicate Tops(m: Mem, own: Own, k: Start, v: Spaces) {
    forall r, i :: Known(k, v, r) && 0 <= i < ENTRIES ==> TopOk(m, own, k, r, i)
  }

  /** The kernel's aliases and large pages are those of the start. */
  ghost predicate KernelAliases(m: Mem, k: Start) {
    && (forall a, b: nat :: Alias(m, k.root, a, k.root, b, 4) <==> Alias(k.mem, k.root, a, k.root, b, 4))
    && (forall a: nat :: OnLargePage(m, k.root, 4, a) <==> OnLargePage(k.mem, k.root, 4, a))
  }

  ghost predicate Rel(s: State, own: Own, k: Start, v: Spaces) {
    Shape(s, own, k, v) && Tops(s.mem, own, k, v) && KernelAliases(s.mem, k) && Views(s.mem, k, v)
  }

  // ---------------------------------------------------------------- shared and private addresses

  lemma LowerIndex(va: nat)
    ensures Index(va, 4) < HALF <==> LowerHalf(va)
  {
    PrefixStep(va, 4);
  }

  lemma SharedIndex(k: Start, r: nat, a: nat)
    requires r != k.root
    ensures Shared(k, r, a) <==> Copied(k, Index(a, 4))
  {
    LowerIndex(a);
  }

  /** A shared address has the kernel's own entry. */
  lemma {:induction false} SharedEntry(s: State, own: Own, k: Start, v: Spaces, r: nat, a: nat)
    requires Rel(s, own, k, v) && Known(k, v, r) && Shared(k, r, a)
    ensures Word(s.mem, Slot(r, a, 4)) == Word(s.mem, Slot(k.root, a, 4))
    ensures Linked(Word(s.mem, Slot(r, a, 4)), 4)
  {
    LowerIndex(a);
    assert TopOk(s.mem, own, k, r, Index(a, 4)) && TopOk(s.mem, own, k, k.root, Index(a, 4));
  }

  /** Every address of every space translates as the plain maps say. */
  lemma {:induction false} TranslatesAs(s: State, own: Own, k: Start, v: Spaces, r: nat, a: nat)
    requires Rel(s, own, k, v) && Known(k, v, r)
    ensures Translate(s.mem, r, a) == Lookup(k, v, r, a)
  {
    if Shared(k, r, a) {
      SharedEntry(s, own, k, v, r, a);
    }
  }

  /** The tables below a private entry are private, so a private address has no alias but its own page. */
  lemma {:induction false} PrivateAlias(s: State, own: Own, k: Start, v: Spaces, r: nat, a: nat, q: nat, b: nat)
    requires Rel(s, own, k, v) && r in v.roots && !Shared(k, r, a) && Root(own, q)
    ensures Alias(s.mem, r, a, q, b, 4) <==> q == r && Page(a) == Page(b)
  {
    var m := s.mem;
    SamePageTop(a, b);
    var e1, e2 := Word(m, Slot(r, a, 4)), Word(m, Slot(q, b, 4));
    if Linked(e1, 4) && Linked(e2, 4) && Alias(m, AddrOf(e1), a, AddrOf(e2), b, 3) {
      PrivateTop(s, own, k, v, r, a);
      RootOnPath(own, q, b);
      Descend(m, own, q, q, 4, b);
      AliasPrivate(m, own, AddrOf(e1), r, a, AddrOf(e2), q, b, 3);
    }
  }

  lemma {:induction false} PrivateTop(s: State, own: Own, k: Start, v: Spaces, r: nat, a: nat)
    requires Rel(s, own, k, v) && r in v.roots && !Shared(k, r, a) && Present(Word(s.mem, Slot(r, a, 4)))
    ensures var c := AddrOf(Word(s.mem, Slot(r, a, 4))); c in own && own[c] == Table(r, 3, Prefix(a, 3))
  {
    assert Known(k, v, r) && r != k.root;
    SharedIndex(k, r, a);
    assert TopOk(s.mem, own, k, r, Index(a, 4)) && EntryOk(s.mem, own, r, Index(a, 4));
    PrefixStep(a, 4);
  }

  /** In the kernel's space, the aliases of a shared page are those of the same page of the kernel. */
  lemma {:induction false} SharedAlias(s: State, own: Own, k: Start, v: Spaces, root: nat, va: nat, a: nat)
    requires Rel(s, own, k, v) && Known(k, v, root) && Shared(k, root, va)
    ensures Alias(s.mem, k.root, a, root, va, 4) <==> Alias(k.mem, k.root, a, k.root, va, 4)
  {
    SharedEntry(s, own, k, v, root, va);
    AliasSwap(s.mem, k.root, a, root, k.root, va);
    assert Alias(s.mem, k.root, a, k.root, va, 4) <==> Alias(k.mem, k.root, a, k.root, va, 4);
  }

  /** Where two roots have one entry, it does not matter from which of them a walk starts. */
  lemma AliasSwap(m: Mem, t: nat, a: nat, r1: nat, r2: nat, va: nat)
    requires Word(m, Slot(r1, va, 4)) == Word(m, Slot(r2, va, 4)) && Linked(Word(m, Slot(r1, va, 4)), 4)
    requires t == r1 || t == r2
    ensures Alias(m, t, a, r1, va, 4) <==> Alias(m, t, a, r2, va, 4)
  {
    var e, e1 := Word(m, Slot(t, a, 4)), Word(m, Slot(r1, va, 4));
    if Linked(e, 4) {
      AliasStep(m, t, a, r1, va, 4, AddrOf(e), AddrOf(e1));
      AliasStep(m, t, a, r2, va, 4, AddrOf(e), AddrOf(e1));
    } else {
      AliasEnd(m, t, a, r1, va, 4);
      AliasEnd(m, t, a, r2, va, 4);
    }
  }

  /** A private page is not part of a large one; a shared one is if it was at the start. */
  lemma {:induction false} LargeExactly(s: State, own: Own, k: Start, v: Spaces, root: nat, va: nat)
    requires Rel(s, own, k, v) && Reachable(k, v, root, va)
    ensures OnLargePage(s.mem, root, 4, va) <==> OnKernelLarge(k, root, va)
  {
    if Shared(k, root, va) {
      SharedEntry(s, own, k, v, root, va);
      assert OnLargePage(s.mem, k.root, 4, va) <==> OnLargePage(k.mem, k.root, 4, va);
    } else if Present(Word(s.mem, Slot(root, va, 4))) {
      PrivateTop(s, own, k, v, root, va);
      PrivateSmall(s.mem, own, AddrOf(Word(s.mem, Slot(root, va, 4))), root, va, 3);
    }
  }

  lemma {:induction false} PrivateSmall(m: Mem, own: Own, t: nat, r: nat, va: nat, level: nat)
    requires Tree(m, own) && t in own && 1 <= level <= 3 && own[t] == Table(r, level, Prefix(va, level))
    ensures !OnLargePage(m, t, level, va)
    decreases level
  {
    var e := Word(m, Slot(t, va, level));
    assert EntryOk(m, own, t, Index(va, level));
    if level >= 2 && Present(e) {
      PrefixStep(va, level);
      PrivateSmall(m, own, AddrOf(e), r, va, level - 1);
    }
  }

  // ---------------------------------------------------------------- one call

  /** One call of map_page on any page of any address space: what it answers, what moves and what stays.
      A lower-half page of a private space is the caller's own. */
  lemma {:induction false} MapPageKeeps(s: State, own: Own, root: nat, va: nat, frame: u64, flags: u64)
    returns (own': Own)
    requires Tree(s.mem, own) && Fresh(s.pending, own) && Root(own, root)
    ensures var (res, s') := MapPage(s, root, va, frame, flags);
      && MapEffect(s, s', own, own', root, 4, va, own[root].Table? && LowerHalf(va))
      && (res.Err? ==> Still(s.mem, s'.mem, own))
      && (res.Ok? ==> PageAt(s'.mem, root, 4, va, AddrOf(Pte(frame, flags))) && va % PAGE == 0)
      && (res == Err(AlreadyMapped) <==> va % PAGE != 0 || frame % PAGE != 0 || Translate(s.mem, root, va).Some?)
      && (res == Err(OutOfMemory) ==> |s.pending| < 3 && s'.pending == [])
      && (own[root].Table? ==> NewChildPrivate(s.mem, s'.mem, own', root, 4, va))
  {
    if va % PAGE != 0 || frame % PAGE != 0 {
      own' := own;
      assert s.pending[0..] == s.pending;
    } else {
      RootOnPath(own, root, va);
      PteTarget(frame, flags);
      var mine := own[root].Table? && LowerHalf(va);
      own' := MapFromKeeps(s, own, root, root, 4, va, mine, Pte(frame, flags), User(flags));
    }
  }

  lemma {:induction false} UnmapPageKeeps(m: Mem, own: Own, root: nat, va: nat)
    requires Tree(m, own) && Root(own, root)
    ensures var m' := UnmapPage(m, root, va);
      if va % PAGE != 0 then m' == m else UnmapEffect(m, m', own, root, root, 4, va, own[root].Table? && LowerHalf(va))
  {
    RootOnPath(own, root, va);
    UnmapFromKeeps(m, own, root, root, 4, va, own[root].Table? && LowerHalf(va));
  }

  /** map_page writes no top-level entry but the one for its page, if that is absent. */
  lemma {:induction false} MapTop(s: State, own: Own, root: nat, va: nat, pte: u64, user: bool, t: nat, i: nat)
    requires Tree(s.mem, own) && Fresh(s.pending, own) && Root(own, root) && Present(pte)
    requires t in own && own[t].level == 4 && i < ENTRIES
      && !(t == root && i == Index(va, 4) && !Present(Entry(s.mem, t, i)))
    ensures Entry(MapFrom(s, root, va, 4, pte, user).1.mem, t, i) == Entry(s.mem, t, i)
  {
    var e := Word(s.mem, Slot(root, va, 4));
    RootOnPath(own, root, va);
    if Present(e) {
      MapFromOld(s, root, 4, va, pte, user, AddrOf(e));
      OldChild(s.mem, own, root, root, 4, va, false, AddrOf(e));
      var own' := MapFromKeeps(s, own, AddrOf(e), root, 3, va, false, pte, user);
    } else if s.pending != [] {
      MapTopNew(s, own, root, va, pte, user, t, i);
    }
  }

  lemma {:induction false} MapTopNew(s: State, own: Own, root: nat, va: nat, pte: u64, user: bool, t: nat, i: nat)
    requires Tree(s.mem, own) && Fresh(s.pending, own) && OnPath(own, root, root, 4, va) && Present(pte)
    requires !Present(Word(s.mem, Slot(root, va, 4))) && s.pending != []
    requires t in own && own[t].level == 4 && i < ENTRIES && !(t == root && i == Index(va, 4))
    ensures Entry(MapFrom(s, root, va, 4, pte, user).1.mem, t, i) == Entry(s.mem, t, i)
  {
    var f, s1 := s.pending[0], EnsureTable(s, Slot(root, va, 4), user).1;
    var own1 := own[f := ChildRole(own[root], Index(va, 4))];
    LinkTable(s, own, root, root, 4, va, user);
    EnsureNew(s, Slot(root, va, 4), user);
    LinkAgrees(s.mem, own, root, Index(va, 4), f, TableEntry(f, user));
    ChildOnPath(own, own1, root, root, 4, va, f);
    MapFromNew(s, s1, root, 4, va, pte, user, f);
    var own' := MapFromKeeps(s1, own1, f, root, 3, va, false, pte, user);
    assert own1[t] == own[t];
  }

  lemma {:induction false} UnmapTop(m: Mem, own: Own, root: nat, va: nat, t: nat, i: nat)
    requires Tree(m, own) && Root(own, root) && t in own && own[t].level == 4 && i < ENTRIES
    ensures Entry(UnmapFrom(m, root, va, 4), t, i) == Entry(m, t, i)
  {
    var e := Word(m, Slot(root, va, 4));
    RootOnPath(own, root, va);
    if Present(e) {
      OldChild(m, own, root, root, 4, va, false, AddrOf(e));
      UnmapFromOld(m, root, 4, va, AddrOf(e));
      UnmapFromKeeps(m, own, AddrOf(e), root, 3, va, false);
    }
  }

  // ---------------------------------------------------------------- what a call does to the plain maps

  /** The aliases of va lead to what `now` says, and every other address leads where it led. */
  ghost predicate Moved(m: Mem, m': Mem, own: Own, root: nat, va: nat, now: Option<nat>) {
    forall r, a: nat :: Root(own, r) ==>
      Translate(m', r, a) == if Alias(m, r, a, root, va, 4) then Place(now, a) else Translate(m, r, a)
  }

  ghost predicate SameViews(m: Mem, m': Mem, own: Own) {
    forall r, a: nat :: Root(own, r) ==> Translate(m', r, a) == Translate(m, r, a)
  }

  lemma {:induction false} StillViews(m: Mem, m': Mem, own: Own)
    requires Still(m, m', own)
    ensures SameViews(m, m', own)
  {
    forall r, a: nat | Root(own, r) ensures Translate(m', r, a) == Translate(m, r, a) {
      RootOnPath(own, r, a);
    }
  }

  lemma KnownRoots(s: State, own: Own, k: Start, v: Spaces)
    requires Shape(s, own, k, v)
    ensures forall r :: Known(k, v, r) ==> Root(own, r)
  {
  }

  lemma {:induction false} ViewsSame(s: State, m': Mem, own: Own, k: Start, v: Spaces)
    requires Rel(s, own, k, v) && SameViews(s.mem, m', own)
    ensures Views(m', k, v)
  {
    KnownRoots(s, own, k, v);
    forall r, a: nat | Known(k, v, r) ensures Translate(m', r, a) == Translate(s.mem, r, a) {
      assert Root(own, r);
    }
  }

  lemma ViewLast(k: Start, edits: seq<Edit>, va: nat, now: Option<nat>, a: nat)
    ensures KernelView(k, edits + [Edit(va, now)], a)
      == if Alias(k.mem, k.root, a, k.root, va, 4) then Place(now, a) else KernelView(k, edits, a)
  {
    assert (edits + [Edit(va, now)])[..|edits|] == edits;
  }

  lemma {:induction false} SamePageShared(k: Start, r: nat, a: nat, b: nat)
    requires Page(a) == Page(b)
    ensures Shared(k, r, a) <==> Shared(k, r, b)
  {
    SamePath(a, b, 4);
    LowerIndex(a);
    LowerIndex(b);
  }

  lemma {:induction false} KernelMoves(s: State, m': Mem, own: Own, k: Start, v: Spaces, root: nat, va: nat,
    now: Option<nat>, a: nat)
    requires Rel(s, own, k, v) && Reachable(k, v, root, va) && Moved(s.mem, m', own, root, va, now)
    ensures Translate(m', k.root, a) == KernelView(k, Move(k, v, root, va, now).edits, a)
  {
    KnownRoots(s, own, k, v);
    assert Root(own, k.root) && Root(own, root);
    if Shared(k, root, va) {
      SharedAlias(s, own, k, v, root, va, a);
      ViewLast(k, v.edits, va, now, a);
    } else {
      PrivateAlias(s, own, k, v, root, va, k.root, a);
      if Alias(s.mem, k.root, a, root, va, 4) {
        AliasSymmetric(s.mem, k.root, a, root, va, 4);
      }
    }
  }

  lemma {:induction false} PrivateMoves(s: State, m': Mem, own: Own, k: Start, v: Spaces, root: nat, va: nat,
    now: Option<nat>, r: nat, a: nat)
    requires Rel(s, own, k, v) && Reachable(k, v, root, va) && Moved(s.mem, m', own, root, va, now)
    requires r in v.roots && !Shared(k, r, a)
    ensures Translate(m', r, a) == Lookup(k, Move(k, v, root, va, now), r, a)
  {
    KnownRoots(s, own, k, v);
    assert Known(k, v, r) && Root(own, r) && Root(own, root);
    PrivateAlias(s, own, k, v, r, a, root, va);
    if r == root && Page(a) == Page(va) {
      SamePageShared(k, r, a, va);
    } else {
      assert (r, Page(a)) != (root, Page(va));
    }
  }

  lemma {:induction false} ViewsMove(s: State, m': Mem, own: Own, k: Start, v: Spaces, root: nat, va: nat,
    now: Option<nat>)
    requires Rel(s, own, k, v) && Reachable(k, v, root, va) && Moved(s.mem, m', own, root, va, now)
    ensures Views(m', k, Move(k, v, root, va, now))
  {
    forall a: nat ensures Translate(m', k.root, a) == KernelView(k, Move(k, v, root, va, now).edits, a) {
      KernelMoves(s, m', own, k, v, root, va, now, a);
    }
    forall r, a: nat | r in v.roots && !Shared(k, r, a)
      ensures Translate(m', r, a) == Lookup(k, Move(k, v, root, va, now), r, a)
    {
      PrivateMoves(s, m', own, k, v, root, va, now, r, a);
    }
  }

  // ---------------------------------------------------------------- what a call does to the top level

  /** No top-level entry is written, except the one for va in root if it was absent. */
  ghost predicate TopsKept(m: Mem, m': Mem, own: Own, root: nat, va: nat) {
    forall t, i :: t in own && own[t].level == 4 && 0 <= i < ENTRIES ==>
      Entry(m', t, i) == Entry(m, t, i) || (t == root && i == Index(va, 4) && !Present(Entry(m, t, i)))
  }

  lemma {:induction false} MapTops(s: State, own: Own, root: nat, va: nat, frame: u64, flags: u64)
    requires Tree(s.mem, own) && Fresh(s.pending, own) && Root(own, root)
    ensures TopsKept(s.mem, MapPage(s, root, va, frame, flags).1.mem, own, root, va)
  {
    if va % PAGE == 0 && frame % PAGE == 0 {
      var pte, user := Pte(frame, flags), User(flags);
      PteTarget(frame, flags);
      var m' := MapFrom(s, root, va, 4, pte, user).1.mem;
      forall t, i | t in own && own[t].level == 4 && 0 <= i < ENTRIES
        ensures Entry(m', t, i) == Entry(s.mem, t, i) || (t == root && i == Index(va, 4)
          && !Present(Entry(s.mem, t, i)))
      {
        if !(t == root && i == Index(va, 4) && !Present(Entry(s.mem, t, i))) {
          MapTop(s, own, root, va, pte, user, t, i);
        }
      }
    }
  }

  lemma {:induction false} TopsHold(s: State, m': Mem, own: Own, own': Own, k: Start, v: Spaces, root: nat, va: nat)
    requires Rel(s, own, k, v) && Reachable(k, v, root, va) && TopsKept(s.mem, m', own, root, va) && Extends(own, own')
    requires own[root].Table? ==> NewChildPrivate(s.mem, m', own', root, 4, va)
    ensures Tops(m', own', k, v)
  {
    forall r, i | Known(k, v, r) && 0 <= i < ENTRIES ensures TopOk(m', own', k, r, i) {
      assert TopOk(s.mem, own, k, r, i);
      if r == root && i == Index(va, 4) && !Present(Entry(s.mem, r, i)) {
        assert own[root].Table?;
      } else {
        assert Entry(m', r, i) == Entry(s.mem, r, i);
      }
    }
  }

  lemma {:induction false} AliasesHold(s: State, m': Mem, own: Own, k: Start, v: Spaces)
    requires Rel(s, own, k, v) && SameAliases(s.mem, m', own)
    ensures KernelAliases(m', k)
  {
    assert Root(own, k.root);
    forall a, b: nat ensures Alias(m', k.root, a, k.root, b, 4) <==> Alias(k.mem, k.root, a, k.root, b, 4) {
      assert Alias(m', k.root, a, k.root, b, 4) <==> Alias(s.mem, k.root, a, k.root, b, 4);
    }
    forall a: nat ensures OnLargePage(m', k.root, 4, a) <==> OnLargePage(k.mem, k.root, 4, a) {
      assert OnLargePage(m', k.root, 4, a) <==> OnLargePage(s.mem, k.root, 4, a);
    }
  }

  // ---------------------------------------------------------------- refinement

  lemma {:induction false} CloneRefines(s: State, own: Own, k: Start, v: Spaces) returns (own': Own)
    requires Rel(s, own, k, v)
    ensures var (reply, s') := Exec(s, k.root, Clone);
      Allowed(k, v, Clone, reply) && Rel(s', own', k, Next(k, v, Clone, reply))
  {
    own' := own;
    if s.pending != [] {
      var f, s' := s.pending[0], CloneRoot(s, k.root).1;
      CloneKeeps(s, own, k.root);
      own' := own[f := Table(f, 4, 0)];
      CloneWords(s.mem, own, k.root, f);
      StillViews(s.mem, s'.mem, own);
      ViewsSame(s, s'.mem, own, k, v);
      DataAliases(s.mem, s'.mem, own);
      AliasesHold(s, s'.mem, own, k, v);
      CloneView(s, s'.mem, own, k, v, f);
      CloneTops(s, s'.mem, own, own', k, v, f);
    }
  }

  lemma {:induction false} CloneView(s: State, m': Mem, own: Own, k: Start, v: Spaces, f: nat)
    requires Rel(s, own, k, v) && f !in own && Views(m', k, v)
    requires forall a: nat :: LowerHalf(a) ==> Translate(m', f, a) == None
    requires forall a: nat :: !LowerHalf(a) ==> Translate(m', f, a) == Translate(s.mem, k.root, a)
    ensures Views(m', k, v.(roots := v.roots + {f}))
  {
    var v' := v.(roots := v.roots + {f});
    forall r, a: nat | r in v'.roots && !Shared(k, r, a) ensures Translate(m', r, a) == Lookup(k, v', r, a) {
      if r in v.roots {
        assert Lookup(k, v', r, a) == Lookup(k, v, r, a);
      } else if !LowerHalf(a) {
        assert TopOk(s.mem, own, k, k.root, Index(a, 4));
      }
    }
  }

  lemma {:induction false} CloneTops(s: State, m': Mem, own: Own, own': Own, k: Start, v: Spaces, f: nat)
    requires Rel(s, own, k, v) && TableTrees.Cloned(s.mem, m', own, k.root, f) && f !in own
    requires own' == own[f := Table(f, 4, 0)]
    ensures Tops(m', own', k, v.(roots := v.roots + {f}))
  {
    forall r, i | Known(k, v.(roots := v.roots + {f}), r) && 0 <= i < ENTRIES ensures TopOk(m', own', k, r, i) {
      assert TopOk(s.mem, own, k, k.root, i);
      if r == f {
        assert Entry(m', f, i) == if i < HALF then 0 else Entry(s.mem, k.root, i);
      } else {
        assert TopOk(s.mem, own, k, r, i) && Entry(m', r, i) == Entry(s.mem, r, i);
      }
    }
  }

  lemma {:induction false} MapMoves(s: State, own: Own, root: nat, va: nat, frame: u64, flags: u64)
    requires Tree(s.mem, own) && Fresh(s.pending, own) && Root(own, root)
    ensures var (res, s') := MapPage(s, root, va, frame, flags);
      if res.Ok? then Moved(s.mem, s'.mem, own, root, va, Some(AddrOf(Pte(frame, flags))))
      else SameViews(s.mem, s'.mem, own)
  {
    forall r, a: nat | Root(own, r)
      ensures var (res, s') := MapPage(s, root, va, frame, flags);
        Translate(s'.mem, r, a)
        == if res.Ok? && Alias(s.mem, r, a, root, va, 4) then Some(AddrOf(Pte(frame, flags)) + a % PAGE)
           else Translate(s.mem, r, a)
    {
      MapExactly(s, own, root, va, frame, flags, r, a);
    }
  }

  lemma {:induction false} MapRefines(s: State, own: Own, k: Start, v: Spaces, root: nat, va: nat, frame: u64,
    flags: u64) returns (own': Own)
    requires Rel(s, own, k, v) && Reachable(k, v, root, va)
    ensures var op := Map(root, va, frame, flags); var (reply, s') := Exec(s, k.root, op);
      Allowed(k, v, op, reply) && Rel(s', own', k, Next(k, v, op, reply))
  {
    KnownRoots(s, own, k, v);
    assert Known(k, v, root);
    own' := MapPageKeeps(s, own, root, va, frame, flags);
    var (res, s') := MapPage(s, root, va, frame, flags);
    TranslatesAs(s, own, k, v, root, va);
    MapTops(s, own, root, va, frame, flags);
    TopsHold(s, s'.mem, own, own', k, v, root, va);
    MapAliases(s, own, root, va, frame, flags);
    AliasesHold(s, s'.mem, own, k, v);
    MapMoves(s, own, root, va, frame, flags);
    if res.Ok? {
      ViewsMove(s, s'.mem, own, k, v, root, va, Some(AddrOf(Pte(frame, flags))));
      MapShape(s, s', own, own', k, v, Move(k, v, root, va, Some(AddrOf(Pte(frame, flags)))), root, va);
    } else {
      ViewsSame(s, s'.mem, own, k, v);
      MapShape(s, s', own, own', k, v, v, root, va);
    }
  }

  lemma SuffixIn(s: seq<nat>, k: nat)
    requires k <= |s|
    ensures forall x :: x in s[k..] ==> x in s
  {
  }

  lemma {:induction false} MapShape(s: State, s': State, own: Own, own': Own, k: Start, v: Spaces, v': Spaces,
    root: nat, va: nat)
    requires Shape(s, own, k, v) && Reachable(k, v, root, va) && v'.roots == v.roots && v'.taken == v.taken
    requires forall key :: key in v'.pages ==> key in v.pages || (key.0 == root && !Shared(k, root, va))
    requires Tree(s'.mem, own') && Fresh(s'.pending, own') && Extends(own, own') && Drawn(own, own', s.pending)
    requires |s'.pending| <= |s.pending| && s'.pending == s.pending[|s.pending| - |s'.pending|..]
    ensures Shape(s', own', k, v')
  {
    SuffixIn(s.pending, |s.pending| - |s'.pending|);
  }

  lemma {:induction false} UnmapRefines(s: State, own: Own, k: Start, v: Spaces, root: nat, va: nat)
    requires Rel(s, own, k, v) && Reachable(k, v, root, va)
    ensures var op := Unmap(root, va); var (reply, s') := Exec(s, k.root, op);
      Allowed(k, v, op, reply) && Rel(s', own, k, Next(k, v, op, reply))
  {
    KnownRoots(s, own, k, v);
    assert Known(k, v, root);
    var m' := UnmapPage(s.mem, root, va);
    UnmapPageKeeps(s.mem, own, root, va);
    UnmapTopsHold(s, m', own, k, v, root, va);
    UnmapAliases(s.mem, own, root, va);
    AliasesHold(s, m', own, k, v);
    LargeExactly(s, own, k, v, root, va);
    if va % PAGE == 0 && !OnKernelLarge(k, root, va) {
      UnmapMoves(s.mem, own, root, va);
      ViewsMove(s, m', own, k, v, root, va, None);
    }
  }

  lemma {:induction false} UnmapTopsHold(s: State, m': Mem, own: Own, k: Start, v: Spaces, root: nat, va: nat)
    requires Rel(s, own, k, v) && Reachable(k, v, root, va) && m' == UnmapPage(s.mem, root, va)
    ensures Tops(m', own, k, v)
  {
    KnownRoots(s, own, k, v);
    assert Known(k, v, root) && Root(own, root);
    if va % PAGE == 0 {
      forall r, i | Known(k, v, r) && 0 <= i < ENTRIES ensures TopOk(m', own, k, r, i) {
        assert TopOk(s.mem, own, k, r, i);
        UnmapTop(s.mem, own, root, va, r, i);
      }
    }
  }

  lemma {:induction false} UnmapMoves(m: Mem, own: Own, root: nat, va: nat)
    requires Tree(m, own) && Root(own, root) && va % PAGE == 0 && !OnLargePage(m, root, 4, va)
    ensures Moved(m, UnmapPage(m, root, va), own, root, va, None)
  {
    var m' := UnmapPage(m, root, va);
    forall r, a: nat | Root(own, r)
      ensures Translate(m', r, a) == if Alias(m, r, a, root, va, 4) then None else Translate(m, r, a)
    {
      UnmapExactly(m, own, root, va, r, a);
    }
  }

  // ---------------------------------------------------------------- frames and data

  lemma {:induction false} TakeRefines(s: State, own: Own, k: Start, v: Spaces)
    requires Rel(s, own, k, v)
    ensures var (reply, s') := Exec(s, k.root, Take);
      Allowed(k, v, Take, reply) && Rel(s', own, k, Next(k, v, Take, reply))
  {
    if s.pending != [] {
      var f, rest := s.pending[0], s.pending[1..];
      SuffixIn(s.pending, 1);
      assert f !in rest && f !in own && FrameOk(f);
      assert Fresh(rest, own);
      TakeViews(s.mem, own, k, v, f);
    }
  }

  lemma TakeViews(m: Mem, own: Own, k: Start, v: Spaces, f: nat)
    requires Views(m, k, v) && Tops(m, own, k, v)
    ensures var v' := v.(taken := v.taken + {f}); Views(m, k, v') && Tops(m, own, k, v')
  {
    var v' := v.(taken := v.taken + {f});
    forall r, a: nat | r in v.roots && !Shared(k, r, a) ensures Lookup(k, v', r, a) == Lookup(k, v, r, a) {
    }
    forall r | Known(k, v', r) ensures Known(k, v, r) {
    }
  }

  /** Memory that differs only outside the tables. */
  lemma {:induction false} DataRefines(s: State, m: Mem, own: Own, k: Start, v: Spaces)
    requires Rel(s, own, k, v) && SameTables(s.mem, m, own)
    ensures Rel(s.(mem := m), own, k, v)
  {
    SameTree(s.mem, m, own);
    SameStill(s.mem, m, own);
    StillViews(s.mem, m, own);
    ViewsSame(s, m, own, k, v);
    DataAliases(s.mem, m, own);
    AliasesHold(s, m, own, k, v);
    KnownRoots(s, own, k, v);
    forall r, i | Known(k, v, r) && 0 <= i < ENTRIES ensures TopOk(m, own, k, r, i) {
      assert Root(own, r) && TopOk(s.mem, own, k, r, i) && Entry(m, r, i) == Entry(s.mem, r, i);
    }
  }

  lemma {:induction false} FillRefines(s: State, own: Own, k: Start, v: Spaces, frame: nat, at: nat, data: seq<byte>)
    requires Rel(s, own, k, v) && frame in v.taken && at + |data| <= PAGE
    ensures Rel(s.(mem := SetBytes(s.mem, frame + at, data)), own, k, v)
  {
    BytesSame(s.mem, frame, frame + at, data, own);
    DataRefines(s, SetBytes(s.mem, frame + at, data), own, k, v);
  }

  /** The plain maps say where each address of a range leads. */
  lemma {:induction false} RangeLookup(s: State, own: Own, k: Start, v: Spaces, root: nat, ptr: nat, n: nat,
    trs: seq<Option<nat>>, i: nat)
    requires Rel(s, own, k, v) && Known(k, v, root) && i < n && trs == UserCopy.Translations(s.mem, root, ptr, n)
    ensures trs[i] == Lookup(k, v, root, ptr + i)
  {
    UserCopy.TranslationsAt(s.mem, root, ptr, n, i);
    TranslatesAs(s, own, k, v, root, ptr + i);
  }

  /** A range that leads to frames taken for data reaches no table. */
  lemma {:induction false} RangeOffTables(s: State, own: Own, k: Start, v: Spaces, root: nat, ptr: nat, n: nat)
    requires Rel(s, own, k, v) && Known(k, v, root) && LeadsToData(k, v, root, ptr, n)
    ensures UserCopy.DataRange(UserCopy.Translations(s.mem, root, ptr, n), own)
    ensures UserCopy.RestOff(s.mem, own, root, ptr, 0, n)
  {
    var trs := UserCopy.Translations(s.mem, root, ptr, n);
    forall i | 0 <= i < n ensures UserCopy.OffTable(trs[i], own) {
      RangeLookup(s, own, k, v, root, ptr, n, trs, i);
      assert ToData(Lookup(k, v, root, ptr + i), v.taken);
    }
    forall a | ptr <= a < ptr + n ensures UserCopy.OffTable(Translate(s.mem, root, a), own) {
      TranslatesAs(s, own, k, v, root, a);
      assert ToData(Lookup(k, v, root, a), v.taken);
    }
  }

  /** Such a range is written page by page as it would be byte by byte. */
  lemma {:induction false} StoreBytewise(s: State, own: Own, k: Start, v: Spaces, root: nat, ptr: nat, src: seq<byte>)
    requires Rel(s, own, k, v) && Legal(k, v, Store(root, ptr, src)) && UserCopy.RangeOk(ptr, |src|)
    ensures UserCopy.CopyTo(s.mem, root, ptr, src) == UserCopy.WriteLoop(s.mem, root, ptr, src, 0, 1)
  {
    KnownRoots(s, own, k, v);
    RangeOffTables(s, own, k, v, root, ptr, |src|);
    UserCopy.DataOffWalks(s.mem, own, root, ptr, src, 0, PAGE);
    UserCopy.ChunksAreBytes(s.mem, root, ptr, src, 0, PAGE);
  }

  lemma {:induction false} StoreRefines(s: State, own: Own, k: Start, v: Spaces, root: nat, ptr: nat, src: seq<byte>)
    requires Rel(s, own, k, v) && Legal(k, v, Store(root, ptr, src))
    ensures var op := Store(root, ptr, src); var (reply, s') := Exec(s, k.root, op);
      Allowed(k, v, op, reply) && Rel(s', own, k, v)
  {
    if UserCopy.RangeOk(ptr, |src|) {
      KnownRoots(s, own, k, v);
      RangeOffTables(s, own, k, v, root, ptr, |src|);
      var trs := UserCopy.Translations(s.mem, root, ptr, |src|);
      var (res, m) := UserCopy.CopyTo(s.mem, root, ptr, src);
      UserCopy.DataClear(s.mem, own, root, ptr, trs);
      var ps := UserCopy.WriteLoopMeans(s.mem, s.mem, root, ptr, trs, src, [], PAGE);
      UserCopy.WrittenSame(trs, s.mem, m, own, src, ps);
      DataRefines(s, m, own, k, v);
      StoreReply(s, own, k, v, root, ptr, trs, m, src, ps, res);
    }
  }

  /** The write ends well exactly when the whole range is mapped. */
  lemma {:induction false} StoreReply(s: State, own: Own, k: Start, v: Spaces, root: nat, ptr: nat,
    trs: seq<Option<nat>>, m: Mem, src: seq<byte>, ps: seq<nat>, res: UserCopy.CopyResult)
    requires Rel(s, own, k, v) && Known(k, v, root) && trs == UserCopy.Translations(s.mem, root, ptr, |src|)
    requires UserCopy.WroteAll(trs, s.mem, m, src, ps, res)
    ensures res == if AllMapped(k, v, root, ptr, |src|) then UserCopy.Done else UserCopy.UserMemoryNotPresent
  {
    forall i | 0 <= i < |src| ensures trs[i] == Lookup(k, v, root, ptr + i) {
      RangeLookup(s, own, k, v, root, ptr, |src|, trs, i);
    }
    ReplyExactly(k, v, root, ptr, trs, s.mem, m, src, ps, res);
  }

  lemma {:induction false} ReplyExactly(k: Start, v: Spaces, root: nat, ptr: nat, trs: seq<Option<nat>>, m0: Mem,
    m: Mem, src: seq<byte>, ps: seq<nat>, res: UserCopy.CopyResult)
    requires UserCopy.WroteAll(trs, m0, m, src, ps, res)
    requires forall i :: 0 <= i < |src| ==> trs[i] == Lookup(k, v, root, ptr + i)
    ensures res == if AllMapped(k, v, root, ptr, |src|) then UserCopy.Done else UserCopy.UserMemoryNotPresent
  {
    if |ps| == |src| {
      forall a | ptr <= a < ptr + |src| ensures Lookup(k, v, root, a).Some? {
        assert trs[a - ptr] == Some(ps[a - ptr]) && trs[a - ptr] == Lookup(k, v, root, ptr + (a - ptr));
      }
    } else {
      assert trs[|ps|] == Lookup(k, v, root, ptr + |ps|);
    }
  }

  /** The physical address that the plain maps give, where they give one. */
  function At(k: Start, v: Spaces, root: nat, a: nat): nat {
    var at := Lookup(k, v, root, a);
    if at.Some? then at.value else 0
  }

  /** Addresses of the range that lead to one place are given one byte. */
  ghost predicate OneByteEach(k: Start, v: Spaces, root: nat, ptr: nat, src: seq<byte>) {
    forall i, j :: 0 <= i < j < |src| && At(k, v, root, ptr + i) == At(k, v, root, ptr + j) ==> src[i] == src[j]
  }

  /** A store that ends well reads back as its source, exactly when no two addresses of it that lead to one
      place were given different bytes. */
  lemma {:induction false} StoreThenRead(s: State, own: Own, k: Start, v: Spaces, root: nat, ptr: nat, src: seq<byte>)
    requires Rel(s, own, k, v) && Legal(k, v, Store(root, ptr, src))
    requires Exec(s, k.root, Store(root, ptr, src)).0 == Stored(UserCopy.Done)
    ensures var m := Exec(s, k.root, Store(root, ptr, src)).1.mem;
      UserCopy.CopyFrom(m, root, ptr, |src|) == (UserCopy.Done, src) <==> OneByteEach(k, v, root, ptr, src)
  {
    var trs := UserCopy.Translations(s.mem, root, ptr, |src|);
    var m := Exec(s, k.root, Store(root, ptr, src)).1.mem;
    KnownRoots(s, own, k, v);
    RangeOffTables(s, own, k, v, root, ptr, |src|);
    UserCopy.DataClear(s.mem, own, root, ptr, trs);
    var ps := UserCopy.WriteLoopMeans(s.mem, s.mem, root, ptr, trs, src, [], PAGE);
    forall i | 0 <= i < |src| ensures At(k, v, root, ptr + i) == ps[i] {
      RangeLookup(s, own, k, v, root, ptr, |src|, trs, i);
      assert trs[i] == Some(ps[i]);
    }
    UserCopy.WriteThenRead(s.mem, m, root, ptr, ps, src);
  }

  // ---------------------------------------------------------------- runs

  /** The concrete and the plain machine side by side, over a list of operations. */
  function Run(s: State, k: Start, v: Spaces, ops: seq<Op>): (State, Spaces)
    decreases |ops|
  {
    if ops == [] then (s, v)
    else
      var (reply, s') := Exec(s, k.root, ops[0]);
      Run(s', k, Next(k, v, ops[0], reply), ops[1..])
  }

  /** Each operation of the run is legal when it is reached. */
  predicate LegalRun(s: State, k: Start, v: Spaces, ops: seq<Op>)
    decreases |ops|
  {
    ops == [] ||
    (Legal(k, v, ops[0]) &&
     var (reply, s') := Exec(s, k.root, ops[0]);
     LegalRun(s', k, Next(k, v, ops[0], reply), ops[1..]))
  }

  /** Each answer of the run is one the plain map allows. */
  predicate AllowedRun(s: State, k: Start, v: Spaces, ops: seq<Op>)
    decreases |ops|
  {
    ops == [] ||
    (var (reply, s') := Exec(s, k.root, ops[0]);
     Allowed(k, v, ops[0], reply) && AllowedRun(s', k, Next(k, v, ops[0], reply), ops[1..]))
  }

  lemma {:induction false} StepRefines(s: State, own: Own, k: Start, v: Spaces, op: Op) returns (own': Own)
    requires Rel(s, own, k, v) && Legal(k, v, op)
    ensures var (reply, s') := Exec(s, k.root, op);
      Allowed(k, v, op, reply) && Rel(s', own', k, Next(k, v, op, reply))
  {
    match op
    case Clone => own' := CloneRefines(s, own, k, v);
    case Map(root, va, frame, flags) => own' := MapRefines(s, own, k, v, root, va, frame, flags);
    case Unmap(root, va) =>
      UnmapRefines(s, own, k, v, root, va);
      own' := own;
    case Take =>
      TakeRefines(s, own, k, v);
      own' := own;
    case Fill(frame, at, data) =>
      FillRefines(s, own, k, v, frame, at, data);
      own' := own;
    case Store(root, ptr, src) =>
      StoreRefines(s, own, k, v, root, ptr, src);
      own' := own;
  }

  /** Refinement over whole runs, on any pages: every answer is allowed, and after any run the plain maps say
      what every address of every space translates to. */
  lemma {:induction false} RunRefines(s: State, own: Own, k: Start, v: Spaces, ops: seq<Op>) returns (own': Own)
    requires Rel(s, own, k, v) && LegalRun(s, k, v, ops)
    ensures AllowedRun(s, k, v, ops)
    ensures var (s', v') := Run(s, k, v, ops); Rel(s', own', k, v')
    decreases |ops|
  {
    own' := own;
    if ops == [] {
    } else {
      var (reply, s') := Exec(s, k.root, ops[0]);
      var own1 := StepRefines(s, own, k, v, ops[0]);
      own' := RunRefines(s', own1, k, Next(k, v, ops[0], reply), ops[1..]);
    }
  }

  /** No operation of the run maps or unmaps a page that is shared with the kernel. */
  predicate PrivateOps(k: Start, ops: seq<Op>) {
    forall i :: 0 <= i < |ops| && (ops[i].Map? || ops[i].Unmap?) ==> !Shared(k, ops[i].root, ops[i].va)
  }

  lemma {:induction false} EditsKept(s: State, k: Start, v: Spaces, ops: seq<Op>)
    requires PrivateOps(k, ops)
    ensures Run(s, k, v, ops).1.edits == v.edits
    decreases |ops|
  {
    if ops == [] {
    } else {
      var (reply, s') := Exec(s, k.root, ops[0]);
      assert Next(k, v, ops[0], reply).edits == v.edits;
      EditsKept(s', k, Next(k, v, ops[0], reply), ops[1..]);
    }
  }

  /** The same, read off one address at a time; and a run that keeps to private pages moves nothing that is
      shared, nor anything of the kernel's. */
  lemma {:induction false} RunTranslates(s: State, own: Own, k: Start, v: Spaces, ops: seq<Op>, r: nat, a: nat)
    requires Rel(s, own, k, v) && LegalRun(s, k, v, ops)
    ensures AllowedRun(s, k, v, ops)
    ensures var (s', v') := Run(s, k, v, ops);
      && (Known(k, v', r) ==> Translate(s'.mem, r, a) == Lookup(k, v', r, a))
      && (PrivateOps(k, ops) ==> Translate(s'.mem, k.root, a) == Translate(s.mem, k.root, a))
  {
    var own' := RunRefines(s, own, k, v, ops);
    var (s', v') := Run(s, k, v, ops);
    if Known(k, v', r) {
      TranslatesAs(s', own', k, v', r, a);
    }
    if PrivateOps(k, ops) {
      EditsKept(s, k, v, ops);
      TranslatesAs(s, own, k, v, k.root, a);
      TranslatesAs(s', own', k, v', k.root, a);
    }
  }

  /** Every private page that is mapped leads to a frame taken for data. */
  predicate Tidy(v: Spaces) {
    forall key :: key in v.pages ==> v.pages[key] in v.taken
  }

  /** Operations a caller can check: only taken frames are mapped, with flags that have no address bits,
      and only accepted ranges in the private half are written. */
  predicate Careful(k: Start, v: Spaces, op: Op) {
    match op
    case Map(root, va, frame, flags) => Reachable(k, v, root, va) && frame in v.taken && AddrOf(flags) == 0
    case Store(root, ptr, src) =>
      root in v.roots && (UserCopy.RangeOk(ptr, |src|) ==> UserCopy.PrivateRange(ptr, |src|))
    case _ => Legal(k, v, op)
  }

  predicate CarefulRun(s: State, k: Start, v: Spaces, ops: seq<Op>)
    decreases |ops|
  {
    ops == [] ||
    (Careful(k, v, ops[0]) &&
     var (reply, s') := Exec(s, k.root, ops[0]);
     CarefulRun(s', k, Next(k, v, ops[0], reply), ops[1..]))
  }

  /** Then a private range leads to data. */
  lemma {:induction false} TidyRange(s: State, own: Own, k: Start, v: Spaces, root: nat, ptr: nat, n: nat)
    requires Rel(s, own, k, v) && Tidy(v) && root in v.roots && UserCopy.PrivateRange(ptr, n)
    ensures LeadsToData(k, v, root, ptr, n)
  {
    assert root != k.root;
    forall a | ptr <= a < ptr + n ensures ToData(Lookup(k, v, root, a), v.taken) {
      UserCopy.PrivateRangeExactly(ptr, n);
      assert LowerHalf(a);
      var key := (root, Page(a));
      if key in v.pages {
        assert v.pages[key] in v.taken;
        FrameOf(v.pages[key], a);
      }
    }
  }

  lemma FrameOf(f: nat, a: nat)
    requires f % PAGE == 0
    ensures var p := f + a % PAGE; p - p % PAGE == f
  {
  }

  lemma {:induction false} TidyStep(s: State, own: Own, k: Start, v: Spaces, op: Op)
    requires Rel(s, own, k, v) && Tidy(v) && Careful(k, v, op)
    ensures Legal(k, v, op) && Tidy(Next(k, v, op, Exec(s, k.root, op).0))
  {
    if op.Map? {
      PlainTarget(op.frame, op.flags);
    } else if op.Store? && UserCopy.RangeOk(op.ptr, |op.src|) {
      TidyRange(s, own, k, v, op.root, op.ptr, |op.src|);
    }
  }

  /** A careful run is a legal one, and never maps a table: every private page it has mapped leads to a frame
      taken for data. */
  lemma {:induction false} CarefulLegal(s: State, own: Own, k: Start, v: Spaces, ops: seq<Op>)
    requires Rel(s, own, k, v) && Tidy(v) && CarefulRun(s, k, v, ops)
    ensures LegalRun(s, k, v, ops) && Tidy(Run(s, k, v, ops).1)
    decreases |ops|
  {
    if ops == [] {
    } else {
      var (reply, s') := Exec(s, k.root, ops[0]);
      TidyStep(s, own, k, v, ops[0]);
      var own1 := StepRefines(s, own, k, v, ops[0]);
      CarefulLegal(s', own1, k, Next(k, v, ops[0], reply), ops[1..]);
    }
  }

  /** At boot: the kernel's tables, no private space. */
  lemma {:induction false} BootRel(s: State, own: Own, kernel: nat)
    requires Tree(s.mem, own) && Fresh(s.pending, own) && kernel in own && own[kernel] == Kernel(4)
    ensures Rel(s, own, Start(s.mem, kernel), Spaces({}, map[], {}, []))
  {
  }

  // ---------------------------------------------------------------- isolation

  /** Isolation: mapping a page in one space changes no translation in any other space, in the
      kernel's, in the shared upper half, or of any other page; a failed call changes none. */
  lemma {:induction false} MapIsolated(s: State, own: Own, root: nat, va: nat, frame: u64, flags: u64, other: nat,
    a: nat)
    requires Tree(s.mem, own) && Fresh(s.pending, own) && root in own && own[root] == Table(root, 4, 0) && LowerHalf(va)
    requires Root(own, other)
    ensures var (res, s') := MapPage(s, root, va, frame, flags);
      Translate(s'.mem, other, a) ==
      if res.Ok? && other == root && Page(a) == Page(va) then Some(AddrOf(Pte(frame, flags)) + a % PAGE)
      else Translate(s.mem, other, a)
  {
    var own' := MapPageKeeps(s, own, root, va, frame, flags);
    RootOnPath(own, other, a);
  }

  /** Under a top-level entry that two spaces share, mapping a page in one maps it in the other. */
  lemma {:induction false} SharedMoves(s: State, own: Own, root: nat, other: nat, va: nat, frame: u64, flags: u64)
    requires Tree(s.mem, own) && Fresh(s.pending, own) && Root(own, root) && Root(own, other)
    requires var e := Word(s.mem, Slot(root, va, 4)); Present(e) && Word(s.mem, Slot(other, va, 4)) == e
    requires MapPage(s, root, va, frame, flags).0.Ok?
    ensures Translate(s.mem, other, va) == None
    ensures PageAt(MapPage(s, root, va, frame, flags).1.mem, other, 4, va, AddrOf(Pte(frame, flags)))
  {
    var c, pte, user := AddrOf(Word(s.mem, Slot(root, va, 4))), Pte(frame, flags), User(flags);
    var s' := MapPage(s, root, va, frame, flags).1;
    PteTarget(frame, flags);
    RootOnPath(own, root, va);
    MapFromOld(s, root, 4, va, pte, user, c);
    OldChild(s.mem, own, root, root, 4, va, false, c);
    var own' := MapFromKeeps(s, own, c, root, 3, va, false, pte, user);
    LeadsWalk(s.mem, other, va, 4, c);
    LeadsKept(s.mem, s'.mem, own, other, va, 4, c);
    LiftPage(s'.mem, other, 4, va, c, AddrOf(pte));
  }

  /** Isolation, exactly: at any point of any run, a page newly mapped in one private space moves nothing in
      another, or in the kernel's, if and only if it is in the lower half, or under a top-level entry that the
      kernel does not have. */
  lemma {:induction false} IsolatedExactly(s: State, own: Own, k: Start, v: Spaces, root: nat, va: nat, frame: u64,
    flags: u64, other: nat)
    requires Rel(s, own, k, v) && root in v.roots && Known(k, v, other) && other != root
    requires MapPage(s, root, va, frame, flags).0.Ok?
    ensures (forall a: nat :: Translate(MapPage(s, root, va, frame, flags).1.mem, other, a)
                             == Translate(s.mem, other, a))
      <==> LowerHalf(va) || !Present(Entry(s.mem, k.root, Index(va, 4)))
  {
    var m' := MapPage(s, root, va, frame, flags).1.mem;
    KnownRoots(s, own, k, v);
    assert Known(k, v, root) && Root(own, other) && root != k.root;
    LowerIndex(va);
    assert TopOk(s.mem, own, k, k.root, Index(va, 4));
    if Shared(k, root, va) {
      SharedMapMoves(s, own, k, v, root, va, frame, flags, other);
    } else {
      forall a: nat ensures Translate(m', other, a) == Translate(s.mem, other, a) {
        PrivateMapStays(s, own, k, v, root, va, frame, flags, other, a);
      }
    }
  }

  lemma {:induction false} SharedMapMoves(s: State, own: Own, k: Start, v: Spaces, root: nat, va: nat, frame: u64,
    flags: u64, other: nat)
    requires Rel(s, own, k, v) && root in v.roots && root != k.root && Known(k, v, other) && Shared(k, root, va)
    requires MapPage(s, root, va, frame, flags).0.Ok?
    ensures Translate(MapPage(s, root, va, frame, flags).1.mem, other, va) != Translate(s.mem, other, va)
  {
    KnownRoots(s, own, k, v);
    assert Known(k, v, root);
    SharedEntry(s, own, k, v, root, va);
    SharedEntry(s, own, k, v, other, va);
    SharedMoves(s, own, root, other, va, frame, flags);
  }

  lemma {:induction false} PrivateMapStays(s: State, own: Own, k: Start, v: Spaces, root: nat, va: nat, frame: u64,
    flags: u64, other: nat, a: nat)
    requires Rel(s, own, k, v) && root in v.roots && Root(own, other) && other != root && !Shared(k, root, va)
    ensures Translate(MapPage(s, root, va, frame, flags).1.mem, other, a) == Translate(s.mem, other, a)
  {
    KnownRoots(s, own, k, v);
    assert Known(k, v, root);
    MapExactly(s, own, root, va, frame, flags, other, a);
    PrivateAlias(s, own, k, v, root, va, other, a);
    if Alias(s.mem, other, a, root, va, 4) {
      AliasSymmetric(s.mem, other, a, root, va, 4);
    }
  }
}
