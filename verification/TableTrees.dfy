/** The shape of the page tables. `own` says what each table frame is for: a kernel table of some
    level, or the table of one address space that serves one prefix of its addresses. That no frame
    has two roles is what keeps address spaces apart. */
module TableTrees {
  import opened Alignment
  import opened Options
  import opened PageTables

  datatype Role = Kernel(level: nat) | Table(root: nat, level: nat, prefix: nat)
  type Own = map<nat, Role>

  function Entry(m: Mem, t: nat, i: nat): u64 { Word(m, t + 8 * i) }

  /** The role of a table that is added under entry i of a table with role r. */
  function ChildRole(r: Role, i: nat): Role
    requires r.level >= 1
  {
    match r
    case Kernel(l) => Kernel(l - 1)
    case Table(root, l, p) => Table(root, l - 1, p * ENTRIES + i)
  }

  /** A table with role c may stand under entry i of a table with role r; the upper half of a private root may
      also lead to the kernel's tables. */
  predicate ChildOk(c: Role, r: Role, i: nat)
    requires r.level >= 1
  {
    c == ChildRole(r, i) || (r.Table? && r.level == 4 && i >= HALF && c == Kernel(3))
  }

  /** A present entry leads to a table with the right role; only kernel tables hold huge pages. */
  predicate EntryOk(m: Mem, own: Own, t: nat, i: nat)
    requires t in own && 1 <= own[t].level <= 4
  {
    var e, r := Entry(m, t, i), own[t];
    && (r.level >= 2 && Present(e) && !Leaf(e, r.level) ==> AddrOf(e) in own && ChildOk(own[AddrOf(e)], r, i))
    && (r.level >= 2 && Present(e) && r.Table? ==> !Leaf(e, r.level))
  }

  ghost predicate Roles(own: Own) {
    forall t :: t in own ==> t % PAGE == 0 && 1 <= own[t].level <= 4
  }

  /** Every link of every table leads to a table with the role the link gives it. */
  ghost predicate Tree(m: Mem, own: Own) {
    Roles(own) && forall t, i :: t in own && 0 <= i < ENTRIES ==> EntryOk(m, own, t, i)
  }

  /** Frames still to be handed out are whole, distinct and not in use as tables. */
  ghost predicate Fresh(pending: seq<nat>, own: Own) {
    && PendingOk(pending)
    && (forall i :: 0 <= i < |pending| ==> pending[i] !in own)
    && (forall i, j :: 0 <= i < j < |pending| ==> pending[i] != pending[j])
  }

  /** Table t is one that a walk for address a from root r can visit at this level. */
  predicate OnPath(own: Own, t: nat, r: nat, level: nat, a: nat) {
    1 <= level <= 4 && t in own && (own[t] == Kernel(level) || own[t] == Table(r, level, Prefix(a, level)))
  }

  /** r is the root of an address space: a private one or the kernel's. */
  predicate Root(own: Own, r: nat) {
    r in own && (own[r] == Table(r, 4, 0) || own[r] == Kernel(4))
  }

  lemma RootOnPath(own: Own, r: nat, a: nat)
    requires Root(own, r)
    ensures OnPath(own, r, r, 4, a)
  {
    PrefixStep(a, 4);
  }

  /** A walk that descends from t stays on its path. */
  lemma {:induction false} Descend(m: Mem, own: Own, t: nat, r: nat, level: nat, a: nat)
    requires Tree(m, own) && OnPath(own, t, r, level, a)
    requires var e := Word(m, Slot(t, a, level)); Present(e) && !Leaf(e, level)
    ensures level >= 2 && OnPath(own, AddrOf(Word(m, Slot(t, a, level))), r, level - 1, a)
  {
    assert EntryOk(m, own, t, Index(a, level));
    PrefixStep(a, level);
  }

  /** The memories agree on every table. */
  ghost predicate SameTables(m: Mem, m': Mem, own: Own) {
    forall t, i :: t in own && 0 <= i < ENTRIES ==> Entry(m', t, i) == Entry(m, t, i)
  }

  /** The memories agree on every table, except perhaps on entry i0 of t0. */
  ghost predicate Agree(m: Mem, m': Mem, own: Own, t0: nat, i0: nat) {
    forall t, i :: t in own && 0 <= i < ENTRIES && !(t == t0 && i == i0) ==> Entry(m', t, i) == Entry(m, t, i)
  }

  /** The walk for (r, a) would use entry i0 of t0. */
  predicate Uses(own: Own, t0: nat, i0: nat, r: nat, a: nat)
    requires t0 in own && 1 <= own[t0].level <= 4
  {
    own[t0] == Table(r, own[t0].level, Prefix(a, own[t0].level)) && Index(a, own[t0].level) == i0
  }

  /** A walk is decided by its first entry and by the rest of the walk. */
  lemma WalkStep(m: Mem, m': Mem, t: nat, a: nat, level: nat)
    requires 1 <= level <= 4 && Word(m', Slot(t, a, level)) == Word(m, Slot(t, a, level))
    requires var e := Word(m, Slot(t, a, level));
      Present(e) && !Leaf(e, level) ==> Walk(m', AddrOf(e), a, level - 1) == Walk(m, AddrOf(e), a, level - 1)
    ensures Walk(m', t, a, level) == Walk(m, t, a, level)
  {
  }

  /** Locality: a change to one entry of a private table matters only to walks that use it, and to
      those only as much as to the part of the walk below it. */
  lemma {:induction false} WalkLocal(m: Mem, m': Mem, own: Own, t: nat, r: nat, level: nat, a: nat, t0: nat, i0: nat)
    requires Tree(m, own) && OnPath(own, t, r, level, a)
    requires t0 in own && own[t0].Table? && Agree(m, m', own, t0, i0)
    requires Uses(own, t0, i0, r, a) ==> Walk(m', t0, a, own[t0].level) == Walk(m, t0, a, own[t0].level)
    ensures Walk(m', t, a, level) == Walk(m, t, a, level)
    decreases level
  {
    var i := Index(a, level);
    if t == t0 && i == i0 {
      assert Uses(own, t0, i0, r, a);
    } else {
      assert Entry(m', t, i) == Entry(m, t, i);
      var e := Word(m, Slot(t, a, level));
      if Present(e) && !Leaf(e, level) {
        Descend(m, own, t, r, level, a);
        WalkLocal(m, m', own, AddrOf(e), r, level - 1, a, t0, i0);
      }
    }
  }

  // ---------------------------------------------------------------- single writes

  lemma SlotApart(t: nat, i: nat, t0: nat, i0: nat)
    requires t % PAGE == 0 && t0 % PAGE == 0 && i < ENTRIES && i0 < ENTRIES && t + 8 * i == t0 + 8 * i0
    ensures t == t0 && i == i0
  {
  }

  lemma {:induction false} WriteAgrees(m: Mem, own: Own, t0: nat, i0: nat, v: u64)
    requires Roles(own) && t0 in own && i0 < ENTRIES
    ensures Agree(m, m[t0 + 8 * i0 := v], own, t0, i0) && Entry(m[t0 + 8 * i0 := v], t0, i0) == v
  {
    var m' := m[t0 + 8 * i0 := v];
    forall t, i | t in own && 0 <= i < ENTRIES && !(t == t0 && i == i0) ensures Entry(m', t, i) == Entry(m, t, i) {
      if t + 8 * i == t0 + 8 * i0 {
        SlotApart(t, i, t0, i0);
      }
    }
  }

  /** Zeroing a frame outside the tables and linking it in. */
  lemma {:induction false} LinkAgrees(m: Mem, own: Own, t0: nat, i0: nat, f: nat, v: u64)
    requires Roles(own) && t0 in own && i0 < ENTRIES && f % PAGE == 0 && f !in own
    ensures var m' := ZeroPage(m, f)[t0 + 8 * i0 := v];
      && Agree(m, m', own, t0, i0) && Entry(m', t0, i0) == v
      && forall i :: 0 <= i < ENTRIES ==> Entry(m', f, i) == 0
  {
    var z := ZeroPage(m, f);
    var m' := z[t0 + 8 * i0 := v];
    forall t, i | t in own && 0 <= i < ENTRIES && !(t == t0 && i == i0) ensures Entry(m', t, i) == Entry(m, t, i) {
      ZeroWordsAt(m, f, ENTRIES, t + 8 * i);
      OtherPage(t, i, f);
      if t + 8 * i == t0 + 8 * i0 {
        SlotApart(t, i, t0, i0);
      }
    }
    forall i | 0 <= i < ENTRIES ensures Entry(m', f, i) == 0 {
      ZeroWordsAt(m, f, ENTRIES, f + 8 * i);
      OtherPage(t0, i0, f);
    }
  }

  lemma OtherPage(t: nat, i: nat, f: nat)
    requires t % PAGE == 0 && f % PAGE == 0 && t != f && i < ENTRIES
    ensures !InWords(t + 8 * i, f, ENTRIES)
  {
  }

  // ---------------------------------------------------------------- one level of map_page

  /** What a step of map_page may change: every walk gives what it gave, except those for one page
      of one address space. */
  ghost predicate Unmoved(m: Mem, m': Mem, own: Own, r0: nat, va: nat) {
    forall t, r, level, a ::
      OnPath(own, t, r, level, a) && !(r == r0 && Page(a) == Page(va)) ==> Walk(m', t, a, level) == Walk(m, t, a, level)
  }

  /** No walk is changed at all. */
  ghost predicate Still(m: Mem, m': Mem, own: Own) {
    forall t, r, level, a :: OnPath(own, t, r, level, a) ==> Walk(m', t, a, level) == Walk(m, t, a, level)
  }

  /** The entry for va in t links to table f. */
  predicate Leads(m: Mem, t: nat, va: nat, level: nat, f: nat)
    requires 1 <= level <= 4
  {
    var e := Word(m, Slot(t, va, level));
    Present(e) && !Leaf(e, level) && AddrOf(e) == f
  }

  /** The table to be linked under the entry for va has the role that the entry gives it. */
  lemma ChildOnPath(own: Own, own1: Own, t: nat, r: nat, level: nat, va: nat, f: nat)
    requires 2 <= level <= 4 && OnPath(own, t, r, level, va) && own1 == own[f := ChildRole(own[t], Index(va, level))]
    ensures OnPath(own1, f, r, level - 1, va)
    ensures own[t].Table? ==> own1[f].Table?
  {
    PrefixStep(va, level);
  }

  /** Adding an empty table under an empty entry changes no translation and keeps the tree. */
  lemma {:induction false} LinkTable(s: State, own: Own, t: nat, r: nat, level: nat, va: nat, user: bool)
    requires Tree(s.mem, own) && Fresh(s.pending, own) && s.pending != []
    requires 2 <= level <= 4 && OnPath(own, t, r, level, va) && !Present(Word(s.mem, Slot(t, va, level)))
    ensures var s1, f := EnsureTable(s, Slot(t, va, level), user).1, s.pending[0];
      var own1 := own[f := ChildRole(own[t], Index(va, level))];
      && Tree(s1.mem, own1) && Fresh(s1.pending, own1) && LinkEffect(s.mem, s1.mem, own, own1, t, va, level)
      && Leads(s1.mem, t, va, level, f) && Walk(s1.mem, f, va, level - 1) == None
  {
    var f, i := s.pending[0], Index(va, level);
    var v := TableEntry(f, user);
    var m' := ZeroPage(s.mem, f)[t + 8 * i := v];
    var own1 := own[f := ChildRole(own[t], i)];
    TableEntryBits(f, user, level);
    LinkAgrees(s.mem, own, t, i, f, v);
    LinkTree(s.mem, m', own, own1, t, i, f);
    LinkStill(s.mem, m', own, t, i, f);
    LinkData(s.mem, own1, t, i, f, v);
    assert Entry(m', f, Index(va, level - 1)) == 0;
    FreshRest(s.pending, own, own1);
  }

  lemma FreshRest(pending: seq<nat>, own: Own, own1: Own)
    requires Fresh(pending, own) && pending != [] && forall t :: t in own1 ==> t in own || t == pending[0]
    ensures Fresh(pending[1..], own1)
  {
  }

  lemma {:induction false} LinkData(m: Mem, own1: Own, t: nat, i: nat, f: nat, v: u64)
    requires t in own1 && f in own1 && t % PAGE == 0 && f % PAGE == 0 && i < ENTRIES
    ensures DataKept(m, ZeroPage(m, f)[t + 8 * i := v], own1)
  {
    var m' := ZeroPage(m, f)[t + 8 * i := v];
    forall x: nat | x - x % PAGE !in own1 ensures Word(m', x) == Word(m, x) {
      ZeroWordsAt(m, f, ENTRIES, x);
      SlotPage(t, i);
      if InWords(x, f, ENTRIES) {
        SlotPage(f, (x - f) / 8);
      }
    }
  }

  /** Entry i of t leads from nowhere in m to the empty table f in m'. */
  ghost predicate NewLink(m: Mem, m': Mem, own: Own, t: nat, i: nat, f: nat) {
    && t in own && 2 <= own[t].level <= 4 && i < ENTRIES && Agree(m, m', own, t, i) && !Present(Entry(m, t, i))
    && Present(Entry(m', t, i)) && !Leaf(Entry(m', t, i), own[t].level) && AddrOf(Entry(m', t, i)) == f
    && forall j :: 0 <= j < ENTRIES ==> Entry(m', f, j) == 0
  }

  lemma {:induction false} WalkLinked(m: Mem, m': Mem, own: Own, t1: nat, r: nat, level: nat, a: nat, t: nat, i: nat,
    f: nat)
    requires Tree(m, own) && OnPath(own, t1, r, level, a) && NewLink(m, m', own, t, i, f)
    ensures Walk(m', t1, a, level) == Walk(m, t1, a, level)
    decreases level
  {
    var j := Index(a, level);
    if t1 == t && j == i {
      EmptyBelow(m', t, a, level, f);
    } else {
      assert Entry(m', t1, j) == Entry(m, t1, j);
      var e := Word(m, Slot(t1, a, level));
      if Present(e) && !Leaf(e, level) {
        Descend(m, own, t1, r, level, a);
        WalkLinked(m, m', own, AddrOf(e), r, level - 1, a, t, i, f);
      }
      WalkStep(m, m', t1, a, level);
    }
  }

  lemma {:induction false} LinkStill(m: Mem, m': Mem, own: Own, t: nat, i: nat, f: nat)
    requires Tree(m, own) && NewLink(m, m', own, t, i, f)
    ensures Still(m, m', own)
  {
    forall t1, r, level, a | OnPath(own, t1, r, level, a) ensures Walk(m', t1, a, level) == Walk(m, t1, a, level) {
      WalkLinked(m, m', own, t1, r, level, a, t, i, f);
    }
  }

  lemma TableEntryBits(f: u64, user: bool, level: nat)
    requires FrameOk(f) && 2 <= level <= 4
    ensures var e := TableEntry(f, user); Present(e) && !Leaf(e, level) && AddrOf(e) == f
  {
    var k, flags := f / PAGE, FLAG_PRESENT + FLAG_WRITABLE + if user then FLAG_USER else 0;
    ModUnique(f + flags, WORD, 0, f + flags);
    ModUnique(f + flags, PAGE, k, flags);
    ModUnique(f + flags, 128, 32 * k, flags);
    ModUnique(f + flags, 2, 2048 * k + flags / 2, 1);
  }

  lemma {:induction false} EmptyBelow(m: Mem, t: nat, a: nat, level: nat, f: nat)
    requires 2 <= level <= 4 && Leads(m, t, a, level, f)
    requires forall i :: 0 <= i < ENTRIES ==> Entry(m, f, i) == 0
    ensures Walk(m, t, a, level) == None
  {
    var i := Index(a, level - 1);
    assert Entry(m, f, i) == 0;
    assert Slot(f, a, level - 1) == f + 8 * i;
    assert Walk(m, f, a, level - 1) == None;
  }

  lemma {:induction false} LinkTree(m: Mem, m': Mem, own: Own, own': Own, t: nat, i: nat, f: nat)
    requires Tree(m, own) && t in own && own[t].level >= 2 && i < ENTRIES && f !in own && f % PAGE == 0
    requires own' == own[f := ChildRole(own[t], i)]
    requires Agree(m, m', own, t, i) && AddrOf(Entry(m', t, i)) == f && !Leaf(Entry(m', t, i), own[t].level)
    requires forall j :: 0 <= j < ENTRIES ==> Entry(m', f, j) == 0
    ensures Tree(m', own')
  {
    forall t1, j | t1 in own' && 0 <= j < ENTRIES ensures EntryOk(m', own', t1, j) {
      if t1 == f {
        assert Entry(m', f, j) == 0;
      } else if !(t1 == t && j == i) {
        assert Entry(m', t1, j) == Entry(m, t1, j);
        assert EntryOk(m, own, t1, j);
      }
    }
  }

  // ---------------------------------------------------------------- map_page

  predicate Extends(own: Own, own': Own) {
    forall t :: t in own ==> t in own' && own'[t] == own[t]
  }

  /** New tables were pending frames. */
  ghost predicate Drawn(own: Own, own': Own, pending: seq<nat>) {
    forall t :: t in own' ==> t in own || t in pending
  }

  /** Only words of table frames change. */
  ghost predicate DataKept(m: Mem, m': Mem, own': Own) {
    forall x: nat :: x - x % PAGE !in own' ==> Word(m', x) == Word(m, x)
  }

  /** Tables above the given level keep their entries. */
  ghost predicate UpperKept(m: Mem, m': Mem, own: Own, level: nat) {
    forall t, i :: t in own && own[t].level > level && 0 <= i < ENTRIES ==> Entry(m', t, i) == Entry(m, t, i)
  }

  /** Every address that translated still does, to the same place. */
  ghost predicate Grown(m: Mem, m': Mem, own: Own) {
    forall t, r, level, a ::
      OnPath(own, t, r, level, a) && Walk(m, t, a, level).Some? ==> Walk(m', t, a, level) == Walk(m, t, a, level)
  }

  /** Everything a call of map_page may do to the tables. `mine` says that the page is in the private half,
      and then no other page of any space moves. */
  ghost predicate MapEffect(s: State, s': State, own: Own, own': Own, r: nat, level: nat, va: nat, mine: bool) {
    && Tree(s'.mem, own') && Fresh(s'.pending, own') && Extends(own, own') && Drawn(own, own', s.pending)
    && Grown(s.mem, s'.mem, own) && (mine ==> Unmoved(s.mem, s'.mem, own, r, va))
    && DataKept(s.mem, s'.mem, own') && UpperKept(s.mem, s'.mem, own, level)
    && |s.pending| - level < |s'.pending| <= |s.pending|
    && s'.pending == s.pending[|s.pending| - |s'.pending|..]
  }

  /** All addresses of va's page reach frame, at their own offset. */
  ghost predicate PageAt(m: Mem, t: nat, level: nat, va: nat, frame: nat)
    requires 1 <= level <= 4
  {
    forall a: nat :: Page(a) == Page(va) ==> Walk(m, t, a, level) == Some(frame + a % PAGE)
  }

  /** What a page table entry makes of an address. */
  function EndAt(e: nat, a: nat): Option<nat> { if Present(e) then Some(AddrOf(e) + a % PAGE) else None }

  /** Writing an entry of a page table: a walk gives what it gave, or it ends at that entry. */
  lemma {:induction false} WalkWrite(m: Mem, m': Mem, own: Own, t1: nat, r: nat, level: nat, a: nat, t: nat, i: nat)
    requires Tree(m, own) && OnPath(own, t1, r, level, a) && t in own && own[t].level == 1 && Agree(m, m', own, t, i)
    ensures Walk(m', t1, a, level) == Walk(m, t1, a, level)
      || (Walk(m, t1, a, level) == EndAt(Entry(m, t, i), a) && Walk(m', t1, a, level) == EndAt(Entry(m', t, i), a))
    decreases level
  {
    var j := Index(a, level);
    if t1 == t && j == i {
      assert Slot(t1, a, 1) == t + 8 * i;
    } else {
      assert Entry(m', t1, j) == Entry(m, t1, j);
      var e := Word(m, Slot(t1, a, level));
      if Present(e) && !Leaf(e, level) {
        Descend(m, own, t1, r, level, a);
        WalkWrite(m, m', own, AddrOf(e), r, level - 1, a, t, i);
      }
    }
  }

  /** Filling an empty entry of a page table loses no translation; emptying one only loses some. */
  lemma {:induction false} WriteLeaf(m: Mem, own: Own, t: nat, r: nat, va: nat, v: u64)
    requires Tree(m, own) && OnPath(own, t, r, 1, va)
    ensures var m' := m[Slot(t, va, 1) := v];
      && Tree(m', own) && DataKept(m, m', own) && UpperKept(m, m', own, 1)
      && (own[t].Table? ==> Unmoved(m, m', own, r, va))
      && (!Present(Word(m, Slot(t, va, 1))) ==> Grown(m, m', own)) && (v == 0 ==> Shrunk(m, m', own))
  {
    var i := Index(va, 1);
    var m' := m[t + 8 * i := v];
    WriteAgrees(m, own, t, i, v);
    LeafTree(m, m', own, t, i);
    if own[t].Table? {
      LeafUnmoved(m, m', own, t, r, va);
    }
    LeafWalks(m, m', own, t, i);
    SlotPage(t, i);
  }

  /** No address translates to a new place. */
  ghost predicate Shrunk(m: Mem, m': Mem, own: Own) {
    forall t, r, level, a ::
      OnPath(own, t, r, level, a) ==> Walk(m', t, a, level) == Walk(m, t, a, level) || Walk(m', t, a, level) == None
  }

  lemma {:induction false} LeafWalks(m: Mem, m': Mem, own: Own, t: nat, i: nat)
    requires Tree(m, own) && t in own && own[t].level == 1 && Agree(m, m', own, t, i)
    ensures !Present(Entry(m, t, i)) ==> Grown(m, m', own)
    ensures Entry(m', t, i) == 0 ==> Shrunk(m, m', own)
  {
    forall t1, r, level, a | OnPath(own, t1, r, level, a)
      ensures Walk(m', t1, a, level) == Walk(m, t1, a, level)
        || (Walk(m, t1, a, level) == EndAt(Entry(m, t, i), a) && Walk(m', t1, a, level) == EndAt(Entry(m', t, i), a))
    {
      WalkWrite(m, m', own, t1, r, level, a, t, i);
    }
  }

  lemma {:induction false} LeafUnmoved(m: Mem, m': Mem, own: Own, t: nat, r: nat, va: nat)
    requires Tree(m, own) && t in own && own[t] == Table(r, 1, Prefix(va, 1)) && Agree(m, m', own, t, Index(va, 1))
    ensures Unmoved(m, m', own, r, va)
  {
    PrefixStep(va, 1);
    forall t1, r1, l1, a | OnPath(own, t1, r1, l1, a) && !(r1 == r && Page(a) == Page(va))
      ensures Walk(m', t1, a, l1) == Walk(m, t1, a, l1)
    {
      PrefixStep(a, 1);
      WalkLocal(m, m', own, t1, r1, l1, a, t, Index(va, 1));
    }
  }

  lemma {:induction false} LeafTree(m: Mem, m': Mem, own: Own, t: nat, i: nat)
    requires Tree(m, own) && t in own && own[t].level == 1 && Agree(m, m', own, t, i)
    ensures Tree(m', own)
  {
    forall t1, j | t1 in own && 0 <= j < ENTRIES ensures EntryOk(m', own, t1, j) {
      assert EntryOk(m, own, t1, j);
      assert t1 == t || Entry(m', t1, j) == Entry(m, t1, j);
    }
  }

  lemma SlotPage(t: nat, i: nat)
    requires t % PAGE == 0 && i < ENTRIES
    ensures var x := t + 8 * i; x - x % PAGE == t
  {
  }

  lemma {:induction false} LeafMaps(m: Mem, t: nat, va: nat, pte: u64)
    requires Present(pte)
    ensures PageAt(m[Slot(t, va, 1) := pte], t, 1, va, AddrOf(pte))
  {
    var m' := m[Slot(t, va, 1) := pte];
    forall a: nat | Page(a) == Page(va) ensures Walk(m', t, a, 1) == Some(AddrOf(pte) + a % PAGE) {
      SamePath(a, va, 1);
      assert Slot(t, a, 1) == Slot(t, va, 1);
    }
  }

  lemma LeadsWalk(m: Mem, t: nat, va: nat, level: nat, f: nat)
    requires 2 <= level <= 4 && Leads(m, t, va, level, f)
    ensures Walk(m, t, va, level) == Walk(m, f, va, level - 1)
  {
  }

  /** A page reached from the child is reached from the parent. */
  lemma {:induction false} LiftPage(m: Mem, t: nat, level: nat, va: nat, f: nat, frame: nat)
    requires 2 <= level <= 4 && Leads(m, t, va, level, f) && PageAt(m, f, level - 1, va, frame)
    ensures PageAt(m, t, level, va, frame)
  {
    forall a: nat | Page(a) == Page(va) ensures Walk(m, t, a, level) == Some(frame + a % PAGE) {
      SamePath(a, va, level);
      assert Slot(t, a, level) == Slot(t, va, level);
      assert Walk(m, f, a, level - 1) == Some(frame + a % PAGE);
    }
  }

  /** What one call of map_page does, from a level-L table down: the answer says whether the page
      translated before, and nothing that translated has moved. */
  ghost predicate MapOutcome(s: State, own: Own, t: nat, r: nat, level: nat, va: nat, mine: bool, pte: u64,
    res: Result<()>, s': State, own': Own)
    requires 1 <= level <= 4
  {
    && MapEffect(s, s', own, own', r, level, va, mine)
    && (res.Err? ==> Still(s.mem, s'.mem, own))
    && (res.Ok? ==> PageAt(s'.mem, t, level, va, AddrOf(pte)))
    && (res == Err(AlreadyMapped) <==> Walk(s.mem, t, va, level).Some?)
    && (res == Err(OutOfMemory) ==> |s.pending| < level - 1 && s'.pending == [])
  }

  /** If the entry for va has become a link, it leads to a private table. */
  predicate NewChildPrivate(m: Mem, m': Mem, own': Own, t: nat, level: nat, va: nat)
    requires 1 <= level <= 4
  {
    var slot := Slot(t, va, level);
    var c := AddrOf(Word(m', slot));
    level >= 2 && !Present(Word(m, slot)) && Present(Word(m', slot)) ==> c in own' && own'[c].Table?
  }

  lemma {:induction false} NoChange(s: State, own: Own, t: nat, r: nat, level: nat, va: nat, mine: bool, pte: u64,
    res: Result<()>)
    requires Tree(s.mem, own) && Fresh(s.pending, own) && 1 <= level <= 4 && res.Err?
    requires res == Err(AlreadyMapped) <==> Walk(s.mem, t, va, level).Some?
    requires res == Err(OutOfMemory) ==> level >= 2 && s.pending == []
    ensures MapOutcome(s, own, t, r, level, va, mine, pte, res, s, own)
  {
  }

  lemma {:induction false} LeafOutcome(s: State, own: Own, t: nat, r: nat, va: nat, mine: bool, pte: u64)
    requires Tree(s.mem, own) && Fresh(s.pending, own) && OnPath(own, t, r, 1, va) && Present(pte)
    requires !Present(Word(s.mem, Slot(t, va, 1))) && (mine ==> own[t].Table?)
    ensures MapOutcome(s, own, t, r, 1, va, mine, pte, Ok(()), s.(mem := s.mem[Slot(t, va, 1) := pte]), own)
  {
    WriteLeaf(s.mem, own, t, r, va, pte);
    LeafMaps(s.mem, t, va, pte);
    assert s.pending[0..] == s.pending;
  }

  /** From the child's outcome to the parent's, when the link was there already. */
  lemma {:induction false} ThroughOld(s: State, own: Own, t: nat, r: nat, level: nat, va: nat, mine: bool, pte: u64,
    c: nat, res: Result<()>, s': State, own': Own)
    requires 2 <= level <= 4 && t in own && own[t].level == level && Leads(s.mem, t, va, level, c)
    requires MapOutcome(s, own, c, r, level - 1, va, mine, pte, res, s', own')
    ensures MapOutcome(s, own, t, r, level, va, mine, pte, res, s', own')
  {
    LeadsWalk(s.mem, t, va, level, c);
    if res.Ok? {
      LeadsKept(s.mem, s'.mem, own, t, va, level, c);
      LiftPage(s'.mem, t, level, va, c, AddrOf(pte));
    }
    KeptAbove(s.mem, s'.mem, own, level - 1);
  }

  lemma LeadsKept(m: Mem, m': Mem, own: Own, t: nat, va: nat, level: nat, c: nat)
    requires 2 <= level <= 4 && t in own && own[t].level == level && Leads(m, t, va, level, c)
    requires UpperKept(m, m', own, level - 1)
    ensures Leads(m', t, va, level, c)
  {
    assert Entry(m', t, Index(va, level)) == Entry(m, t, Index(va, level));
  }

  lemma KeptAbove(m: Mem, m': Mem, own: Own, level: nat)
    requires UpperKept(m, m', own, level)
    ensures UpperKept(m, m', own, level + 1)
  {
  }

  /** From the child's outcome to the parent's, when the link is new. */
  lemma {:induction false} ThroughNew(s: State, s1: State, own: Own, t: nat, r: nat, level: nat, va: nat, mine: bool,
    pte: u64, f: nat, res: Result<()>, s': State, own1: Own, own': Own)
    requires 2 <= level <= 4 && t in own && own[t].level == level && f !in own && f in own1 && Extends(own, own1)
    requires Roles(own) && LinkEffect(s.mem, s1.mem, own, own1, t, va, level) && Leads(s1.mem, t, va, level, f)
    requires s.pending != [] && f == s.pending[0] && s1.pending == s.pending[1..] && Drawn(own, own1, [f])
    requires !Present(Word(s.mem, Slot(t, va, level))) && Walk(s1.mem, f, va, level - 1) == None
    requires MapOutcome(s1, own1, f, r, level - 1, va, mine, pte, res, s', own')
    ensures MapOutcome(s, own, t, r, level, va, mine, pte, res, s', own')
  {
    assert own1[t] == own[t];
    if res.Ok? {
      LeadsKept(s1.mem, s'.mem, own1, t, va, level, f);
      LiftPage(s'.mem, t, level, va, f, AddrOf(pte));
    }
    ChainWalks(s.mem, s1.mem, s'.mem, own, own1, r, va, mine, res.Err?);
    ChainKept(s.mem, s1.mem, s'.mem, own, own1, own', t, va, level);
    ChainDrawn(own, own1, own', s.pending);
    assert s.pending[1..][|s1.pending| - |s'.pending|..] == s.pending[|s.pending| - |s'.pending|..];
  }

  /** What linking a new table does to memory. */
  ghost predicate LinkEffect(m: Mem, m1: Mem, own: Own, own1: Own, t: nat, va: nat, level: nat)
    requires 1 <= level <= 4
  {
    && Still(m, m1, own) && DataKept(m, m1, own1)
    && forall t1, i :: t1 in own && 0 <= i < ENTRIES && t1 != t ==> Entry(m1, t1, i) == Entry(m, t1, i)
  }

  lemma {:induction false} ChainWalks(m: Mem, m1: Mem, m': Mem, own: Own, own1: Own, r: nat, va: nat, mine: bool,
    still: bool)
    requires Still(m, m1, own) && Extends(own, own1) && Grown(m1, m', own1)
    requires (mine ==> Unmoved(m1, m', own1, r, va)) && (still ==> Still(m1, m', own1))
    ensures Grown(m, m', own) && (mine ==> Unmoved(m, m', own, r, va)) && (still ==> Still(m, m', own))
  {
    forall t, r1, level, a | OnPath(own, t, r1, level, a) ensures OnPath(own1, t, r1, level, a) {
    }
  }

  lemma {:induction false} ChainKept(m: Mem, m1: Mem, m': Mem, own: Own, own1: Own, own': Own, t: nat, va: nat,
    level: nat)
    requires 2 <= level <= 4 && Extends(own, own1) && Extends(own1, own')
    requires LinkEffect(m, m1, own, own1, t, va, level) && t in own && own[t].level == level
    requires DataKept(m1, m', own') && UpperKept(m1, m', own1, level - 1)
    ensures DataKept(m, m', own') && UpperKept(m, m', own, level)
  {
    forall x: nat | x - x % PAGE !in own' ensures Word(m', x) == Word(m, x) {
      assert x - x % PAGE !in own1;
    }
  }

  lemma ChainDrawn(own: Own, own1: Own, own': Own, pending: seq<nat>)
    requires pending != [] && Drawn(own, own1, [pending[0]]) && Drawn(own1, own', pending[1..])
    ensures Drawn(own, own', pending)
  {
  }

  /** In the private half, what a private table links to is private. */
  lemma {:induction false} PrivateChild(m: Mem, own: Own, t: nat, r: nat, level: nat, va: nat)
    requires Tree(m, own) && 2 <= level <= 4 && LowerHalf(va) && t in own
      && own[t] == Table(r, level, Prefix(va, level))
    requires var e := Word(m, Slot(t, va, level)); Present(e) && !Leaf(e, level)
    ensures var c := AddrOf(Word(m, Slot(t, va, level)));
      c in own && own[c] == Table(r, level - 1, Prefix(va, level - 1))
  {
    assert EntryOk(m, own, t, Index(va, level));
    PrefixStep(va, level);
  }

  /** map_page, from any level down and on any page; `mine` may be claimed of private tables on lower-half
      pages. */
  lemma {:induction false} MapFromKeeps(s: State, own: Own, t: nat, r: nat, level: nat, va: nat, mine: bool, pte: u64,
    user: bool)
    returns (own': Own)
    requires Tree(s.mem, own) && Fresh(s.pending, own) && OnPath(own, t, r, level, va) && Present(pte)
    requires mine ==> own[t].Table? && LowerHalf(va)
    ensures var (res, s') := MapFrom(s, t, va, level, pte, user);
      MapOutcome(s, own, t, r, level, va, mine, pte, res, s', own')
    ensures own[t].Table? ==> NewChildPrivate(s.mem, MapFrom(s, t, va, level, pte, user).1.mem, own', t, level, va)
    decreases level, 1
  {
    var e := Word(s.mem, Slot(t, va, level));
    if level >= 2 && Present(e) && !Leaf(e, level) {
      own' := MapOldKeeps(s, own, t, r, level, va, mine, pte, user);
    } else if level >= 2 && !Present(e) && s.pending != [] {
      own' := MapNewKeeps(s, own, t, r, level, va, mine, pte, user);
    } else {
      own' := own;
      if level == 1 && !Present(e) {
        LeafOutcome(s, own, t, r, va, mine, pte);
      } else {
        NoChange(s, own, t, r, level, va, mine, pte, MapFrom(s, t, va, level, pte, user).0);
      }
    }
  }

  lemma MapFromOld(s: State, t: nat, level: nat, va: nat, pte: u64, user: bool, c: nat)
    requires 2 <= level <= 4 && Leads(s.mem, t, va, level, c)
    ensures MapFrom(s, t, va, level, pte, user) == MapFrom(s, c, va, level - 1, pte, user)
  {
  }

  lemma {:induction false} OldChild(m: Mem, own: Own, t: nat, r: nat, level: nat, va: nat, mine: bool, c: nat)
    requires Tree(m, own) && level >= 2 && OnPath(own, t, r, level, va) && Leads(m, t, va, level, c)
    requires mine ==> own[t].Table? && LowerHalf(va)
    ensures OnPath(own, c, r, level - 1, va) && (mine ==> own[c].Table?)
  {
    Descend(m, own, t, r, level, va);
    if mine {
      PrivateChild(m, own, t, r, level, va);
    }
  }

  lemma {:induction false} MapOldKeeps(s: State, own: Own, t: nat, r: nat, level: nat, va: nat, mine: bool, pte: u64,
    user: bool)
    returns (own': Own)
    requires Tree(s.mem, own) && Fresh(s.pending, own) && level >= 2 && OnPath(own, t, r, level, va) && Present(pte)
    requires mine ==> own[t].Table? && LowerHalf(va)
    requires var e := Word(s.mem, Slot(t, va, level)); Present(e) && !Leaf(e, level)
    ensures var (res, s') := MapFrom(s, t, va, level, pte, user);
      MapOutcome(s, own, t, r, level, va, mine, pte, res, s', own')
    decreases level, 0
  {
    var c := AddrOf(Word(s.mem, Slot(t, va, level)));
    OldChild(s.mem, own, t, r, level, va, mine, c);
    own' := MapFromKeeps(s, own, c, r, level - 1, va, mine, pte, user);
    MapFromOld(s, t, level, va, pte, user, c);
    var (res, s') := MapFrom(s, c, va, level - 1, pte, user);
    ThroughOld(s, own, t, r, level, va, mine, pte, c, res, s', own');
  }

  lemma MapFromNew(s: State, s1: State, t: nat, level: nat, va: nat, pte: u64, user: bool, f: nat)
    requires 2 <= level <= 4 && EnsureTable(s, Slot(t, va, level), user) == (Ok(f), s1)
      && Leads(s1.mem, t, va, level, f)
    ensures MapFrom(s, t, va, level, pte, user) == MapFrom(s1, f, va, level - 1, pte, user)
  {
  }

  lemma EnsureNew(s: State, slot: nat, user: bool)
    requires !Present(Word(s.mem, slot)) && s.pending != []
    ensures EnsureTable(s, slot, user).0 == Ok(s.pending[0]) && EnsureTable(s, slot, user).1.pending == s.pending[1..]
  {
  }

  lemma {:induction false} MapNewKeeps(s: State, own: Own, t: nat, r: nat, level: nat, va: nat, mine: bool, pte: u64,
    user: bool)
    returns (own': Own)
    requires Tree(s.mem, own) && Fresh(s.pending, own) && level >= 2 && OnPath(own, t, r, level, va) && Present(pte)
    requires mine ==> own[t].Table? && LowerHalf(va)
    requires !Present(Word(s.mem, Slot(t, va, level))) && s.pending != []
    ensures var (res, s') := MapFrom(s, t, va, level, pte, user);
      MapOutcome(s, own, t, r, level, va, mine, pte, res, s', own')
    ensures own[t].Table? ==> NewChildPrivate(s.mem, MapFrom(s, t, va, level, pte, user).1.mem, own', t, level, va)
    decreases level, 0
  {
    var f, s1, own1 := NewChild(s, own, t, r, level, va, user);
    own' := MapFromKeeps(s1, own1, f, r, level - 1, va, mine, pte, user);
    MapFromNew(s, s1, t, level, va, pte, user, f);
    var (res, s') := MapFrom(s1, f, va, level - 1, pte, user);
    NewOutcome(s, s1, own, t, r, level, va, mine, pte, f, res, s', own1, own');
  }

  lemma {:induction false} NewOutcome(s: State, s1: State, own: Own, t: nat, r: nat, level: nat, va: nat, mine: bool,
    pte: u64, f: nat, res: Result<()>, s': State, own1: Own, own': Own)
    requires 2 <= level <= 4 && t in own && own[t].level == level && f !in own && f in own1 && Extends(own, own1)
    requires Roles(own) && LinkEffect(s.mem, s1.mem, own, own1, t, va, level) && Leads(s1.mem, t, va, level, f)
    requires s.pending != [] && f == s.pending[0] && s1.pending == s.pending[1..] && Drawn(own, own1, [f])
    requires !Present(Word(s.mem, Slot(t, va, level))) && Walk(s1.mem, f, va, level - 1) == None
    requires MapOutcome(s1, own1, f, r, level - 1, va, mine, pte, res, s', own')
    requires own[t].Table? ==> own1[f].Table?
    ensures MapOutcome(s, own, t, r, level, va, mine, pte, res, s', own')
    ensures own[t].Table? ==> NewChildPrivate(s.mem, s'.mem, own', t, level, va)
  {
    NewIsPrivate(s.mem, s1.mem, s'.mem, own, own1, own', t, level, va, f);
    ThroughNew(s, s1, own, t, r, level, va, mine, pte, f, res, s', own1, own');
  }

  lemma NewIsPrivate(m: Mem, m1: Mem, m': Mem, own: Own, own1: Own, own': Own, t: nat, level: nat, va: nat, f: nat)
    requires 2 <= level <= 4 && t in own && t in own1 && own1[t].level == level && Leads(m1, t, va, level, f)
    requires UpperKept(m1, m', own1, level - 1) && Extends(own1, own') && f in own1
    requires own[t].Table? ==> own1[f].Table?
    ensures own[t].Table? ==> NewChildPrivate(m, m', own', t, level, va)
  {
    LeadsKept(m1, m', own1, t, va, level, f);
  }

  /** The table that ensure_table adds, and all that is known of it. */
  lemma {:induction false} NewChild(s: State, own: Own, t: nat, r: nat, level: nat, va: nat, user: bool)
    returns (f: nat, s1: State, own1: Own)
    requires Tree(s.mem, own) && Fresh(s.pending, own) && level >= 2 && OnPath(own, t, r, level, va)
    requires !Present(Word(s.mem, Slot(t, va, level))) && s.pending != []
    ensures EnsureTable(s, Slot(t, va, level), user) == (Ok(f), s1) && f == s.pending[0] && s1.pending == s.pending[1..]
    ensures f !in own && f in own1 && Extends(own, own1) && Drawn(own, own1, [f]) && own1[t] == own[t]
    ensures Tree(s1.mem, own1) && Fresh(s1.pending, own1) && LinkEffect(s.mem, s1.mem, own, own1, t, va, level)
    ensures Leads(s1.mem, t, va, level, f) && Walk(s1.mem, f, va, level - 1) == None
    ensures OnPath(own1, f, r, level - 1, va) && (own[t].Table? ==> own1[f].Table?)
  {
    f, s1 := s.pending[0], EnsureTable(s, Slot(t, va, level), user).1;
    own1 := own[f := ChildRole(own[t], Index(va, level))];
    LinkTable(s, own, t, r, level, va, user);
    EnsureNew(s, Slot(t, va, level), user);
    ChildOnPath(own, own1, t, r, level, va, f);
  }

  // ---------------------------------------------------------------- unmap_page

  /** No address of va's page translates. */
  ghost predicate PageGone(m: Mem, t: nat, level: nat, va: nat)
    requires 1 <= level <= 4
  {
    forall a: nat :: Page(a) == Page(va) ==> Walk(m, t, a, level) == None
  }

  /** The walk for va ends at a large page. */
  predicate OnLargePage(m: Mem, t: nat, level: nat, va: nat)
    requires 1 <= level <= 4
    decreases level, va
  {
    var e := Word(m, Slot(t, va, level));
    level >= 2 && Present(e) && (Leaf(e, level) || OnLargePage(m, AddrOf(e), level - 1, va))
  }

  /** What unmap_page may do to the tables: the page is gone, unless it is part of a large page, and no
      address has moved to a new place. */
  ghost predicate UnmapEffect(m: Mem, m': Mem, own: Own, t: nat, r: nat, level: nat, va: nat, mine: bool)
    requires 1 <= level <= 4
  {
    && Tree(m', own) && Shrunk(m, m', own) && DataKept(m, m', own) && UpperKept(m, m', own, level)
    && (mine ==> Unmoved(m, m', own, r, va) && !OnLargePage(m, t, level, va))
    && (if OnLargePage(m, t, level, va) then m' == m else PageGone(m', t, level, va))
  }

  /** unmap_page, from any level down and on any page. */
  lemma {:induction false} UnmapFromKeeps(m: Mem, own: Own, t: nat, r: nat, level: nat, va: nat, mine: bool)
    requires Tree(m, own) && OnPath(own, t, r, level, va) && (mine ==> own[t].Table? && LowerHalf(va))
    ensures UnmapEffect(m, UnmapFrom(m, t, va, level), own, t, r, level, va, mine)
    decreases level, 1
  {
    var e := Word(m, Slot(t, va, level));
    if level == 1 {
      WriteLeaf(m, own, t, r, va, 0);
      SlotGone(m[Slot(t, va, 1) := 0], t, 1, va);
    } else if Present(e) && !Leaf(e, level) {
      UnmapBelow(m, own, t, r, level, va, mine);
    } else {
      assert mine ==> EntryOk(m, own, t, Index(va, level));
      if !Present(e) {
        SlotGone(m, t, level, va);
      }
    }
  }

  lemma {:induction false} SlotGone(m: Mem, t: nat, level: nat, va: nat)
    requires 1 <= level <= 4 && !Present(Word(m, Slot(t, va, level)))
    ensures PageGone(m, t, level, va)
  {
    forall a: nat | Page(a) == Page(va) ensures Walk(m, t, a, level) == None {
      SamePath(a, va, level);
      assert Slot(t, a, level) == Slot(t, va, level);
    }
  }

  lemma {:induction false} UnmapBelow(m: Mem, own: Own, t: nat, r: nat, level: nat, va: nat, mine: bool)
    requires Tree(m, own) && level >= 2 && OnPath(own, t, r, level, va) && (mine ==> own[t].Table? && LowerHalf(va))
    requires var e := Word(m, Slot(t, va, level)); Present(e) && !Leaf(e, level)
    ensures UnmapEffect(m, UnmapFrom(m, t, va, level), own, t, r, level, va, mine)
    decreases level, 0
  {
    var c := AddrOf(Word(m, Slot(t, va, level)));
    OldChild(m, own, t, r, level, va, mine, c);
    UnmapFromKeeps(m, own, c, r, level - 1, va, mine);
    UnmapFromOld(m, t, level, va, c);
    ThroughUnmap(m, UnmapFrom(m, c, va, level - 1), own, t, r, level, va, mine, c);
  }

  lemma UnmapFromOld(m: Mem, t: nat, level: nat, va: nat, c: nat)
    requires 2 <= level <= 4 && Leads(m, t, va, level, c)
    ensures UnmapFrom(m, t, va, level) == UnmapFrom(m, c, va, level - 1)
    ensures OnLargePage(m, t, level, va) <==> OnLargePage(m, c, level - 1, va)
  {
  }

  lemma {:induction false} ThroughUnmap(m: Mem, m': Mem, own: Own, t: nat, r: nat, level: nat, va: nat, mine: bool,
    c: nat)
    requires 2 <= level <= 4 && t in own && own[t].level == level && Leads(m, t, va, level, c)
    requires OnLargePage(m, t, level, va) <==> OnLargePage(m, c, level - 1, va)
    requires UnmapEffect(m, m', own, c, r, level - 1, va, mine)
    ensures UnmapEffect(m, m', own, t, r, level, va, mine)
  {
    assert Entry(m', t, Index(va, level)) == Entry(m, t, Index(va, level));
    if !OnLargePage(m, c, level - 1, va) {
      LiftGone(m', t, level, va, c);
    }
    KeptAbove(m, m', own, level - 1);
  }

  lemma {:induction false} LiftGone(m: Mem, t: nat, level: nat, va: nat, f: nat)
    requires 2 <= level <= 4 && Leads(m, t, va, level, f) && PageGone(m, f, level - 1, va)
    ensures PageGone(m, t, level, va)
  {
    forall a: nat | Page(a) == Page(va) ensures Walk(m, t, a, level) == None {
      SamePath(a, va, level);
      assert Slot(t, a, level) == Slot(t, va, level);
      assert Walk(m, f, a, level - 1) == None;
    }
  }

  // ---------------------------------------------------------------- clone_kernel_pml4

  /** A fresh clone keeps the tree, moves no other translation, maps nothing in its lower half and
      translates the upper half exactly as the kernel does. */
  lemma {:induction false} CloneKeeps(s: State, own: Own, kernel: nat)
    requires Tree(s.mem, own) && Fresh(s.pending, own) && s.pending != []
    requires kernel in own && own[kernel] == Kernel(4)
    ensures var s', f := CloneRoot(s, kernel).1, s.pending[0];
      var own' := own[f := Table(f, 4, 0)];
      && Tree(s'.mem, own') && Fresh(s'.pending, own') && Still(s.mem, s'.mem, own) && DataKept(s.mem, s'.mem, own')
      && (forall a: nat :: LowerHalf(a) ==> Translate(s'.mem, f, a) == None)
      && (forall a: nat :: !LowerHalf(a) ==> Translate(s'.mem, f, a) == Translate(s.mem, kernel, a))
  {
    var s', f := CloneRoot(s, kernel).1, s.pending[0];
    var own' := own[f := Table(f, 4, 0)];
    CloneWords(s.mem, own, kernel, f);
    CloneTree(s.mem, s'.mem, own, kernel, f);
    SameStill(s.mem, s'.mem, own);
    CloneData(s.mem, own', kernel, f);
    forall a: nat ensures Translate(s'.mem, f, a) == if LowerHalf(a) then None else Translate(s.mem, kernel, a) {
      CloneTranslates(s.mem, s'.mem, own, kernel, f, a);
    }
  }

  /** Every table reads as before; the new root is empty below and a copy of the kernel's above. */
  ghost predicate Cloned(m: Mem, m': Mem, own: Own, kernel: nat, f: nat) {
    && SameTables(m, m', own)
    && (forall i :: 0 <= i < HALF ==> Entry(m', f, i) == 0)
    && (forall i :: HALF <= i < ENTRIES ==> Entry(m', f, i) == Entry(m, kernel, i))
  }

  function CloneMem(m: Mem, kernel: nat, f: nat): Mem {
    CopyWords(ZeroPage(m, f), kernel + 8 * HALF, f + 8 * HALF, HALF)
  }

  lemma {:induction false} CloneOld(m: Mem, kernel: nat, f: nat, t: nat, i: nat)
    requires t % PAGE == 0 && f % PAGE == 0 && t != f && i < ENTRIES
    ensures Entry(CloneMem(m, kernel, f), t, i) == Entry(m, t, i)
  {
    CopyWordsAt(ZeroPage(m, f), kernel + 8 * HALF, f + 8 * HALF, HALF, t + 8 * i);
    ZeroWordsAt(m, f, ENTRIES, t + 8 * i);
    OtherPage(t, i, f);
  }

  lemma {:induction false} CloneNew(m: Mem, kernel: nat, f: nat, i: nat)
    requires kernel % PAGE == 0 && f % PAGE == 0 && kernel != f && i < ENTRIES
    ensures Entry(CloneMem(m, kernel, f), f, i) == if i < HALF then 0 else Entry(m, kernel, i)
  {
    CopyWordsAt(ZeroPage(m, f), kernel + 8 * HALF, f + 8 * HALF, HALF, f + 8 * i);
    ZeroWordsAt(m, f, ENTRIES, f + 8 * i);
    ZeroWordsAt(m, f, ENTRIES, kernel + 8 * i);
    OtherPage(kernel, i, f);
  }

  lemma {:induction false} CloneWords(m: Mem, own: Own, kernel: nat, f: nat)
    requires Roles(own) && kernel in own && f !in own && f % PAGE == 0
    ensures Cloned(m, CloneMem(m, kernel, f), own, kernel, f)
  {
    var m' := CloneMem(m, kernel, f);
    forall t, i | t in own && 0 <= i < ENTRIES ensures Entry(m', t, i) == Entry(m, t, i) {
      CloneOld(m, kernel, f, t, i);
    }
    forall i | 0 <= i < ENTRIES ensures Entry(m', f, i) == if i < HALF then 0 else Entry(m, kernel, i) {
      CloneNew(m, kernel, f, i);
    }
  }

  lemma {:induction false} CloneTree(m: Mem, m': Mem, own: Own, kernel: nat, f: nat)
    requires Tree(m, own) && kernel in own && own[kernel] == Kernel(4) && f !in own && f % PAGE == 0
    requires Cloned(m, m', own, kernel, f)
    ensures Tree(m', own[f := Table(f, 4, 0)])
  {
    var own' := own[f := Table(f, 4, 0)];
    forall t, i | t in own' && 0 <= i < ENTRIES ensures EntryOk(m', own', t, i) {
      if t == f {
        assert EntryOk(m, own, kernel, i);
        assert i < HALF ==> Entry(m', f, i) == 0;
      } else {
        assert EntryOk(m, own, t, i);
        assert Entry(m', t, i) == Entry(m, t, i);
      }
    }
  }

  lemma {:induction false} WalkSame(m: Mem, m': Mem, own: Own, t: nat, r: nat, level: nat, a: nat)
    requires Tree(m, own) && OnPath(own, t, r, level, a) && SameTables(m, m', own)
    ensures Walk(m', t, a, level) == Walk(m, t, a, level)
    decreases level
  {
    var e := Word(m, Slot(t, a, level));
    assert Entry(m', t, Index(a, level)) == Entry(m, t, Index(a, level));
    if !Present(e) || Leaf(e, level) {
    } else {
      Descend(m, own, t, r, level, a);
      WalkSame(m, m', own, AddrOf(e), r, level - 1, a);
    }
  }

  lemma {:induction false} SameStill(m: Mem, m': Mem, own: Own)
    requires Tree(m, own) && SameTables(m, m', own)
    ensures Still(m, m', own)
  {
    forall t, r, level, a | OnPath(own, t, r, level, a) ensures Walk(m', t, a, level) == Walk(m, t, a, level) {
      WalkSame(m, m', own, t, r, level, a);
    }
  }

  lemma {:induction false} CloneData(m: Mem, own': Own, kernel: nat, f: nat)
    requires f in own' && f % PAGE == 0
    ensures DataKept(m, CloneMem(m, kernel, f), own')
  {
    forall x: nat | x - x % PAGE !in own' ensures Word(CloneMem(m, kernel, f), x) == Word(m, x) {
      CopyWordsAt(ZeroPage(m, f), kernel + 8 * HALF, f + 8 * HALF, HALF, x);
      ZeroWordsAt(m, f, ENTRIES, x);
      if f <= x < f + PAGE {
        PageOfInner(x, f);
      }
    }
  }

  lemma PageOfInner(x: nat, f: nat)
    requires f % PAGE == 0 && f <= x < f + PAGE
    ensures x - x % PAGE == f
  {
  }

  lemma {:induction false} CloneTranslates(m: Mem, m': Mem, own: Own, kernel: nat, f: nat, a: nat)
    requires Tree(m, own) && kernel in own && own[kernel] == Kernel(4) && Cloned(m, m', own, kernel, f)
    ensures Translate(m', f, a) == if LowerHalf(a) then None else Translate(m, kernel, a)
  {
    var i := Index(a, 4);
    PrefixStep(a, 4);
    assert i < HALF <==> LowerHalf(a);
    assert Entry(m', f, i) == if i < HALF then 0 else Entry(m, kernel, i);
    var e := Word(m, Slot(kernel, a, 4));
    if !LowerHalf(a) && Present(e) {
      RootOnPath(own, kernel, a);
      Descend(m, own, kernel, kernel, 4, a);
      WalkSame(m, m', own, AddrOf(e), kernel, 3, a);
    }
  }
}
