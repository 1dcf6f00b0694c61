/** What the entries on the way to a page allow: section 4.6 of the Intel 64 and IA-32 Architectures Software
    Developer's Manual, Volume 3A. An access is allowed only if every entry of the walk allows it. */
module AccessRights {
  import opened Alignment
  import opened Options
  import opened PageTables
  import opened TableTrees
  import opened TableAliases
  import Bits

  /** User-mode access, writing and instruction fetches. */
  datatype Rights = Rights(user: bool, write: bool, exec: bool)

  const ALL := Rights(true, true, true)

  function Both(g: Rights, h: Rights): Rights {
    Rights(g.user && h.user, g.write && h.write, g.exec && h.exec)
  }

  /** What one entry allows: bit 2, bit 1, and bit 63, which forbids. */
  function Grant(e: nat): Rights {
    Rights(e / 4 % 2 == 1, e / 2 % 2 == 1, e / 0x8000_0000_0000_0000 % 2 == 0)
  }

  /** What the walk for a from t allows, if it ends at a page. */
  function Access(m: Mem, t: nat, a: nat, level: nat): Option<Rights>
    requires 1 <= level <= 4
    decreases level, a
  {
    var e := Word(m, Slot(t, a, level));
    if !Present(e) then None
    else if Leaf(e, level) then Some(Grant(e))
    else
      var below := Access(m, AddrOf(e), a, level - 1);
      if below.None? then None else Some(Both(Grant(e), below.value))
  }

  /** What the links to tables on the way allow, as far as there are tables. */
  function Above(m: Mem, t: nat, a: nat, level: nat): Rights
    requires 1 <= level <= 4
    decreases level, a
  {
    var e := Word(m, Slot(t, a, level));
    if Linked(e, level) then Both(Grant(e), Above(m, AddrOf(e), a, level - 1)) else ALL
  }

  lemma {:induction false} AccessSome(m: Mem, t: nat, a: nat, level: nat)
    requires 1 <= level <= 4
    ensures Access(m, t, a, level).Some? <==> Walk(m, t, a, level).Some?
    decreases level
  {
    var e := Word(m, Slot(t, a, level));
    if Linked(e, level) {
      AccessSome(m, AddrOf(e), a, level - 1);
    }
  }

  /** Addresses that take the same entries have the same rights. */
  lemma {:induction false} AccessSame(m: Mem, t: nat, a: nat, b: nat, level: nat)
    requires 1 <= level <= 4 && SameBelow(a, b, level)
    ensures Access(m, t, a, level) == Access(m, t, b, level)
    decreases level
  {
    assert Slot(t, a, level) == Slot(t, b, level);
    var e := Word(m, Slot(t, a, level));
    if Linked(e, level) {
      AccessSame(m, AddrOf(e), a, b, level - 1);
    }
  }

  // ---------------------------------------------------------------- an edit

  function Joined(g: Rights, below: Option<Rights>): Option<Rights> {
    if below.None? then None else Some(Both(g, below.value))
  }

  /** What an edit does to the rights of a walk. */
  lemma {:induction false} EditAccess(m: Mem, m': Mem, own: Own, t0: nat, l0: nat, va: nat, pte: u64, t: nat, r: nat,
    a: nat, level: nat)
    requires Tree(m, own) && OnPath(own, t, r, level, a) && Edited(m, m', own, t0, l0, va, pte)
    ensures Access(m', t, a, level)
      == if Arrives(m, t, a, level, t0, l0) && SameBelow(a, va, l0)
         then Joined(Above(m, t, a, level), Access(m', t0, va, l0))
         else Access(m, t, a, level)
    decreases level
  {
    if t == t0 && Index(a, level) == Index(va, l0) {
      EditAccessEnd(m, m', own, t0, l0, va, pte, a);
    } else {
      AgreeSlot(m, m', own, t0, Index(va, l0), t, a, level);
      var e := Word(m, Slot(t, a, level));
      if Linked(e, level) {
        Descend(m, own, t, r, level, a);
        EditAccess(m, m', own, t0, l0, va, pte, AddrOf(e), r, a, level - 1);
        AccessStep(m, t, a, level, e);
        AccessStep(m', t, a, level, e);
      }
    }
  }

  lemma AccessStep(m: Mem, t: nat, a: nat, level: nat, e: nat)
    requires 1 <= level <= 4 && e == Word(m, Slot(t, a, level)) && Linked(e, level)
    ensures Access(m, t, a, level) == Joined(Grant(e), Access(m, AddrOf(e), a, level - 1))
    ensures Above(m, t, a, level) == Both(Grant(e), Above(m, AddrOf(e), a, level - 1))
  {
  }

  lemma {:induction false} EditAccessEnd(m: Mem, m': Mem, own: Own, t0: nat, l0: nat, va: nat, pte: u64, a: nat)
    requires Edited(m, m', own, t0, l0, va, pte) && Index(a, l0) == Index(va, l0)
    ensures SameBelow(a, va, l0) ==> Access(m', t0, a, l0) == Access(m', t0, va, l0)
    ensures !SameBelow(a, va, l0) ==> Access(m', t0, a, l0) == Access(m, t0, a, l0)
    ensures Above(m, t0, a, l0) == ALL
  {
    assert Slot(t0, a, l0) == Slot(t0, va, l0);
    if l0 == 1 {
      assert SameBelow(a, va, 1);
    }
    if SameBelow(a, va, l0) {
      AccessSame(m', t0, a, va, l0);
    } else {
      EditEnd(m, m', own, t0, l0, va, pte, a);
      AccessSome(m, t0, a, l0);
      AccessSome(m', t0, a, l0);
    }
  }

  // ---------------------------------------------------------------- what map_page adds

  /** Every link on va's way from t has these rights. */
  predicate Granted(m: Mem, t: nat, va: nat, level: nat, g: Rights)
    requires 1 <= level <= 4
    decreases level, va
  {
    var e := Word(m, Slot(t, va, level));
    Linked(e, level) ==> Grant(e) == g && Granted(m, AddrOf(e), va, level - 1, g)
  }

  lemma TableGrant(f: u64, user: bool)
    requires FrameOk(f)
    ensures Grant(TableEntry(f, user)) == Rights(user, true, true)
  {
    var flags := if user then 7 else 3;
    ModUnique(f + flags, WORD, 0, f + flags);
    LowFlags(f, f / PAGE, flags);
  }

  lemma LowFlags(f: nat, k: nat, flags: nat)
    requires f == PAGE * k && f < ADDR_LIMIT && flags < 8
    ensures (f + flags) / 4 % 2 == flags / 4 && (f + flags) / 2 % 2 == flags / 2 % 2
    ensures (f + flags) / 0x8000_0000_0000_0000 == 0
  {
    ModUnique(f + flags, 4, 1024 * k + flags / 4, flags % 4);
    ModUnique(f + flags, 2, 2048 * k + flags / 2, flags % 2);
    ModUnique(1024 * k + flags / 4, 2, 512 * k, flags / 4);
    ModUnique(2048 * k + flags / 2, 2, 1024 * k + flags / 4, flags / 2 % 2);
    ModUnique(f + flags, 0x8000_0000_0000_0000, 0, f + flags);
  }

  lemma {:induction false} GrantedStep(m1: Mem, m': Mem, own: Own, t: nat, va: nat, level: nat, f: u64, user: bool)
    requires t in own && 2 <= level <= 4 && FrameOk(f) && SameTables(m1, m', own)
    requires Word(m1, Slot(t, va, level)) == TableEntry(f, user)
    requires Granted(m', f, va, level - 1, Rights(user, true, true))
    ensures Granted(m', t, va, level, Rights(user, true, true))
  {
    assert Entry(m', t, Index(va, level)) == Entry(m1, t, Index(va, level));
    TableGrant(f, user);
    TableEntryBits(f, user, level);
  }

  /** The tables that map_page adds below an empty one all have the rights it gives to tables. */
  lemma {:induction false} GrantedBelow(s: State, own: Own, own1: Own, t: nat, va: nat, level: nat, pte: u64,
    user: bool)
    requires Roles(own) && t !in own && t % PAGE == 0 && 1 <= level <= 4 && own1 == own[t := Kernel(level)]
    requires Fresh(s.pending, own1) && forall i :: 0 <= i < ENTRIES ==> Entry(s.mem, t, i) == 0
    ensures Granted(MapFrom(s, t, va, level, pte, user).1.mem, t, va, level, Rights(user, true, true))
    decreases level
  {
    assert Entry(s.mem, t, Index(va, level)) == 0;
    if level == 1 || s.pending == [] {
    } else {
      MapGranted(s, own1, t, va, level, pte, user);
    }
  }

  /** And so do those below an absent entry. */
  lemma {:induction false} MapGranted(s: State, own: Own, t: nat, va: nat, level: nat, pte: u64, user: bool)
    requires Roles(own) && Fresh(s.pending, own) && t in own && 2 <= level <= 4 && s.pending != []
    requires !Present(Word(s.mem, Slot(t, va, level)))
    ensures Granted(MapFrom(s, t, va, level, pte, user).1.mem, t, va, level, Rights(user, true, true))
    decreases level, 0
  {
    var f, s1 := FreshLink(s, own, t, va, level, user);
    var own1 := own[f := Kernel(level - 1)];
    FreshRest(s.pending, own, own1);
    MapFromNew(s, s1, t, level, va, pte, user, f);
    BelowFresh(s1, own, own1, f, va, level - 1, pte, user);
    GrantedBelow(s1, own, own1, f, va, level - 1, pte, user);
    GrantedStep(s1.mem, MapFrom(s1, f, va, level - 1, pte, user).1.mem, own, t, va, level, f, user);
  }

  /** A sprout whose links have rights g ends with those of pte, restricted by g. */
  lemma {:induction false} SproutAccess(m: Mem, own: Own, t: nat, va: nat, level: nat, pte: u64, g: Rights)
    requires 1 <= level <= 4 && Sprout(m, own, t, va, level, pte) && Granted(m, t, va, level, g)
    requires Both(g, Grant(pte)) == Grant(pte)
    ensures Walk(m, t, va, level).Some? ==> Access(m, t, va, level) == Some(Grant(pte))
    decreases level
  {
    var e := Word(m, Slot(t, va, level));
    if Linked(e, level) {
      SproutAccess(m, own, AddrOf(e), va, level - 1, pte, g);
      AccessStep(m, t, va, level, e);
    }
  }

  /** The rights where the edit of a map_page begins. */
  lemma {:induction false} EditedAccess(m: Mem, m': Mem, own: Own, t0: nat, l0: nat, va: nat, pte: u64, g: Rights)
    requires Edited(m, m', own, t0, l0, va, pte) && Granted(m', t0, va, l0, g) && Both(g, Grant(pte)) == Grant(pte)
    requires Walk(m', t0, va, l0).Some?
    ensures Access(m', t0, va, l0) == Some(Grant(pte))
  {
    var e := Word(m', Slot(t0, va, l0));
    if l0 >= 2 {
      SproutAccess(m', own, AddrOf(e), va, l0 - 1, pte, g);
      AccessStep(m', t0, va, l0, e);
    }
  }

  /** map_page goes on from where the walk ended. */
  lemma {:induction false} ArrivesMap(s: State, own: Own, t: nat, r: nat, level: nat, va: nat, pte: u64, user: bool,
    t0: nat, l0: nat)
    requires Tree(s.mem, own) && OnPath(own, t, r, level, va) && 1 <= l0 <= level
    requires Arrives(s.mem, t, va, level, t0, l0)
    ensures OnPath(own, t0, r, l0, va) && MapFrom(s, t, va, level, pte, user) == MapFrom(s, t0, va, l0, pte, user)
    decreases level
  {
    if level == l0 {
    } else {
      var c := AddrOf(Word(s.mem, Slot(t, va, level)));
      Descend(s.mem, own, t, r, level, va);
      MapFromOld(s, t, level, va, pte, user, c);
      ArrivesMap(s, own, c, r, level - 1, va, pte, user, t0, l0);
    }
  }

  lemma {:induction false} MapFromAccess(s: State, own: Own, t: nat, r: nat, level: nat, va: nat, pte: u64, user: bool,
    t1: nat, r1: nat, a: nat)
    requires Tree(s.mem, own) && Fresh(s.pending, own) && OnPath(own, t, r, level, va) && OnPath(own, t1, r1, level, a)
    requires Present(pte) && Grant(pte).user == user
    ensures var (res, s') := MapFrom(s, t, va, level, pte, user);
      Access(s'.mem, t1, a, level)
      == if res.Ok? && Alias(s.mem, t1, a, t, va, level)
         then Some(Both(Above(s.mem, t1, a, level), Grant(pte)))
         else Access(s.mem, t1, a, level)
  {
    var own' := MapFromKeeps(s, own, t, r, level, va, false, pte, user);
    var (res, s') := MapFrom(s, t, va, level, pte, user);
    var t0, l0 := MapEdits(s, own, t, r, level, va, pte, user);
    if s'.mem == s.mem && res.Err? {
    } else {
      ArrivesMap(s, own, t, r, level, va, pte, user, t0, l0);
      if l0 >= 2 && s.pending != [] {
        MapGranted(s, own, t0, va, l0, pte, user);
      }
      EditedRights(s.mem, s'.mem, own, t0, l0, t, r, level, va, pte, Rights(user, true, true), t1, r1, a, res.Ok?);
    }
  }

  lemma {:induction false} EditedRights(m: Mem, m': Mem, own: Own, t0: nat, l0: nat, t: nat, r: nat, level: nat,
    va: nat, pte: u64, g: Rights, t1: nat, r1: nat, a: nat, ok: bool)
    requires Tree(m, own) && OnPath(own, t, r, level, va) && OnPath(own, t1, r1, level, a)
    requires Edited(m, m', own, t0, l0, va, pte) && l0 <= level && Arrives(m, t, va, level, t0, l0)
    requires !Present(Word(m, Slot(t0, va, l0))) && Granted(m', t0, va, l0, g) && Both(g, Grant(pte)) == Grant(pte)
    requires if ok then Walk(m', t, va, level).Some? else Walk(m', t1, a, level) == Walk(m, t1, a, level)
    ensures Access(m', t1, a, level)
      == if ok && Alias(m, t1, a, t, va, level) then Some(Both(Above(m, t1, a, level), Grant(pte)))
         else Access(m, t1, a, level)
  {
    SameSelf(va, l0);
    AliasMeets(m, t1, a, t, va, level, t0, l0);
    EditAccess(m, m', own, t0, l0, va, pte, t1, r1, a, level);
    if ok {
      EditWalk(m, m', own, t0, l0, va, pte, t, r, va, level);
      EditedAccess(m, m', own, t0, l0, va, pte, g);
    } else if Alias(m, t1, a, t, va, level) {
      MetNone(m, t1, a, level, t0, l0, va);
      AccessSome(m, t1, a, level);
      AccessSome(m', t1, a, level);
    }
  }

  /** A walk that comes to an absent entry ends there. */
  lemma {:induction false} MetNone(m: Mem, t: nat, a: nat, level: nat, t0: nat, l0: nat, va: nat)
    requires 1 <= l0 <= level <= 4 && Arrives(m, t, a, level, t0, l0) && SameBelow(a, va, l0)
    requires !Present(Word(m, Slot(t0, va, l0)))
    ensures Walk(m, t, a, level) == None
    decreases level
  {
    if level == l0 {
      assert Slot(t, a, level) == Slot(t0, va, l0);
    } else {
      MetNone(m, AddrOf(Word(m, Slot(t, a, level))), a, level - 1, t0, l0, va);
    }
  }

  // ---------------------------------------------------------------- what stays

  lemma {:induction false} SproutAbove(m: Mem, own: Own, t: nat, va: nat, level: nat, pte: u64, a: nat)
    requires 1 <= level <= 4 && Sprout(m, own, t, va, level, pte) && Granted(m, t, va, level, ALL)
    ensures Above(m, t, a, level) == ALL
    decreases level
  {
    SproutEntry(m, own, t, va, level, pte, a);
    var e := Word(m, Slot(t, va, level));
    if Index(a, level) == Index(va, level) && Linked(e, level) {
      SproutAbove(m, own, AddrOf(e), va, level - 1, pte, a);
    }
  }

  /** Tables that allow everything restrict nothing. */
  lemma {:induction false} EditAbove(m: Mem, m': Mem, own: Own, t0: nat, l0: nat, va: nat, pte: u64, t: nat, r: nat,
    a: nat, level: nat)
    requires Tree(m, own) && OnPath(own, t, r, level, a) && Edited(m, m', own, t0, l0, va, pte)
    requires Granted(m', t0, va, l0, ALL)
    ensures Above(m', t, a, level) == Above(m, t, a, level)
    decreases level
  {
    if t == t0 && Index(a, level) == Index(va, l0) {
      assert Slot(t0, a, l0) == Slot(t0, va, l0);
      if l0 >= 2 {
        SproutAbove(m', own, AddrOf(Word(m', Slot(t0, va, l0))), va, l0 - 1, pte, a);
      }
    } else {
      AgreeSlot(m, m', own, t0, Index(va, l0), t, a, level);
      var e := Word(m, Slot(t, a, level));
      if Linked(e, level) {
        Descend(m, own, t, r, level, a);
        EditAbove(m, m', own, t0, l0, va, pte, AddrOf(e), r, a, level - 1);
      }
    }
  }

  /** A user mapping leaves what the tables on any way allow as it was. */
  lemma {:induction false} MapAbove(s: State, own: Own, root: nat, va: nat, frame: u64, flags: u64, r: nat, a: nat)
    requires Tree(s.mem, own) && Fresh(s.pending, own) && Root(own, root) && Root(own, r) && flags / 4 % 2 == 1
    ensures Above(MapPage(s, root, va, frame, flags).1.mem, r, a, 4) == Above(s.mem, r, a, 4)
  {
    if va % PAGE == 0 && frame % PAGE == 0 {
      var pte, s' := Pte(frame, flags), MapPage(s, root, va, frame, flags).1;
      RootOnPath(own, root, va);
      RootOnPath(own, r, a);
      var t0, l0 := MapEdits(s, own, root, root, 4, va, pte, true);
      if s'.mem != s.mem {
        ArrivesMap(s, own, root, root, 4, va, pte, true, t0, l0);
        if l0 >= 2 && s.pending != [] {
          MapGranted(s, own, t0, va, l0, pte, true);
        }
        EditAbove(s.mem, s'.mem, own, t0, l0, va, pte, r, r, a, 4);
      }
    }
  }

  /** Rights are a matter of the tables. */
  lemma {:induction false} DataRights(m: Mem, m': Mem, own: Own, t: nat, r: nat, a: nat, level: nat)
    requires Tree(m, own) && OnPath(own, t, r, level, a) && SameTables(m, m', own)
    ensures Access(m', t, a, level) == Access(m, t, a, level) && Above(m', t, a, level) == Above(m, t, a, level)
    decreases level
  {
    assert Entry(m', t, Index(a, level)) == Entry(m, t, Index(a, level));
    var e := Word(m, Slot(t, a, level));
    if Linked(e, level) {
      Descend(m, own, t, r, level, a);
      DataRights(m, m', own, AddrOf(e), r, a, level - 1);
    }
  }

  // ---------------------------------------------------------------- the installed entry

  lemma PresentGrants(flags: u64)
    ensures Grant(WithPresent(flags)) == Grant(flags)
  {
    if !Present(flags) {
      var x := flags / 2;
      OddSame(x, 2, 1);
      OddSame(x, 4, 2);
      OddSame(x, 0x8000_0000_0000_0000, 0x4000_0000_0000_0000);
    }
  }

  lemma OddSame(x: nat, d: nat, half: nat)
    requires half > 0 && d == 2 * half
    ensures (2 * x + 1) / d == 2 * x / d
  {
    var q, r := x / half, x % half;
    assert x == half * q + r;
    assert 2 * x == d * q + 2 * r by {
      assert 2 * (half * q) == (2 * half) * q;
    }
    ModUnique(2 * x, d, q, 2 * r);
    ModUnique(2 * x + 1, d, q, 2 * r + 1);
  }

  lemma {:induction false} BitOf(x: nat)
    ensures Bits.Shr(x, 1) == x / 2 && Bits.Shr(x, 2) == x / 4 && Bits.Shr(x, 63) == x / 0x8000_0000_0000_0000
  {
    Bits.Pow63();
    Bits.ShrIs(x, 63, 0x8000_0000_0000_0000);
    assert Bits.Shr(x, 1) == Bits.Shr(x / 2, 0);
    assert Bits.Shr(x, 2) == Bits.Shr(x / 2, 1) == Bits.Shr(x / 2 / 2, 0);
  }

  lemma {:induction false} OrGrants(x: nat, y: nat)
    ensures Grant(Bits.Or(x, y, 64)) == Rights(Grant(x).user || Grant(y).user, Grant(x).write || Grant(y).write,
      Grant(x).exec && Grant(y).exec)
  {
    BitOf(x);
    BitOf(y);
    BitOf(Bits.Or(x, y, 64));
    Bits.OrBit(x, y, 64, 1);
    Bits.OrBit(x, y, 64, 2);
    Bits.OrBit(x, y, 64, 63);
  }

  lemma FrameGrants(frame: nat)
    requires frame % PAGE == 0
    ensures !Grant(frame).user && !Grant(frame).write
  {
    var k := frame / PAGE;
    ModUnique(frame, 4, 1024 * k, 0);
    ModUnique(frame, 2, 2048 * k, 0);
  }

  /** The bits of the entry that map_page installs. */
  lemma {:induction false} PteGrants(frame: u64, flags: u64)
    requires frame % PAGE == 0
    ensures Grant(Pte(frame, flags)) == Asked(frame, flags)
  {
    PresentGrants(flags);
    FrameGrants(frame);
    OrGrants(frame, WithPresent(flags));
  }

  /** What the caller of map_page asks for: bits 2, 1 and 63 of the flags; a frame number with bit 63 forbids
      execution as well. */
  function Asked(frame: u64, flags: u64): Rights {
    Rights(flags / 4 % 2 == 1, flags / 2 % 2 == 1,
      flags / 0x8000_0000_0000_0000 == 0 && frame / 0x8000_0000_0000_0000 == 0)
  }

  lemma UserBit(flags: u64)
    ensures User(flags) == (flags / 4 % 2 == 1)
  {
  }

  // ---------------------------------------------------------------- the main results

  /** map_page and rights: an alias of the mapped page, in whichever space, allows what was asked for as far as
      the table entries that were on its way before allow it, and the rights of every other address are what they
      were; a failed call changes none. */
  lemma {:induction false} MapRights(s: State, own: Own, root: nat, va: nat, frame: u64, flags: u64, r: nat, a: nat)
    requires Tree(s.mem, own) && Fresh(s.pending, own) && Root(own, root) && Root(own, r)
    ensures var (res, s') := MapPage(s, root, va, frame, flags);
      Access(s'.mem, r, a, 4)
      == if res.Ok? && Alias(s.mem, r, a, root, va, 4) then Some(Both(Above(s.mem, r, a, 4), Asked(frame, flags)))
         else Access(s.mem, r, a, 4)
  {
    RootOnPath(own, root, va);
    RootOnPath(own, r, a);
    PteTarget(frame, flags);
    if va % PAGE == 0 && frame % PAGE == 0 {
      PteGrants(frame, flags);
      UserBit(flags);
      MapFromAccess(s, own, root, root, 4, va, Pte(frame, flags), User(flags), r, r, a);
    }
  }

  /** unmap_page and rights: the aliases of the page have none left, unless it is part of a large page, and
      every other address has those it had. */
  lemma {:induction false} UnmapRights(m: Mem, own: Own, root: nat, va: nat, r: nat, a: nat)
    requires Tree(m, own) && Root(own, root) && Root(own, r)
    ensures Access(UnmapPage(m, root, va), r, a, 4)
      == if va % PAGE == 0 && Alias(m, r, a, root, va, 4) && !OnLargePage(m, root, 4, va) then None
         else Access(m, r, a, 4)
  {
    RootOnPath(own, root, va);
    RootOnPath(own, r, a);
    if va % PAGE == 0 {
      var t0 := UnmapEdits(m, own, root, root, 4, va);
      var m' := UnmapPage(m, root, va);
      if m' == m && (Translate(m, root, va) == None || OnLargePage(m, root, 4, va)) {
        if Alias(m, r, a, root, va, 4) {
          AliasSome(m, r, a, root, va, 4);
          AccessSome(m, r, a, 4);
        }
      } else {
        EditAccess(m, m', own, t0, 1, va, 0, r, r, a, 4);
        AliasMeets(m, r, a, root, va, 4, t0, 1);
        AccessSome(m', t0, va, 1);
      }
    }
  }

  /** A clone has the kernel's rights in the upper half, and no other space's rights change. */
  lemma {:induction false} CloneRights(s: State, own: Own, kernel: nat, root: nat, s1: State, r: nat, a: nat)
    requires Tree(s.mem, own) && Fresh(s.pending, own) && kernel in own && own[kernel] == Kernel(4) && Root(own, r)
    requires CloneRoot(s, kernel) == (Ok(root), s1)
    ensures Access(s1.mem, r, a, 4) == Access(s.mem, r, a, 4)
    ensures Access(s1.mem, root, a, 4) == if LowerHalf(a) then None else Access(s.mem, kernel, a, 4)
    ensures Above(s1.mem, root, a, 4) == if LowerHalf(a) then ALL else Above(s.mem, kernel, a, 4)
  {
    CloneWords(s.mem, own, kernel, root);
    RootOnPath(own, r, a);
    DataRights(s.mem, s1.mem, own, r, r, a, 4);
    CloneRootRights(s, own, kernel, root, s1, a);
  }

  lemma {:induction false} CloneRootRights(s: State, own: Own, kernel: nat, root: nat, s1: State, a: nat)
    requires Tree(s.mem, own) && Fresh(s.pending, own) && kernel in own && own[kernel] == Kernel(4)
    requires CloneRoot(s, kernel) == (Ok(root), s1)
    ensures Access(s1.mem, root, a, 4) == if LowerHalf(a) then None else Access(s.mem, kernel, a, 4)
    ensures Above(s1.mem, root, a, 4) == if LowerHalf(a) then ALL else Above(s.mem, kernel, a, 4)
  {
    CloneWords(s.mem, own, kernel, root);
    PrefixStep(a, 4);
    var i := Index(a, 4);
    assert Entry(s1.mem, root, i) == if i < HALF then 0 else Entry(s.mem, kernel, i);
    var e := Word(s.mem, Slot(kernel, a, 4));
    if !LowerHalf(a) && Linked(e, 4) {
      RootOnPath(own, kernel, a);
      Descend(s.mem, own, kernel, kernel, 4, a);
      DataRights(s.mem, s1.mem, own, AddrOf(e), kernel, a, 3);
    }
  }
}
