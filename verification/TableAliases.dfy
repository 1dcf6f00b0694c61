/** Two addresses are aliases when their walks meet in a table and go on alike. What map_page and unmap_page
    do to an address, in whichever space, is decided by whether it is an alias of the page they were given;
    and they leave this relation as it is. */
module TableAliases {
  import opened Alignment
  import opened Options
  import opened PageTables
  import opened TableTrees

  /** The addresses take the same entries from this level down. */
  predicate SameBelow(a: nat, b: nat, level: nat)
    requires level <= 4
  {
    level == 0 || (Index(a, level) == Index(b, level) && SameBelow(a, b, level - 1))
  }

  /** The walk for a from t1 and the walk for b from t2, tables of one level, meet in a table and then take
      the same entries. */
  predicate Alias(m: Mem, t1: nat, a: nat, t2: nat, b: nat, level: nat)
    requires 1 <= level <= 4
    decreases level, a
  {
    || (t1 == t2 && SameBelow(a, b, level))
    || (level >= 2
        && var e1, e2 := Word(m, Slot(t1, a, level)), Word(m, Slot(t2, b, level));
        Linked(e1, level) && Linked(e2, level) && Alias(m, AddrOf(e1), a, AddrOf(e2), b, level - 1))
  }

  lemma {:induction false} SamePageBelow(a: nat, b: nat, level: nat)
    requires level <= 4
    ensures Page(a) == Page(b) <==> Prefix(a, level) == Prefix(b, level) && SameBelow(a, b, level)
  {
    if level == 0 {
    } else {
      SamePageBelow(a, b, level - 1);
      PrefixStep(a, level);
      PrefixStep(b, level);
    }
  }

  /** From the root on, the same entries means the same page. */
  lemma SamePageTop(a: nat, b: nat)
    ensures SameBelow(a, b, 4) <==> Page(a) == Page(b)
  {
    SamePageBelow(a, b, 4);
    PrefixStep(a, 4);
    PrefixStep(b, 4);
  }

  lemma {:induction false} AliasSymmetric(m: Mem, t1: nat, a: nat, t2: nat, b: nat, level: nat)
    requires 1 <= level <= 4 && Alias(m, t1, a, t2, b, level)
    ensures Alias(m, t2, b, t1, a, level)
    decreases level
  {
    if t1 == t2 && SameBelow(a, b, level) {
      SameSymmetric(a, b, level);
    } else {
      AliasSymmetric(m, AddrOf(Word(m, Slot(t1, a, level))), a, AddrOf(Word(m, Slot(t2, b, level))), b, level - 1);
    }
  }

  lemma {:induction false} SameSymmetric(a: nat, b: nat, level: nat)
    requires level <= 4 && SameBelow(a, b, level)
    ensures SameBelow(b, a, level)
  {
    if level == 0 {
    } else {
      SameSymmetric(a, b, level - 1);
    }
  }

  /** One step down both walks. */
  lemma AliasStep(m: Mem, t1: nat, a: nat, t2: nat, b: nat, level: nat, c1: nat, c2: nat)
    requires 2 <= level <= 4 && Leads(m, t1, a, level, c1) && Leads(m, t2, b, level, c2)
    ensures Alias(m, t1, a, t2, b, level) <==> Alias(m, c1, a, c2, b, level - 1)
  {
  }

  /** Where a walk ends, no alias is met below. */
  lemma AliasEnd(m: Mem, t1: nat, a: nat, t2: nat, b: nat, level: nat)
    requires 1 <= level <= 4
    requires !Linked(Word(m, Slot(t1, a, level)), level) || !Linked(Word(m, Slot(t2, b, level)), level)
    ensures Alias(m, t1, a, t2, b, level) <==> t1 == t2 && SameBelow(a, b, level)
  {
  }

  /** Aliases translate together. */
  lemma {:induction false} AliasSome(m: Mem, t1: nat, a: nat, t2: nat, b: nat, level: nat)
    requires 1 <= level <= 4 && Alias(m, t1, a, t2, b, level)
    ensures Walk(m, t1, a, level).Some? <==> Walk(m, t2, b, level).Some?
    ensures OnLargePage(m, t1, level, a) <==> OnLargePage(m, t2, level, b)
    decreases level
  {
    var e1, e2 := Word(m, Slot(t1, a, level)), Word(m, Slot(t2, b, level));
    if level >= 2 && Linked(e1, level) && Linked(e2, level) {
      AliasStep(m, t1, a, t2, b, level, AddrOf(e1), AddrOf(e2));
      AliasSome(m, AddrOf(e1), a, AddrOf(e2), b, level - 1);
    } else {
      AliasEnd(m, t1, a, t2, b, level);
    }
  }

  // ---------------------------------------------------------------- private tables

  /** A walk through private tables meets another walk only in the same space and for the same page. */
  lemma {:induction false} AliasPrivate(m: Mem, own: Own, t1: nat, r1: nat, a: nat, t2: nat, r2: nat, b: nat,
    level: nat)
    requires Tree(m, own) && 1 <= level <= 3 && t1 in own && own[t1] == Table(r1, level, Prefix(a, level))
    requires OnPath(own, t2, r2, level, b) && Alias(m, t1, a, t2, b, level)
    ensures r1 == r2 && Page(a) == Page(b)
    decreases level
  {
    if t1 == t2 && SameBelow(a, b, level) {
      SamePageBelow(a, b, level);
    } else {
      var e1, e2 := Word(m, Slot(t1, a, level)), Word(m, Slot(t2, b, level));
      assert EntryOk(m, own, t1, Index(a, level));
      PrefixStep(a, level);
      Descend(m, own, t2, r2, level, b);
      AliasPrivate(m, own, AddrOf(e1), r1, a, AddrOf(e2), r2, b, level - 1);
    }
  }

  // ---------------------------------------------------------------- what map_page adds

  /** A table outside own whose only entry is the one for va, and so on down; it may end in pte. */
  ghost predicate Sprout(m: Mem, own: Own, t: nat, va: nat, level: nat, pte: u64)
    requires 1 <= level <= 4
    decreases level, va
  {
    var e := Word(m, Slot(t, va, level));
    && t !in own && (forall i :: 0 <= i < ENTRIES && i != Index(va, level) ==> Entry(m, t, i) == 0)
    && (level == 1 && Present(e) ==> e == pte)
    && (level >= 2 && Present(e) ==> Linked(e, level) && Sprout(m, own, AddrOf(e), va, level - 1, pte))
  }

  /** The entry for a, in a table of a sprout. */
  lemma SproutEntry(m: Mem, own: Own, t: nat, va: nat, level: nat, pte: u64, a: nat)
    requires 1 <= level <= 4 && Sprout(m, own, t, va, level, pte)
    ensures Index(a, level) == Index(va, level) ==> Slot(t, a, level) == Slot(t, va, level)
    ensures Index(a, level) != Index(va, level) ==> Word(m, Slot(t, a, level)) == 0
  {
    assert Entry(m, t, Index(a, level)) == Word(m, Slot(t, a, level));
  }

  /** A sprout translates the addresses that go va's way, if it is complete, and no others. */
  lemma {:induction false} SproutWalk(m: Mem, own: Own, t: nat, va: nat, level: nat, pte: u64, a: nat)
    requires 1 <= level <= 4 && Sprout(m, own, t, va, level, pte)
    ensures !OnLargePage(m, t, level, a)
    ensures Walk(m, t, a, level)
      == if SameBelow(a, va, level) && Walk(m, t, va, level).Some? then Some(AddrOf(pte) + a % PAGE) else None
    decreases level
  {
    SproutEntry(m, own, t, va, level, pte, a);
    var e := Word(m, Slot(t, va, level));
    if level >= 2 && Present(e) && Index(a, level) == Index(va, level) {
      SproutWalk(m, own, AddrOf(e), va, level - 1, pte, a);
    }
  }

  lemma {:induction false} SproutSelf(m: Mem, own: Own, t: nat, va: nat, level: nat, pte: u64, a: nat, b: nat)
    requires 1 <= level <= 4 && Sprout(m, own, t, va, level, pte)
    ensures Alias(m, t, a, t, b, level) <==> SameBelow(a, b, level)
    decreases level
  {
    SproutEntry(m, own, t, va, level, pte, a);
    SproutEntry(m, own, t, va, level, pte, b);
    var e := Word(m, Slot(t, va, level));
    if level >= 2 && Present(e) && Index(a, level) == Index(va, level) && Index(b, level) == Index(va, level) {
      SproutSelf(m, own, AddrOf(e), va, level - 1, pte, a, b);
    }
  }

  /** Fewer tables to keep out of. */
  lemma {:induction false} SproutFewer(m: Mem, own: Own, own1: Own, t: nat, va: nat, level: nat, pte: u64)
    requires 1 <= level <= 4 && Sprout(m, own1, t, va, level, pte) && forall x :: x in own ==> x in own1
    ensures Sprout(m, own, t, va, level, pte)
    decreases level
  {
    var e := Word(m, Slot(t, va, level));
    if level >= 2 && Present(e) {
      SproutFewer(m, own, own1, AddrOf(e), va, level - 1, pte);
    }
  }

  /** A new table, empty and linked in. */
  lemma {:induction false} FreshLink(s: State, own: Own, t: nat, va: nat, level: nat, user: bool)
    returns (f: nat, s1: State)
    requires Roles(own) && Fresh(s.pending, own) && s.pending != [] && t in own && 2 <= level <= 4
    requires !Present(Word(s.mem, Slot(t, va, level)))
    ensures EnsureTable(s, Slot(t, va, level), user) == (Ok(f), s1) && f == s.pending[0] && s1.pending == s.pending[1..]
    ensures f !in own && f % PAGE == 0 && Agree(s.mem, s1.mem, own, t, Index(va, level))
    ensures Leads(s1.mem, t, va, level, f) && forall i :: 0 <= i < ENTRIES ==> Entry(s1.mem, f, i) == 0
  {
    f, s1 := s.pending[0], EnsureTable(s, Slot(t, va, level), user).1;
    LinkAgrees(s.mem, own, t, Index(va, level), f, TableEntry(f, user));
    TableEntryBits(f, user, level);
    EnsureNew(s, Slot(t, va, level), user);
  }

  /** Below an empty table outside own, map_page changes no table of own and grows a sprout. */
  lemma {:induction false} BelowFresh(s: State, own: Own, own1: Own, t: nat, va: nat, level: nat, pte: u64, user: bool)
    requires Roles(own) && t !in own && t % PAGE == 0 && 1 <= level <= 4 && own1 == own[t := Kernel(level)]
    requires Fresh(s.pending, own1) && forall i :: 0 <= i < ENTRIES ==> Entry(s.mem, t, i) == 0
    ensures var m' := MapFrom(s, t, va, level, pte, user).1.mem;
      SameTables(s.mem, m', own) && Sprout(m', own, t, va, level, pte)
    decreases level
  {
    var i := Index(va, level);
    assert Entry(s.mem, t, i) == 0;
    if level == 1 {
      WriteAgrees(s.mem, own1, t, i, pte);
      SproutLeaf(s.mem, own, own1, t, va, pte);
    } else if s.pending == [] {
    } else {
      var f, s1 := FreshLink(s, own1, t, va, level, user);
      MapFromNew(s, s1, t, level, va, pte, user, f);
      var own2 := own1[f := Kernel(level - 1)];
      FreshRest(s.pending, own1, own2);
      BelowFresh(s1, own1, own2, f, va, level - 1, pte, user);
      SproutLink(s.mem, s1.mem, MapFrom(s1, f, va, level - 1, pte, user).1.mem, own, own1, t, va, level, pte, f);
    }
  }

  lemma {:induction false} SproutLeaf(m: Mem, own: Own, own1: Own, t: nat, va: nat, pte: u64)
    requires t !in own && own1 == own[t := Kernel(1)] && Agree(m, m[Slot(t, va, 1) := pte], own1, t, Index(va, 1))
    requires forall i :: 0 <= i < ENTRIES ==> Entry(m, t, i) == 0
    ensures var m' := m[Slot(t, va, 1) := pte]; SameTables(m, m', own) && Sprout(m', own, t, va, 1, pte)
  {
    var m' := m[Slot(t, va, 1) := pte];
    forall i | 0 <= i < ENTRIES && i != Index(va, 1) ensures Entry(m', t, i) == 0 {
      assert Entry(m', t, i) == Entry(m, t, i);
    }
  }

  lemma {:induction false} SproutLink(m: Mem, m1: Mem, m': Mem, own: Own, own1: Own, t: nat, va: nat, level: nat,
    pte: u64, f: nat)
    requires 2 <= level <= 4 && t !in own && own1 == own[t := Kernel(level)]
    requires forall i :: 0 <= i < ENTRIES ==> Entry(m, t, i) == 0
    requires Agree(m, m1, own1, t, Index(va, level)) && Leads(m1, t, va, level, f)
    requires SameTables(m1, m', own1) && Sprout(m', own1, f, va, level - 1, pte)
    ensures SameTables(m, m', own) && Sprout(m', own, t, va, level, pte)
  {
    SproutFewer(m', own, own1, f, va, level - 1, pte);
    assert Entry(m', t, Index(va, level)) == Entry(m1, t, Index(va, level));
    forall i | 0 <= i < ENTRIES && i != Index(va, level) ensures Entry(m', t, i) == 0 {
      assert Entry(m', t, i) == Entry(m1, t, i) == Entry(m, t, i);
    }
    forall x, i | x in own && 0 <= i < ENTRIES ensures Entry(m', x, i) == Entry(m, x, i) {
      assert Entry(m', x, i) == Entry(m1, x, i);
    }
  }

  // ---------------------------------------------------------------- one edit of the tables

  /** The walk for a from t comes to table t0 of level l0. */
  predicate Arrives(m: Mem, t: nat, a: nat, level: nat, t0: nat, l0: nat)
    requires 1 <= level <= 4
    decreases level, a
  {
    var e := Word(m, Slot(t, a, level));
    if level <= l0 then level == l0 && t == t0
    else Linked(e, level) && level >= 2 && Arrives(m, AddrOf(e), a, level - 1, t0, l0)
  }

  /** All that map_page and unmap_page do to the tables: the entry for va in table t0, where its walk ended,
      is now pte or the link to a sprout. */
  ghost predicate Edited(m: Mem, m': Mem, own: Own, t0: nat, l0: nat, va: nat, pte: u64) {
    && t0 in own && own[t0].level == l0 && 1 <= l0 <= 4 && Agree(m, m', own, t0, Index(va, l0))
    && var e, e' := Word(m, Slot(t0, va, l0)), Word(m', Slot(t0, va, l0));
    if l0 == 1 then e' == pte
    else !Present(e) && Linked(e', l0) && Sprout(m', own, AddrOf(e'), va, l0 - 1, pte)
  }

  lemma AgreeSlot(m: Mem, m': Mem, own: Own, t0: nat, i0: nat, t: nat, a: nat, level: nat)
    requires 1 <= level <= 4 && Agree(m, m', own, t0, i0) && t in own && !(t == t0 && Index(a, level) == i0)
    ensures Word(m', Slot(t, a, level)) == Word(m, Slot(t, a, level))
  {
    assert Entry(m', t, Index(a, level)) == Entry(m, t, Index(a, level));
  }

  /** What an edit does to a walk. */
  lemma {:induction false} EditWalk(m: Mem, m': Mem, own: Own, t0: nat, l0: nat, va: nat, pte: u64, t: nat, r: nat,
    a: nat, level: nat)
    requires Tree(m, own) && OnPath(own, t, r, level, a) && Edited(m, m', own, t0, l0, va, pte)
    ensures Walk(m', t, a, level)
      == if Arrives(m, t, a, level, t0, l0) && SameBelow(a, va, l0)
         then if Walk(m', t0, va, l0).Some? then Some(AddrOf(pte) + a % PAGE) else None
         else Walk(m, t, a, level)
    decreases level
  {
    if t == t0 && Index(a, level) == Index(va, l0) {
      EditEnd(m, m', own, t0, l0, va, pte, a);
    } else {
      AgreeSlot(m, m', own, t0, Index(va, l0), t, a, level);
      var e := Word(m, Slot(t, a, level));
      if Linked(e, level) {
        Descend(m, own, t, r, level, a);
        EditWalk(m, m', own, t0, l0, va, pte, AddrOf(e), r, a, level - 1);
      }
    }
  }

  lemma {:induction false} EditEnd(m: Mem, m': Mem, own: Own, t0: nat, l0: nat, va: nat, pte: u64, a: nat)
    requires Edited(m, m', own, t0, l0, va, pte) && Index(a, l0) == Index(va, l0)
    ensures Walk(m', t0, a, l0)
      == if SameBelow(a, va, l0)
         then if Walk(m', t0, va, l0).Some? then Some(AddrOf(pte) + a % PAGE) else None
         else Walk(m, t0, a, l0)
    ensures OnLargePage(m', t0, l0, a) <==> OnLargePage(m, t0, l0, a)
  {
    assert Slot(t0, a, l0) == Slot(t0, va, l0);
    if l0 >= 2 {
      EditSprout(m', own, t0, l0, va, pte, a, AddrOf(Word(m', Slot(t0, va, l0))));
      assert Walk(m, t0, a, l0) == None && !OnLargePage(m, t0, l0, a);
    }
  }

  lemma {:induction false} EditSprout(m': Mem, own: Own, t0: nat, l0: nat, va: nat, pte: u64, a: nat, c: nat)
    requires 2 <= l0 <= 4 && Leads(m', t0, va, l0, c) && Sprout(m', own, c, va, l0 - 1, pte)
    requires Index(a, l0) == Index(va, l0)
    ensures Walk(m', t0, a, l0)
      == if SameBelow(a, va, l0) && Walk(m', t0, va, l0).Some? then Some(AddrOf(pte) + a % PAGE) else None
    ensures !OnLargePage(m', t0, l0, a)
  {
    LeadsWalk(m', t0, a, l0, c);
    LeadsWalk(m', t0, va, l0, c);
    SproutWalk(m', own, c, va, l0 - 1, pte, a);
  }

  lemma {:induction false} EditLarge(m: Mem, m': Mem, own: Own, t0: nat, l0: nat, va: nat, pte: u64, t: nat, r: nat,
    a: nat, level: nat)
    requires Tree(m, own) && OnPath(own, t, r, level, a) && Edited(m, m', own, t0, l0, va, pte)
    ensures OnLargePage(m', t, level, a) <==> OnLargePage(m, t, level, a)
    decreases level
  {
    if t == t0 && Index(a, level) == Index(va, l0) {
      EditEnd(m, m', own, t0, l0, va, pte, a);
    } else {
      AgreeSlot(m, m', own, t0, Index(va, l0), t, a, level);
      var e := Word(m, Slot(t, a, level));
      if Linked(e, level) {
        Descend(m, own, t, r, level, a);
        EditLarge(m, m', own, t0, l0, va, pte, AddrOf(e), r, a, level - 1);
      }
    }
  }

  /** The walks that an edit concerns are those of the aliases. */
  lemma {:induction false} AliasMeets(m: Mem, t1: nat, a: nat, t: nat, va: nat, level: nat, t0: nat, l0: nat)
    requires 1 <= l0 <= level <= 4 && Arrives(m, t, va, level, t0, l0) && !Linked(Word(m, Slot(t0, va, l0)), l0)
    ensures Alias(m, t1, a, t, va, level) <==> Arrives(m, t1, a, level, t0, l0) && SameBelow(a, va, l0)
    decreases level
  {
    var e1, e := Word(m, Slot(t1, a, level)), Word(m, Slot(t, va, level));
    if level == l0 {
      AliasEnd(m, t1, a, t, va, level);
    } else if Linked(e1, level) {
      AliasStep(m, t1, a, t, va, level, AddrOf(e1), AddrOf(e));
      AliasMeets(m, AddrOf(e1), a, AddrOf(e), va, level - 1, t0, l0);
    } else {
      AliasEnd(m, t1, a, t, va, level);
    }
  }

  /** Walks below an edited table do not meet the sprout. */
  lemma {:induction false} SproutApart(m: Mem, m': Mem, own: Own, t0: nat, l0: nat, va: nat, pte: u64, s: nat, a: nat,
    t: nat, r: nat, b: nat, level: nat)
    requires Tree(m, own) && OnPath(own, t, r, level, b) && Edited(m, m', own, t0, l0, va, pte) && level < l0
    requires Sprout(m', own, s, va, level, pte)
    ensures !Alias(m', s, a, t, b, level) && !Alias(m', t, b, s, a, level)
    decreases level
  {
    AgreeSlot(m, m', own, t0, Index(va, l0), t, b, level);
    SproutEntry(m', own, s, va, level, pte, a);
    var e, e2 := Word(m', Slot(s, va, level)), Word(m, Slot(t, b, level));
    if level >= 2 && Present(e) && Linked(e2, level) {
      Descend(m, own, t, r, level, b);
      SproutApart(m, m', own, t0, l0, va, pte, AddrOf(e), a, AddrOf(e2), r, b, level - 1);
    }
  }

  /** An edit makes no aliases and parts none. */
  lemma {:induction false} EditAlias(m: Mem, m': Mem, own: Own, t0: nat, l0: nat, va: nat, pte: u64, t1: nat, r1: nat,
    a: nat, t2: nat, r2: nat, b: nat, level: nat)
    requires Tree(m, own) && OnPath(own, t1, r1, level, a) && OnPath(own, t2, r2, level, b)
    requires Edited(m, m', own, t0, l0, va, pte)
    ensures Alias(m', t1, a, t2, b, level) <==> Alias(m, t1, a, t2, b, level)
    decreases level
  {
    var here1, here2 := t1 == t0 && Index(a, level) == Index(va, l0), t2 == t0 && Index(b, level) == Index(va, l0);
    if here1 && here2 {
      EditAliasBoth(m, m', own, t0, l0, va, pte, a, b);
    } else if here1 {
      EditAliasOne(m, m', own, t0, l0, va, pte, a, t2, r2, b);
    } else if here2 {
      EditAliasOne(m, m', own, t0, l0, va, pte, b, t1, r1, a);
    } else {
      AgreeSlot(m, m', own, t0, Index(va, l0), t1, a, level);
      AgreeSlot(m, m', own, t0, Index(va, l0), t2, b, level);
      var e1, e2 := Word(m, Slot(t1, a, level)), Word(m, Slot(t2, b, level));
      if Linked(e1, level) && Linked(e2, level) {
        Descend(m, own, t1, r1, level, a);
        Descend(m, own, t2, r2, level, b);
        EditAlias(m, m', own, t0, l0, va, pte, AddrOf(e1), r1, a, AddrOf(e2), r2, b, level - 1);
      }
    }
  }

  lemma {:induction false} EditAliasBoth(m: Mem, m': Mem, own: Own, t0: nat, l0: nat, va: nat, pte: u64, a: nat, b: nat)
    requires Edited(m, m', own, t0, l0, va, pte)
    requires Index(a, l0) == Index(va, l0) && Index(b, l0) == Index(va, l0)
    ensures Alias(m', t0, a, t0, b, l0) <==> Alias(m, t0, a, t0, b, l0)
  {
    assert Slot(t0, a, l0) == Slot(t0, va, l0) && Slot(t0, b, l0) == Slot(t0, va, l0);
    if l0 >= 2 {
      SproutSelf(m', own, AddrOf(Word(m', Slot(t0, va, l0))), va, l0 - 1, pte, a, b);
    }
  }

  lemma {:induction false} EditAliasOne(m: Mem, m': Mem, own: Own, t0: nat, l0: nat, va: nat, pte: u64, a: nat,
    t: nat, r: nat, b: nat)
    requires Tree(m, own) && Edited(m, m', own, t0, l0, va, pte) && Index(a, l0) == Index(va, l0)
    requires OnPath(own, t, r, l0, b) && !(t == t0 && Index(b, l0) == Index(va, l0))
    ensures !Alias(m', t0, a, t, b, l0) && !Alias(m, t0, a, t, b, l0)
    ensures !Alias(m', t, b, t0, a, l0) && !Alias(m, t, b, t0, a, l0)
  {
    assert Slot(t0, a, l0) == Slot(t0, va, l0);
    AgreeSlot(m, m', own, t0, Index(va, l0), t, b, l0);
    var e := Word(m, Slot(t, b, l0));
    if l0 >= 2 && Linked(e, l0) {
      Descend(m, own, t, r, l0, b);
      var c := AddrOf(Word(m', Slot(t0, va, l0)));
      SproutApart(m, m', own, t0, l0, va, pte, c, a, AddrOf(e), r, b, l0 - 1);
    }
  }

  // ---------------------------------------------------------------- map_page and unmap_page are edits

  /** map_page changes no table, or it is an edit where the walk for va ended. */
  lemma {:induction false} MapEdits(s: State, own: Own, t: nat, r: nat, level: nat, va: nat, pte: u64, user: bool)
    returns (t0: nat, l0: nat)
    requires Tree(s.mem, own) && Fresh(s.pending, own) && OnPath(own, t, r, level, va)
    ensures var (res, s') := MapFrom(s, t, va, level, pte, user);
      || (res.Err? && s'.mem == s.mem)
      || (&& Edited(s.mem, s'.mem, own, t0, l0, va, pte) && l0 <= level && Arrives(s.mem, t, va, level, t0, l0)
          && !Present(Word(s.mem, Slot(t0, va, l0))))
    decreases level
  {
    var e := Word(s.mem, Slot(t, va, level));
    t0, l0 := t, level;
    if Linked(e, level) {
      Descend(s.mem, own, t, r, level, va);
      MapFromOld(s, t, level, va, pte, user, AddrOf(e));
      t0, l0 := MapEdits(s, own, AddrOf(e), r, level - 1, va, pte, user);
    } else if Present(e) {
    } else if level == 1 {
      WriteAgrees(s.mem, own, t, Index(va, 1), pte);
    } else if s.pending != [] {
      MapSprouts(s, own, t, va, level, pte, user);
    }
  }

  lemma {:induction false} MapSprouts(s: State, own: Own, t: nat, va: nat, level: nat, pte: u64, user: bool)
    requires Roles(own) && Fresh(s.pending, own) && t in own && own[t].level == level && 2 <= level <= 4
    requires !Present(Word(s.mem, Slot(t, va, level))) && s.pending != []
    ensures Edited(s.mem, MapFrom(s, t, va, level, pte, user).1.mem, own, t, level, va, pte)
  {
    var f, s1 := FreshLink(s, own, t, va, level, user);
    MapFromNew(s, s1, t, level, va, pte, user, f);
    var own1 := own[f := Kernel(level - 1)];
    FreshRest(s.pending, own, own1);
    BelowFresh(s1, own, own1, f, va, level - 1, pte, user);
    SproutEdits(s.mem, s1.mem, MapFrom(s1, f, va, level - 1, pte, user).1.mem, own, t, va, level, pte, f);
  }

  lemma {:induction false} SproutEdits(m: Mem, m1: Mem, m': Mem, own: Own, t: nat, va: nat, level: nat, pte: u64,
    f: nat)
    requires t in own && own[t].level == level && 2 <= level <= 4 && !Present(Word(m, Slot(t, va, level)))
    requires Agree(m, m1, own, t, Index(va, level)) && Leads(m1, t, va, level, f)
    requires SameTables(m1, m', own) && Sprout(m', own, f, va, level - 1, pte)
    ensures Edited(m, m', own, t, level, va, pte)
  {
    assert Entry(m', t, Index(va, level)) == Entry(m1, t, Index(va, level));
  }

  /** unmap_page leaves memory alone, when the page does not translate or is part of a large page, or it is an
      edit at the page table that the walk for va comes to. */
  lemma {:induction false} UnmapEdits(m: Mem, own: Own, t: nat, r: nat, level: nat, va: nat) returns (t0: nat)
    requires Tree(m, own) && OnPath(own, t, r, level, va)
    ensures var m' := UnmapFrom(m, t, va, level);
      || (m' == m && (Walk(m, t, va, level) == None || OnLargePage(m, t, level, va)))
      || (&& Edited(m, m', own, t0, 1, va, 0) && Arrives(m, t, va, level, t0, 1) && Walk(m', t0, va, 1) == None
          && !OnLargePage(m, t, level, va))
    decreases level
  {
    var e := Word(m, Slot(t, va, level));
    t0 := t;
    if level == 1 {
      WriteAgrees(m, own, t, Index(va, 1), 0);
    } else if Linked(e, level) {
      Descend(m, own, t, r, level, va);
      UnmapFromOld(m, t, level, va, AddrOf(e));
      LeadsWalk(m, t, va, level, AddrOf(e));
      t0 := UnmapEdits(m, own, AddrOf(e), r, level - 1, va);
    }
  }

  // ---------------------------------------------------------------- the main results

  /** map_page, exactly: of all addresses in all spaces, the aliases of the mapped page now lead into the frame,
      and every other address leads where it led. */
  lemma {:induction false} MapExactly(s: State, own: Own, root: nat, va: nat, frame: u64, flags: u64, r: nat, a: nat)
    requires Tree(s.mem, own) && Fresh(s.pending, own) && Root(own, root) && Root(own, r)
    ensures var (res, s') := MapPage(s, root, va, frame, flags);
      Translate(s'.mem, r, a)
      == if res.Ok? && Alias(s.mem, r, a, root, va, 4) then Some(AddrOf(Pte(frame, flags)) + a % PAGE)
         else Translate(s.mem, r, a)
  {
    RootOnPath(own, root, va);
    RootOnPath(own, r, a);
    PteTarget(frame, flags);
    if va % PAGE == 0 && frame % PAGE == 0 {
      MapFromExactly(s, own, root, root, 4, va, Pte(frame, flags), User(flags), r, r, a);
    }
  }

  /** The same from any level down. */
  lemma {:induction false} MapFromExactly(s: State, own: Own, t: nat, r: nat, level: nat, va: nat, pte: u64, user: bool,
    t1: nat, r1: nat, a: nat)
    requires Tree(s.mem, own) && Fresh(s.pending, own) && OnPath(own, t, r, level, va) && OnPath(own, t1, r1, level, a)
    requires Present(pte)
    ensures var (res, s') := MapFrom(s, t, va, level, pte, user);
      Walk(s'.mem, t1, a, level)
      == if res.Ok? && Alias(s.mem, t1, a, t, va, level) then Some(AddrOf(pte) + a % PAGE)
         else Walk(s.mem, t1, a, level)
  {
    var own' := MapFromKeeps(s, own, t, r, level, va, false, pte, user);
    var (res, s') := MapFrom(s, t, va, level, pte, user);
    if res.Ok? {
      var t0, l0 := MapEdits(s, own, t, r, level, va, pte, user);
      EditExactly(s.mem, s'.mem, own, t0, l0, t, r, level, va, pte, t1, r1, a);
    }
  }

  /** What an edit does to a walk, said with aliases. */
  lemma {:induction false} EditExactly(m: Mem, m': Mem, own: Own, t0: nat, l0: nat, t: nat, r: nat, level: nat, va: nat,
    pte: u64, t1: nat, r1: nat, a: nat)
    requires Tree(m, own) && OnPath(own, t, r, level, va) && OnPath(own, t1, r1, level, a)
    requires Edited(m, m', own, t0, l0, va, pte) && l0 <= level && Arrives(m, t, va, level, t0, l0)
    requires !Linked(Word(m, Slot(t0, va, l0)), l0)
    ensures Walk(m', t1, a, level)
      == if Alias(m, t1, a, t, va, level)
         then if Walk(m', t, va, level).Some? then Some(AddrOf(pte) + a % PAGE) else None
         else Walk(m, t1, a, level)
  {
    SameSelf(va, l0);
    EditWalk(m, m', own, t0, l0, va, pte, t, r, va, level);
    EditWalk(m, m', own, t0, l0, va, pte, t1, r1, a, level);
    AliasMeets(m, t1, a, t, va, level, t0, l0);
  }

  lemma {:induction false} SameSelf(a: nat, level: nat)
    requires level <= 4
    ensures SameBelow(a, a, level)
  {
    if level == 0 {
    } else {
      SameSelf(a, level - 1);
    }
  }

  /** unmap_page, exactly: the aliases of the page no longer translate, unless the page is part of a large one,
      and every other address leads where it led. */
  lemma {:induction false} UnmapExactly(m: Mem, own: Own, root: nat, va: nat, r: nat, a: nat)
    requires Tree(m, own) && Root(own, root) && Root(own, r)
    ensures Translate(UnmapPage(m, root, va), r, a)
      == if va % PAGE == 0 && Alias(m, r, a, root, va, 4) && !OnLargePage(m, root, 4, va) then None
         else Translate(m, r, a)
  {
    RootOnPath(own, root, va);
    RootOnPath(own, r, a);
    if va % PAGE == 0 {
      var t0 := UnmapEdits(m, own, root, root, 4, va);
      var m' := UnmapPage(m, root, va);
      if m' == m && (Translate(m, root, va) == None || OnLargePage(m, root, 4, va)) {
        if Alias(m, r, a, root, va, 4) {
          AliasSome(m, r, a, root, va, 4);
        }
      } else {
        EditWalk(m, m', own, t0, 1, va, 0, r, r, a, 4);
        AliasMeets(m, r, a, root, va, 4, t0, 1);
      }
    }
  }

  /** Two memories have the same aliases and the same large pages. */
  ghost predicate SameAliases(m: Mem, m': Mem, own: Own) {
    && (forall r1, a, r2, b: nat :: Root(own, r1) && Root(own, r2) ==>
          (Alias(m', r1, a, r2, b, 4) <==> Alias(m, r1, a, r2, b, 4)))
    && (forall r, a: nat :: Root(own, r) ==> (OnLargePage(m', r, 4, a) <==> OnLargePage(m, r, 4, a)))
  }

  lemma {:induction false} EditSameAliases(m: Mem, m': Mem, own: Own, t0: nat, l0: nat, va: nat, pte: u64)
    requires Tree(m, own) && Edited(m, m', own, t0, l0, va, pte)
    ensures SameAliases(m, m', own)
  {
    forall r1, a, r2, b: nat | Root(own, r1) && Root(own, r2)
      ensures Alias(m', r1, a, r2, b, 4) <==> Alias(m, r1, a, r2, b, 4)
    {
      RootOnPath(own, r1, a);
      RootOnPath(own, r2, b);
      EditAlias(m, m', own, t0, l0, va, pte, r1, r1, a, r2, r2, b, 4);
    }
    forall r, a: nat | Root(own, r) ensures OnLargePage(m', r, 4, a) <==> OnLargePage(m, r, 4, a) {
      RootOnPath(own, r, a);
      EditLarge(m, m', own, t0, l0, va, pte, r, r, a, 4);
    }
  }

  /** A change outside the tables leaves them as they are. */
  lemma {:induction false} DataAliases(m: Mem, m': Mem, own: Own)
    requires Tree(m, own) && SameTables(m, m', own)
    ensures SameAliases(m, m', own)
  {
    forall r1, a, r2, b: nat | Root(own, r1) && Root(own, r2)
      ensures Alias(m', r1, a, r2, b, 4) <==> Alias(m, r1, a, r2, b, 4)
    {
      RootOnPath(own, r1, a);
      RootOnPath(own, r2, b);
      AliasSame(m, m', own, r1, r1, a, r2, r2, b, 4);
    }
    forall r, a: nat | Root(own, r) ensures OnLargePage(m', r, 4, a) <==> OnLargePage(m, r, 4, a) {
      RootOnPath(own, r, a);
      LargeSame(m, m', own, r, r, a, 4);
    }
  }

  lemma {:induction false} AliasSame(m: Mem, m': Mem, own: Own, t1: nat, r1: nat, a: nat, t2: nat, r2: nat, b: nat,
    level: nat)
    requires Tree(m, own) && OnPath(own, t1, r1, level, a) && OnPath(own, t2, r2, level, b) && SameTables(m, m', own)
    ensures Alias(m', t1, a, t2, b, level) <==> Alias(m, t1, a, t2, b, level)
    decreases level
  {
    assert Entry(m', t1, Index(a, level)) == Entry(m, t1, Index(a, level));
    assert Entry(m', t2, Index(b, level)) == Entry(m, t2, Index(b, level));
    var e1, e2 := Word(m, Slot(t1, a, level)), Word(m, Slot(t2, b, level));
    if Linked(e1, level) && Linked(e2, level) {
      Descend(m, own, t1, r1, level, a);
      Descend(m, own, t2, r2, level, b);
      AliasSame(m, m', own, AddrOf(e1), r1, a, AddrOf(e2), r2, b, level - 1);
    }
  }

  lemma {:induction false} LargeSame(m: Mem, m': Mem, own: Own, t: nat, r: nat, a: nat, level: nat)
    requires Tree(m, own) && OnPath(own, t, r, level, a) && SameTables(m, m', own)
    ensures OnLargePage(m', t, level, a) <==> OnLargePage(m, t, level, a)
    decreases level
  {
    assert Entry(m', t, Index(a, level)) == Entry(m, t, Index(a, level));
    var e := Word(m, Slot(t, a, level));
    if Linked(e, level) {
      Descend(m, own, t, r, level, a);
      LargeSame(m, m', own, AddrOf(e), r, a, level - 1);
    }
  }

  /** map_page makes no aliases and parts none, whatever it answers. */
  lemma {:induction false} MapAliases(s: State, own: Own, root: nat, va: nat, frame: u64, flags: u64)
    requires Tree(s.mem, own) && Fresh(s.pending, own) && Root(own, root)
    ensures SameAliases(s.mem, MapPage(s, root, va, frame, flags).1.mem, own)
  {
    if va % PAGE == 0 && frame % PAGE == 0 {
      var pte, s' := Pte(frame, flags), MapPage(s, root, va, frame, flags).1;
      RootOnPath(own, root, va);
      var t0, l0 := MapEdits(s, own, root, root, 4, va, pte, User(flags));
      if s'.mem != s.mem {
        EditSameAliases(s.mem, s'.mem, own, t0, l0, va, pte);
      }
    }
  }

  /** Nor does unmap_page. */
  lemma {:induction false} UnmapAliases(m: Mem, own: Own, root: nat, va: nat)
    requires Tree(m, own) && Root(own, root)
    ensures SameAliases(m, UnmapPage(m, root, va), own)
  {
    if va % PAGE == 0 {
      RootOnPath(own, root, va);
      var t0 := UnmapEdits(m, own, root, root, 4, va);
      if UnmapPage(m, root, va) != m {
        EditSameAliases(m, UnmapPage(m, root, va), own, t0, 1, va, 0);
      }
    }
  }
}
