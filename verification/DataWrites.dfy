/** Memory that changes only outside the tables keeps the tables' shape and every translation. */
module DataWrites {
  import opened Alignment
  import opened LittleEndian
  import opened PageTables
  import opened TableTrees
  import opened PhysBytes

  lemma {:induction false} SameTree(m: Mem, m': Mem, own: Own)
    requires Tree(m, own) && SameTables(m, m', own)
    ensures Tree(m', own)
  {
    forall t, i | t in own && 0 <= i < ENTRIES ensures EntryOk(m', own, t, i) {
      assert EntryOk(m, own, t, i);
      assert Entry(m', t, i) == Entry(m, t, i);
    }
  }

  lemma {:induction false} SameTranslation(m: Mem, m': Mem, own: Own, root: nat, a: nat)
    requires Tree(m, own) && SameTables(m, m', own) && Root(own, root)
    ensures Translate(m', root, a) == Translate(m, root, a)
  {
    RootOnPath(own, root, a);
    WalkSame(m, m', own, root, root, 4, a);
  }

  lemma {:induction false} ZeroSame(m: Mem, f: nat, own: Own)
    requires Roles(own) && f % PAGE == 0 && f !in own
    ensures SameTables(m, ZeroPage(m, f), own)
  {
    forall t, i | t in own && 0 <= i < ENTRIES ensures Entry(ZeroPage(m, f), t, i) == Entry(m, t, i) {
      ZeroWordsAt(m, f, ENTRIES, t + 8 * i);
      OtherPage(t, i, f);
    }
  }

  lemma {:induction false} BytesSame(m: Mem, f: nat, a: nat, data: seq<byte>, own: Own)
    requires Roles(own) && f % PAGE == 0 && f !in own && f <= a && a + |data| <= f + PAGE
    ensures SameTables(m, SetBytes(m, a, data), own)
  {
    forall t, i | t in own && 0 <= i < ENTRIES ensures Entry(SetBytes(m, a, data), t, i) == Entry(m, t, i) {
      SlotPage(t, i);
      OutsideFrame(t + 8 * i, f);
      SetBytesKeeps(m, f, a, data, t + 8 * i);
    }
  }

  lemma OutsideFrame(x: nat, f: nat)
    requires f % PAGE == 0 && x - x % PAGE != f
    ensures !(f <= x < f + PAGE)
  {
  }
}
