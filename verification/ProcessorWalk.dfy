/** The processor's own walk through four levels of tables, bit by bit: section 4.5 of the Intel 64 and IA-32
    Architectures Software Developer's Manual, Volume 3A, and section 4.6 for what the entries allow. */
module ProcessorWalk {
  import opened Alignment
  import opened Options
  import opened PageTables
  import opened AccessRights

  predicate Bit0(e: u64) { e % 2 >= 1 }
  predicate Bit1(e: u64) { e % 4 >= 2 }
  predicate Bit2(e: u64) { e % 8 >= 4 }
  predicate Bit7(e: u64) { e % 0x100 >= 0x80 }
  predicate Bit63(e: u64) { e >= 0x8000_0000_0000_0000 }

  /** Bits 12 to 51, in place. */
  function Base(e: u64): nat {
    var x := e % 0x10_0000_0000_0000;
    x - x % 0x1000
  }

  /** Where the walk has led, and whether user mode, writing and fetching are allowed there. */
  datatype Page = Page(at: nat, user: bool, write: bool, fetch: bool)

  function End(e: u64, offset: nat): Page { Page(Base(e) + offset, Bit2(e), Bit1(e), !Bit63(e)) }

  function Through(e: u64, p: Option<Page>): Option<Page> {
    if p.None? then None
    else Some(Page(p.value.at, Bit2(e) && p.value.user, Bit1(e) && p.value.write, !Bit63(e) && p.value.fetch))
  }

  /** The bits of an address that choose the entry of a table: 39 to 47 for the table that CR3 points to, 30 to 38 for a
      page-directory-pointer table, 21 to 29 for a page directory, 12 to 20 for a page table. */
  function Choice(a: nat, level: nat): nat
    requires 1 <= level <= 4
  {
    match level
    case 4 => a % 0x1_0000_0000_0000 / 0x80_0000_0000
    case 3 => a % 0x80_0000_0000 / 0x4000_0000
    case 2 => a % 0x4000_0000 / 0x20_0000
    case 1 => a % 0x20_0000 / 0x1000
  }

  /** The offset in a page of 1 GiB, 2 MiB or 4 KiB. */
  function Offset(a: nat, level: nat): nat
    requires 1 <= level <= 3
  {
    if level == 3 then a % 0x4000_0000 else if level == 2 then a % 0x20_0000 else a % 0x1000
  }

  /** The walk from a table on; level 4 is the table that CR3 points to. Bit 7 makes an entry of level 3 or 2 a page. */
  function Resolve(m: Mem, t: nat, a: nat, level: nat): Option<Page>
    requires 1 <= level <= 4
    decreases level
  {
    var e := Word(m, t + 8 * Choice(a, level));
    if !Bit0(e) then None
    else if level == 1 || (level != 4 && Bit7(e)) then Some(End(e, Offset(a, level)))
    else Through(e, Resolve(m, Base(e), a, level - 1))
  }

  // ---------------------------------------------------------------- bits

  lemma Regroup(a: nat, low: nat, n: nat, q: nat, h: nat, d: nat, r: nat)
    requires a == low * q + r && q == n * h + d && d < n && r < low
    ensures a == (low * n) * h + (low * d + r) && low * d + r < low * n
  {
    assert low * q == low * (n * h) + low * d;
    assert low * (n * h) == (low * n) * h;
    MulMono(low, d, n - 1);
    assert low * (n - 1) == low * n - low;
  }

  lemma DigitOf(a: nat, low: nat, n: nat)
    requires low > 0 && n > 0
    ensures a % (low * n) / low == a / low % n
  {
    var q, r := a / low, a % low;
    var h, d := q / n, q % n;
    Regroup(a, low, n, q, h, d, r);
    MulAtLeast(low, n);
    ModUnique(a, low * n, h, low * d + r);
    ModUnique(low * d + r, low, d, r);
  }

  lemma UpperHalf(e: nat, half: nat)
    requires half > 0
    ensures e % (2 * half) >= half <==> e / half % 2 == 1
  {
    DigitOf(e, half, 2);
    var x := e % (half * 2);
    if x >= half {
      ModUnique(x, half, 1, x - half);
    } else {
      ModUnique(x, half, 0, x);
    }
  }

  lemma {:induction false} BitsAre(e: u64)
    ensures Bit0(e) <==> Present(e)
    ensures Bit7(e) <==> Huge(e)
    ensures Grant(e) == Rights(Bit2(e), Bit1(e), !Bit63(e))
  {
    UpperHalf(e, 128);
    UpperHalf(e, 4);
    UpperHalf(e, 2);
    assert e / 0x8000_0000_0000_0000 <= 1;
  }

  lemma {:induction false} BaseIs(e: u64)
    ensures Base(e) == AddrOf(e)
  {
    DigitOf(e, 0x1000, 0x100_0000_0000);
  }

  // ---------------------------------------------------------------- the walks agree

  /** A result of the processor's walk is what the model's walk gives, address and rights. */
  predicate Agree(p: Option<Page>, at: Option<nat>, rights: Option<Rights>) {
    match p
    case None => at.None? && rights.None?
    case Some(Page(x, u, w, f)) => at == Some(x) && rights == Some(Rights(u, w, f))
  }

  lemma {:induction false} ChoiceIs(a: nat, level: nat)
    requires 1 <= level <= 4
    ensures Choice(a, level) == Index(a, level)
  {
    match level
    case 4 => DigitOf(a, 0x80_0000_0000, 0x200);
    case 3 => DigitOf(a, 0x4000_0000, 0x200);
    case 2 => DigitOf(a, 0x20_0000, 0x200);
    case 1 => DigitOf(a, 0x1000, 0x200);
  }

  lemma OffsetIs(a: nat, level: nat)
    requires 1 <= level <= 3
    ensures Offset(a, level) == a % Span(level)
  {
  }

  lemma {:induction false} EndAgrees(e: u64, offset: nat)
    ensures Agree(Some(End(e, offset)), Some(AddrOf(e) + offset), Some(Grant(e)))
  {
    BitsAre(e);
    BaseIs(e);
  }

  lemma {:induction false} ThroughAgrees(e: u64, p: Option<Page>, at: Option<nat>, rights: Option<Rights>)
    requires Agree(p, at, rights)
    ensures Agree(Through(e, p), at, Joined(Grant(e), rights))
  {
    BitsAre(e);
  }

  lemma {:induction false} ResolveStep(m: Mem, t: nat, a: nat, level: nat, e: u64)
    requires 1 <= level <= 4 && e == Word(m, Slot(t, a, level))
    ensures !Present(e) ==> Resolve(m, t, a, level) == None
    ensures Present(e) && Leaf(e, level) ==> Resolve(m, t, a, level) == Some(End(e, a % Span(level)))
    ensures Linked(e, level) ==> Resolve(m, t, a, level) == Through(e, Resolve(m, AddrOf(e), a, level - 1))
  {
    ChoiceIs(a, level);
    BitsAre(e);
    if Leaf(e, level) {
      OffsetIs(a, level);
    } else {
      BaseIs(e);
    }
  }

  lemma {:induction false} WalksAgree(m: Mem, t: nat, a: nat, level: nat)
    requires 1 <= level <= 4
    ensures Agree(Resolve(m, t, a, level), Walk(m, t, a, level), Access(m, t, a, level))
    decreases level
  {
    var e := Word(m, Slot(t, a, level));
    ResolveStep(m, t, a, level, e);
    if !Present(e) {
    } else if Leaf(e, level) {
      EndAgrees(e, a % Span(level));
    } else {
      var next := AddrOf(e);
      WalksAgree(m, next, a, level - 1);
      ThroughAgrees(e, Resolve(m, next, a, level - 1), Walk(m, next, a, level - 1), Access(m, next, a, level - 1));
    }
  }

  /** translate gives the address that the processor uses, and none where the processor finds no page; the rights are
      those the processor grants. */
  lemma {:induction false} TranslateIsProcessors(m: Mem, root: nat, a: nat)
    ensures Agree(Resolve(m, root, a, 4), Translate(m, root, a), Access(m, root, a, 4))
  {
    WalksAgree(m, root, a, 4);
  }
}
