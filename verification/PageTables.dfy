/** Four-level page tables held in physical memory: section 4.5 of the Intel 64 and IA-32
    Architectures Software Developer's Manual, Volume 3A. */
module PageTables {
  import opened Alignment
  import opened Options
  import Bits

  const ENTRIES: nat := 512
  const HALF: nat := 256
  const ADDR_LIMIT: nat := 0x10_0000_0000_0000 // 2^52, end of the physical address space
  const VIRT_LIMIT: nat := 0x1_0000_0000_0000  // 2^48, addresses are taken modulo this
  const LOWER_LIMIT: nat := 0x8000_0000_0000   // 2^47, end of the lower half
  const FLAG_PRESENT: nat := 1
  const FLAG_WRITABLE: nat := 2
  const FLAG_USER: nat := 4

  type u64 = x: int | 0 <= x < WORD

  /** Physical memory as 64-bit words by address; absent words read as zero. */
  type Mem = map<nat, u64>

  function Word(m: Mem, a: nat): u64 {
    if a in m then m[a] else 0
  }

  datatype MapError = OutOfMemory | AlreadyMapped
  datatype Result<T> = Ok(value: T) | Err(error: MapError)

  /** Memory together with the frames the allocator has still to hand out. */
  datatype State = State(mem: Mem, pending: seq<u64>)

  // ---------------------------------------------------------------- entries and addresses

  predicate Present(e: nat) { e % 2 == 1 }
  predicate User(e: nat) { e / 4 % 2 == 1 }
  predicate Huge(e: nat) { e / 128 % 2 == 1 }

  /** Bits 12 to 51. */
  function AddrOf(e: nat): nat { e / 4096 % 0x100_0000_0000 * 4096 }

  /** Bytes covered by one entry of a level-L table; level 4 is the root. */
  function Span(level: nat): nat
    requires level <= 5
  {
    match level
    case 0 => 8
    case 1 => 0x1000
    case 2 => 0x20_0000
    case 3 => 0x4000_0000
    case 4 => 0x80_0000_0000
    case 5 => VIRT_LIMIT
  }

  function Index(va: nat, level: nat): (i: nat)
    requires 1 <= level <= 4
    ensures i < ENTRIES
  {
    va / Span(level) % ENTRIES
  }

  /** Which level-L table serves va: the address bits above the table's range. */
  function Prefix(va: nat, level: nat): nat
    requires level <= 4
  {
    va % VIRT_LIMIT / Span(level + 1)
  }

  function Page(va: nat): nat { Prefix(va, 0) }

  predicate LowerHalf(va: nat) { va % VIRT_LIMIT < LOWER_LIMIT }

  /** The entry ends the walk: a page table entry, or a huge page at level 3 or 2. */
  predicate Leaf(e: nat, level: nat) { level == 1 || (level <= 3 && Huge(e)) }

  /** The entry leads to another table. */
  predicate Linked(e: nat, level: nat) { Present(e) && !Leaf(e, level) }

  function Slot(table: nat, va: nat, level: nat): nat
    requires 1 <= level <= 4
  {
    table + 8 * Index(va, level)
  }

  lemma PrefixStep(va: nat, level: nat)
    requires 1 <= level <= 4
    ensures Prefix(va, level - 1) == Prefix(va, level) * ENTRIES + Index(va, level)
    ensures Prefix(va, 4) == 0
  {
    var w, q := va % VIRT_LIMIT, va / VIRT_LIMIT;
    if level == 1 {
      IndexDigit(w, q, 0x1000, 0x20_0000, 0x10_0000_0000);
    } else if level == 2 {
      IndexDigit(w, q, 0x20_0000, 0x4000_0000, 0x800_0000);
    } else if level == 3 {
      IndexDigit(w, q, 0x4000_0000, 0x80_0000_0000, 0x4_0000);
    } else {
      IndexDigit(w, q, 0x80_0000_0000, VIRT_LIMIT, 0x200);
    }
  }

  lemma IndexDigit(w: nat, q: nat, span: nat, above: nat, k: nat)
    requires span > 0 && above == span * ENTRIES && VIRT_LIMIT == span * k && k % ENTRIES == 0
    ensures w / span == w / above * ENTRIES + (w + VIRT_LIMIT * q) / span % ENTRIES
  {
    var d, j := w / span, k / ENTRIES;
    DivDiv(w, span);
    WholeSpans(w, q, span, k);
    assert k * q == ENTRIES * (j * q);
    ModUnique(d + k * q, ENTRIES, d / ENTRIES + j * q, d % ENTRIES);
  }

  lemma WholeSpans(w: nat, q: nat, span: nat, k: nat)
    requires span > 0 && VIRT_LIMIT == span * k
    ensures (w + VIRT_LIMIT * q) / span == w / span + k * q
  {
    var d := w / span;
    assert VIRT_LIMIT * q == span * (k * q);
    assert span * (d + k * q) == span * d + span * (k * q);
    ModUnique(w + VIRT_LIMIT * q, span, d + k * q, w % span);
  }

  lemma DivDiv(w: nat, span: nat)
    requires span > 0
    ensures w / (span * ENTRIES) == w / span / ENTRIES
  {
    var d := w / span;
    var h, l := d / ENTRIES, d % ENTRIES;
    assert w == span * d + w % span && d == ENTRIES * h + l;
    assert w == (span * ENTRIES) * h + (span * l + w % span) by {
      assert span * d == span * (ENTRIES * h) + span * l;
      assert span * (ENTRIES * h) == (span * ENTRIES) * h;
    }
    MulMono(span, l, ENTRIES - 1);
    ModUnique(w, span * ENTRIES, h, span * l + w % span);
  }

  /** Addresses of one page take the same way down. */
  lemma {:induction false} SamePath(a: nat, b: nat, level: nat)
    requires Page(a) == Page(b) && level <= 4
    ensures Prefix(a, level) == Prefix(b, level)
    ensures level >= 1 ==> Index(a, level) == Index(b, level)
  {
    if level == 0 {
    } else {
      SamePath(a, b, level - 1);
      PrefixStep(a, level);
      PrefixStep(b, level);
    }
  }

  // ---------------------------------------------------------------- the operations

  /** `translate`, from the level-L table on. */
  function Walk(m: Mem, table: nat, va: nat, level: nat): Option<nat>
    requires 1 <= level <= 4
    decreases level, va
  {
    var e := Word(m, Slot(table, va, level));
    if !Present(e) then None
    else if Leaf(e, level) then Some(AddrOf(e) + va % Span(level))
    else Walk(m, AddrOf(e), va, level - 1)
  }

  /** A physical frame as the allocator hands it out. */
  predicate FrameOk(f: nat) { f % PAGE == 0 && f + PAGE <= ADDR_LIMIT }

  /** The n words from address a on. */
  predicate InWords(x: nat, a: nat, n: nat) {
    a <= x < a + 8 * n && (x - a) % 8 == 0
  }

  function ZeroWords(m: Mem, a: nat, n: nat): Mem
    decreases n, a
  {
    if n == 0 then m else ZeroWords(m, a, n - 1)[a + 8 * (n - 1) := 0]
  }

  function CopyWords(m: Mem, src: nat, dst: nat, n: nat): Mem
    decreases n, src, dst
  {
    if n == 0 then m else CopyWords(m, src, dst, n - 1)[dst + 8 * (n - 1) := Word(m, src + 8 * (n - 1))]
  }

  lemma {:induction false} ZeroWordsAt(m: Mem, a: nat, n: nat, x: nat)
    ensures Word(ZeroWords(m, a, n), x) == if InWords(x, a, n) then 0 else Word(m, x)
  {
    if n == 0 {
    } else {
      ZeroWordsAt(m, a, n - 1, x);
    }
  }

  lemma {:induction false} CopyWordsAt(m: Mem, src: nat, dst: nat, n: nat, x: nat)
    ensures Word(CopyWords(m, src, dst, n), x) == if InWords(x, dst, n) then Word(m, src + (x - dst)) else Word(m, x)
  {
    if n == 0 {
    } else {
      CopyWordsAt(m, src, dst, n - 1, x);
    }
  }

  function ZeroPage(m: Mem, f: nat): Mem {
    ZeroWords(m, f, ENTRIES)
  }

  /** A link to table f. */
  function TableEntry(f: u64, user: bool): u64 {
    (f + FLAG_PRESENT + FLAG_WRITABLE + if user then FLAG_USER else 0) % WORD
  }

  /** `ensure_table` on the entry at address slot: the table it leads to. */
  function EnsureTable(s: State, slot: nat, user: bool): (Result<nat>, State)
  {
    var e := Word(s.mem, slot);
    if Present(e) then (Ok(AddrOf(e)), s)
    else if s.pending == [] then (Err(OutOfMemory), s)
    else
      var f := s.pending[0];
      (Ok(f), State(ZeroPage(s.mem, f)[slot := TableEntry(f, user)], s.pending[1..]))
  }

  /** Frames as the allocator hands them out. */
  predicate PendingOk(pending: seq<nat>) {
    forall i :: 0 <= i < |pending| ==> FrameOk(pending[i])
  }

  /** `map_page` from the level-L table on; pte is the entry to install. */
  function MapFrom(s: State, table: nat, va: nat, level: nat, pte: u64, user: bool): (Result<()>, State)
    requires 1 <= level <= 4
    decreases level, va
  {
    var slot := Slot(table, va, level);
    if level == 1 then
      if Present(Word(s.mem, slot)) then (Err(AlreadyMapped), s) else (Ok(()), s.(mem := s.mem[slot := pte]))
    else
      var (next, s1) := EnsureTable(s, slot, user);
      if next.Err? then (Err(next.error), s1)
      else if Leaf(Word(s1.mem, slot), level) then (Err(AlreadyMapped), s1)
      else MapFrom(s1, next.value, va, level - 1, pte, user)
  }

  /** flags | PRESENT. */
  function WithPresent(flags: u64): u64 {
    if Present(flags) then flags else flags + FLAG_PRESENT
  }

  /** The entry `map_page` installs: frame | (flags | PRESENT). */
  function Pte(frame: u64, flags: u64): u64 {
    Bits.Pow64();
    Bits.OrBelow(frame, WithPresent(flags), 64);
    Bits.Or(frame, WithPresent(flags), 64)
  }

  function MapPage(s: State, root: nat, va: nat, frame: u64, flags: u64): (Result<()>, State)
  {
    if va % PAGE != 0 || frame % PAGE != 0 then (Err(AlreadyMapped), s)
    else MapFrom(s, root, va, 4, Pte(frame, flags), User(flags))
  }

  /** `unmap_page` from the level-L table on. */
  function UnmapFrom(m: Mem, table: nat, va: nat, level: nat): Mem
    requires 1 <= level <= 4
    decreases level, va
  {
    var slot := Slot(table, va, level);
    if level == 1 then m[slot := 0]
    else
      var e := Word(m, slot);
      if !Present(e) || Leaf(e, level) then m else UnmapFrom(m, AddrOf(e), va, level - 1)
  }

  function UnmapPage(m: Mem, root: nat, va: nat): Mem {
    if va % PAGE != 0 then m else UnmapFrom(m, root, va, 4)
  }

  function Translate(m: Mem, root: nat, va: nat): Option<nat> {
    Walk(m, root, va, 4)
  }

  /** `clone_kernel_pml4`: a fresh root that shares the kernel's upper half. */
  function CloneRoot(s: State, kernel: nat): (Result<nat>, State)
  {
    if s.pending == [] then (Err(OutOfMemory), s)
    else
      var f := s.pending[0];
      var m := ZeroPage(s.mem, f);
      (Ok(f), State(CopyWords(m, kernel + 8 * HALF, f + 8 * HALF, HALF), s.pending[1..]))
  }

  // ---------------------------------------------------------------- what an entry points at

  lemma LowBits(x: nat, k: nat, p: nat)
    requires Bits.Pow2(k) == p
    ensures Bits.Low(x, k) == x % p
  {
    Bits.LowSplits(x, k);
    ModUnique(x, Bits.Pow2(k), Bits.Shr(x, k), Bits.Low(x, k));
  }

  lemma AddrOfLow(e: nat)
    ensures AddrOf(e) == 4096 * Bits.Low(e / 4096, 40)
  {
    Bits.Pow40();
    LowBits(e / 4096, 40, 0x100_0000_0000);
  }

  lemma {:induction false} AddrOfOr(a: nat, b: nat)
    ensures AddrOf(Bits.Or(a, b, 64)) == 4096 * Bits.Or(a / 4096, b / 4096, 40)
  {
    var e := Bits.Or(a, b, 64);
    AddrOfLow(e);
    Bits.PageNumber(a);
    Bits.PageNumber(b);
    Bits.PageNumber(e);
    Bits.OrShr(a, b, 64, 12);
    Bits.OrLow(a / 4096, b / 4096, 52, 40);
  }

  lemma PresentPage(flags: u64)
    ensures WithPresent(flags) / 4096 == flags / 4096
  {
  }

  /** An installed entry is present, and its page number is the or of the frame's and of the bits that the
      flags have in that place. */
  lemma {:induction false} PteTarget(frame: u64, flags: u64)
    ensures Present(Pte(frame, flags))
    ensures AddrOf(Pte(frame, flags)) == 4096 * Bits.Or(frame / 4096, flags / 4096, 40)
  {
    Bits.OrOdd(frame, WithPresent(flags), 64);
    AddrOfOr(frame, WithPresent(flags));
    PresentPage(flags);
  }

  /** A page-aligned frame is what gets mapped exactly when it is a physical address and flags bring no
      address bit that it lacks. */
  lemma {:induction false} PteTargetIsFrame(frame: u64, flags: u64)
    requires frame % PAGE == 0
    ensures AddrOf(Pte(frame, flags)) == frame
      <==> frame < ADDR_LIMIT && Bits.Or(frame / 4096, flags / 4096, 40) == frame / 4096
  {
    PteTarget(frame, flags);
    Bits.Pow40();
    Bits.OrBelow(frame / 4096, flags / 4096, 40);
  }

  lemma {:induction false} PlainOrAt(x: nat, y: nat, k: nat, p: nat)
    requires Bits.Pow2(k) == p && x < p && y % p == 0
    ensures Bits.Or(x, y, k) == x
  {
    LowBits(x, k, p);
    LowBits(y, k, p);
    ModUnique(x, p, 0, x);
    Bits.OrNothing(x, y, k);
  }

  lemma {:induction false} PlainOr(x: nat, y: nat)
    requires x < 0x100_0000_0000 && y % 0x100_0000_0000 == 0
    ensures Bits.Or(x, y, 40) == x
  {
    Bits.Pow40();
    PlainOrAt(x, y, 40, 0x100_0000_0000);
  }

  /** In particular when the flags have no address bits at all. */
  lemma {:induction false} PlainTarget(frame: u64, flags: u64)
    requires FrameOk(frame) && AddrOf(flags) == 0
    ensures Present(Pte(frame, flags)) && AddrOf(Pte(frame, flags)) == frame
  {
    PteTarget(frame, flags);
    PlainOr(frame / 4096, flags / 4096);
  }
}
