/** Copies between kernel buffers and user memory, one physical page at a time. */
module UserCopy {
  import opened Alignment
  import opened Options
  import opened LittleEndian
  import opened PageTables
  import opened TableTrees
  import opened PhysBytes
  import opened DataWrites
  import opened PagingUnit

  const USER_LIMIT: nat := 0xFFFF_8000_0000_0000

  datatype CopyResult = Done | InvalidUserPointer | UserMemoryNotPresent

  // ---------------------------------------------------------------- pages are contiguous

  lemma Carry(va: nat, j: nat, span: nat, k: nat)
    requires va % PAGE + j < PAGE && k > 0 && span == PAGE * k
    ensures (va + j) % span == va % span + j && va % span % PAGE == va % PAGE
  {
    var q, r := va / span, va % span;
    assert va == span * q + r;
    assert r % PAGE == va % PAGE by {
      assert span * q == PAGE * (k * q);
      ModUnique(va, PAGE, k * q + r / PAGE, r % PAGE);
    }
    PagesBelow(r, k);
    ModUnique(va + j, span, q, r + j);
  }

  lemma PagesBelow(r: nat, k: nat)
    requires r < PAGE * k
    ensures r - r % PAGE + PAGE <= PAGE * k
  {
    assert r / PAGE < k;
  }

  lemma SpanOffset(va: nat, j: nat, level: nat)
    requires va % PAGE + j < PAGE && 1 <= level <= 5
    ensures (va + j) % Span(level) == va % Span(level) + j && va % Span(level) % PAGE == va % PAGE
  {
    match level
    case 1 => Carry(va, j, 0x1000, 1);
    case 2 => Carry(va, j, 0x20_0000, 0x200);
    case 3 => Carry(va, j, 0x4000_0000, 0x4_0000);
    case 4 => Carry(va, j, 0x80_0000_0000, 0x800_0000);
    case 5 => Carry(va, j, VIRT_LIMIT, 0x10_0000_0000);
  }

  lemma PageOffset(va: nat, j: nat)
    requires va % PAGE + j < PAGE
    ensures Page(va + j) == Page(va)
  {
    SpanOffset(va, j, 5);
  }

  lemma AddrOfAligned(e: nat)
    ensures AddrOf(e) % PAGE == 0
  {
    MulMod(e / 4096 % 0x100_0000_0000, PAGE);
  }

  lemma LeafOffset(e: nat, va: nat, j: nat, level: nat)
    requires va % PAGE + j < PAGE && 1 <= level <= 4
    ensures AddrOf(e) + (va + j) % Span(level) == AddrOf(e) + va % Span(level) + j
    ensures (AddrOf(e) + va % Span(level)) % PAGE == va % PAGE
  {
    SpanOffset(va, j, level);
    AddrOfAligned(e);
  }

  /** The walk for va + j, given the walk for va. */
  predicate Shifted(at: Option<nat>, on: Option<nat>, va: nat, j: nat) {
    if at.Some? then on == Some(at.value + j) && at.value % PAGE == va % PAGE else on.None?
  }

  /** Inside one page translation adds the offset, for 4 KiB, 2 MiB and 1 GiB pages alike. */
  lemma {:induction false} WalkOffset(m: Mem, t: nat, va: nat, j: nat, level: nat)
    requires va % PAGE + j < PAGE && 1 <= level <= 4
    ensures Shifted(Walk(m, t, va, level), Walk(m, t, va + j, level), va, j)
    decreases level
  {
    PageOffset(va, j);
    SamePath(va + j, va, level);
    assert Slot(t, va + j, level) == Slot(t, va, level);
    var e := Word(m, Slot(t, va, level));
    if !Present(e) {
    } else {
      if Leaf(e, level) {
        LeafOffset(e, va, j, level);
      } else {
        WalkOffset(m, AddrOf(e), va, j, level - 1);
      }
    }
  }

  // ---------------------------------------------------------------- byte by byte

  /** The n addresses from ptr on, translated one by one. */
  function Translations(m: Mem, root: nat, ptr: nat, n: nat): (r: seq<Option<nat>>)
    ensures |r| == n
  {
    if n == 0 then [] else Translations(m, root, ptr, n - 1) + [Translate(m, root, ptr + n - 1)]
  }

  lemma {:induction false} TranslationsAt(m: Mem, root: nat, ptr: nat, n: nat, i: nat)
    requires i < n
    ensures Translations(m, root, ptr, n)[i] == Translate(m, root, ptr + i)
    decreases n
  {
    if i >= n - 1 {
    } else {
      TranslationsAt(m, root, ptr, n - 1, i);
    }
  }

  /** ps are the physical addresses of the first |ps| translations. */
  ghost predicate Follow(trs: seq<Option<nat>>, ps: seq<nat>) {
    |ps| <= |trs| && forall i :: 0 <= i < |ps| ==> trs[i] == Some(ps[i])
  }

  /** Writing one byte at a time to a list of physical addresses. */
  function WriteAt(m: Mem, ps: seq<nat>, src: seq<byte>): Mem
    requires |ps| == |src|
    decreases |ps|
  {
    if ps == [] then m
    else var n := |ps| - 1; SetByte(WriteAt(m, ps[..n], src[..n]), ps[n], src[n])
  }

  function Stretch(p: nat, n: nat): (ps: seq<nat>)
    ensures |ps| == n
  {
    if n == 0 then [] else Stretch(p, n - 1) + [p + n - 1]
  }

  /** From position k on, n translations are one stretch of physical memory. */
  ghost predicate Contiguous(trs: seq<Option<nat>>, k: nat, p: nat, n: nat) {
    k + n <= |trs| && forall i :: k <= i < k + n ==> trs[i] == Some(p + (i - k))
  }

  /** A translated address and the rest of its page are contiguous. */
  lemma {:induction false} PageContiguous(m: Mem, root: nat, ptr: nat, len: nat, k: nat, p: nat, n: nat)
    requires k + n <= len && Translate(m, root, ptr + k) == Some(p) && p % PAGE + n <= PAGE
    ensures Contiguous(Translations(m, root, ptr, len), k, p, n)
  {
    var trs := Translations(m, root, ptr, len);
    forall i | k <= i < k + n ensures trs[i] == Some(p + (i - k)) {
      PageByteAt(m, root, ptr, len, k, p, i);
    }
  }

  lemma {:induction false} PageByteAt(m: Mem, root: nat, ptr: nat, len: nat, k: nat, p: nat, i: nat)
    requires k <= i < len && Translate(m, root, ptr + k) == Some(p) && p % PAGE + (i - k) < PAGE
    ensures Translations(m, root, ptr, len)[i] == Some(p + (i - k))
  {
    PageByte(m, root, ptr + k, i - k, p);
    TranslationsAt(m, root, ptr, len, i);
  }

  lemma {:induction false} PageByte(m: Mem, root: nat, va: nat, j: nat, p: nat)
    requires Translate(m, root, va) == Some(p) && p % PAGE + j < PAGE
    ensures Translate(m, root, va + j) == Some(p + j) && p % PAGE == va % PAGE
  {
    WalkOffset(m, root, va, 0, 4);
    WalkOffset(m, root, va, j, 4);
  }

  lemma {:induction false} Chunk(trs: seq<Option<nat>>, ps: seq<nat>, p: nat, n: nat)
    requires Follow(trs, ps) && Contiguous(trs, |ps|, p, n)
    ensures Follow(trs, ps + Stretch(p, n))
    decreases n
  {
    if n == 0 {
      assert ps + Stretch(p, 0) == ps;
    } else {
      Chunk(trs, ps, p, n - 1);
      assert ps + Stretch(p, n) == ps + Stretch(p, n - 1) + [p + (n - 1)];
    }
  }

  lemma {:induction false} WriteNext(m: Mem, ps: seq<nat>, src: seq<byte>, q: nat, b: byte)
    requires |ps| == |src|
    ensures WriteAt(m, ps + [q], src + [b]) == SetByte(WriteAt(m, ps, src), q, b)
  {
    assert (ps + [q])[..|ps|] == ps && (src + [b])[..|ps|] == src;
  }

  /** m1 is the memory after src has been written to ps. */
  lemma {:induction false} WriteChunk(m: Mem, m1: Mem, ps: seq<nat>, src: seq<byte>, p: nat, chunk: seq<byte>)
    requires |ps| == |src| && m1 == WriteAt(m, ps, src)
    ensures WriteAt(m, ps + Stretch(p, |chunk|), src + chunk) == SetBytes(m1, p, chunk)
    decreases |chunk|
  {
    if chunk == [] {
      assert ps + Stretch(p, 0) == ps && src + chunk == src;
    } else {
      var n := |chunk| - 1;
      WriteChunk(m, m1, ps, src, p, chunk[..n]);
      StretchMore(ps, p, n);
      ChunkMore(src, chunk);
      WriteOneMore(m, ps + Stretch(p, n), src + chunk[..n], SetBytes(m1, p, chunk[..n]), p + n, chunk[n]);
    }
  }

  lemma {:induction false} WriteOneMore(m: Mem, ps: seq<nat>, src: seq<byte>, m1: Mem, q: nat, b: byte)
    requires |ps| == |src| && WriteAt(m, ps, src) == m1
    ensures WriteAt(m, ps + [q], src + [b]) == SetByte(m1, q, b)
  {
    WriteNext(m, ps, src, q, b);
  }

  lemma StretchMore(ps: seq<nat>, p: nat, n: nat)
    ensures ps + Stretch(p, n + 1) == ps + Stretch(p, n) + [p + n]
  {
    assert Stretch(p, n + 1) == Stretch(p, n) + [p + n];
  }

  lemma ChunkMore(src: seq<byte>, chunk: seq<byte>)
    requires chunk != []
    ensures src + chunk == src + chunk[..|chunk| - 1] + [chunk[|chunk| - 1]]
  {
  }

  /** The first |ps| bytes of src have been written where their translations lead. */
  ghost predicate Written(trs: seq<Option<nat>>, m0: Mem, m: Mem, src: seq<byte>, ps: seq<nat>) {
    |ps| <= |src| && Follow(trs, ps) && m == WriteAt(m0, ps, src[..|ps|])
  }

  lemma {:induction false} WriteMore(trs: seq<Option<nat>>, m0: Mem, m: Mem, src: seq<byte>, ps: seq<nat>, p: nat,
    n: nat)
    requires Written(trs, m0, m, src, ps) && |ps| + n <= |src| && Contiguous(trs, |ps|, p, n)
    ensures Written(trs, m0, SetBytes(m, p, src[|ps|..|ps| + n]), src, ps + Stretch(p, n))
  {
    Chunk(trs, ps, p, n);
    WriteSlice(m0, ps, src, p, n);
  }

  lemma {:induction false} WriteSlice(m: Mem, ps: seq<nat>, src: seq<byte>, p: nat, n: nat)
    requires |ps| + n <= |src|
    ensures SetBytes(WriteAt(m, ps, src[..|ps|]), p, src[|ps|..|ps| + n])
      == WriteAt(m, ps + Stretch(p, n), src[..|ps| + n])
  {
    SliceJoin(src, |ps|, n);
    WriteChunk(m, WriteAt(m, ps, src[..|ps|]), ps, src[..|ps|], p, src[|ps|..|ps| + n]);
  }

  lemma SliceJoin(src: seq<byte>, k: nat, n: nat)
    requires k + n <= |src|
    ensures src[..k] + src[k..k + n] == src[..k + n] && |src[k..k + n]| == n
  {
  }

  // ---------------------------------------------------------------- the words of a walk

  /** The walk for a from t reads the word at x. */
  predicate Reads(m: Mem, t: nat, a: nat, level: nat, x: nat)
    requires 1 <= level <= 4
    decreases level, a
  {
    var e := Word(m, Slot(t, a, level));
    x == Slot(t, a, level) || (Linked(e, level) && Reads(m, AddrOf(e), a, level - 1, x))
  }

  /** Byte p lies in a word by which a is translated. */
  predicate UsedFor(m: Mem, root: nat, a: nat, p: nat) { Reads(m, root, a, 4, WordOf(p)) }

  /** A walk depends on the words it reads. */
  lemma {:induction false} WalkKept(m: Mem, m': Mem, t: nat, a: nat, level: nat)
    requires 1 <= level <= 4 && forall x :: Reads(m, t, a, level, x) ==> Word(m', x) == Word(m, x)
    ensures Walk(m', t, a, level) == Walk(m, t, a, level)
    decreases level
  {
    var e := Word(m, Slot(t, a, level));
    assert Reads(m, t, a, level, Slot(t, a, level));
    if Linked(e, level) {
      forall x | Reads(m, AddrOf(e), a, level - 1, x) ensures Word(m', x) == Word(m, x) {
        assert Reads(m, t, a, level, x);
      }
      WalkKept(m, m', AddrOf(e), a, level - 1);
    }
  }

  /** Addresses of one page read the same words. */
  lemma {:induction false} ReadsPage(m: Mem, t: nat, a: nat, b: nat, level: nat, x: nat)
    requires 1 <= level <= 4 && Page(a) == Page(b) && Reads(m, t, a, level, x)
    ensures Reads(m, t, b, level, x)
    decreases level
  {
    SamePath(a, b, level);
    var e := Word(m, Slot(t, a, level));
    if x != Slot(t, a, level) {
      ReadsPage(m, AddrOf(e), a, b, level - 1, x);
    }
  }

  /** All of them are words of tables. */
  lemma {:induction false} ReadsTables(m: Mem, own: Own, t: nat, r: nat, a: nat, level: nat, x: nat)
    requires Tree(m, own) && OnPath(own, t, r, level, a) && Reads(m, t, a, level, x)
    ensures x - x % PAGE in own
    decreases level
  {
    if x == Slot(t, a, level) {
      SlotPage(t, Index(a, level));
    } else {
      Descend(m, own, t, r, level, a);
      ReadsTables(m, own, AddrOf(Word(m, Slot(t, a, level))), r, a, level - 1, x);
    }
  }

  /** So a byte outside the tables is in none of them. */
  lemma {:induction false} OffTableUnread(m: Mem, own: Own, root: nat, a: nat, p: nat)
    requires Tree(m, own) && Root(own, root) && p - p % PAGE !in own
    ensures !UsedFor(m, root, a, p)
  {
    RootOnPath(own, root, a);
    SamePageWord(p);
    if Reads(m, root, a, 4, WordOf(p)) {
      ReadsTables(m, own, root, root, a, 4, WordOf(p));
    }
  }

  // ---------------------------------------------------------------- writes off the tables

  predicate OffTable(at: Option<nat>, own: Own) {
    at.Some? ==> at.value - at.value % PAGE !in own
  }

  /** The pages of the range that are mapped hold no table. */
  ghost predicate DataRange(trs: seq<Option<nat>>, own: Own) {
    forall i :: 0 <= i < |trs| ==> OffTable(trs[i], own)
  }

  /** No listed address lies in a table. */
  ghost predicate OffTables(ps: seq<nat>, own: Own) {
    forall i :: 0 <= i < |ps| ==> ps[i] - ps[i] % PAGE !in own
  }

  lemma {:induction false} FollowOff(trs: seq<Option<nat>>, ps: seq<nat>, own: Own)
    requires Follow(trs, ps) && DataRange(trs, own)
    ensures OffTables(ps, own)
  {
    forall i | 0 <= i < |ps| ensures ps[i] - ps[i] % PAGE !in own {
      assert OffTable(trs[i], own);
    }
  }

  lemma {:induction false} WriteKeepsEntry(m: Mem, ps: seq<nat>, src: seq<byte>, own: Own, t: nat, i: nat)
    requires |ps| == |src| && OffTables(ps, own) && t in own && t % PAGE == 0 && i < ENTRIES
    ensures Entry(WriteAt(m, ps, src), t, i) == Entry(m, t, i)
    decreases |ps|
  {
    if ps == [] {
    } else {
      var n := |ps| - 1;
      WriteKeepsEntry(m, ps[..n], src[..n], own, t, i);
      WordApart(ps[n], t, i);
    }
  }

  lemma WordApart(a: nat, t: nat, i: nat)
    requires t % PAGE == 0 && i < ENTRIES && a - a % PAGE != t
    ensures WordOf(a) != t + 8 * i
  {
  }

  /** Writes off the tables leave them as they are, and so every translation. */
  lemma {:induction false} WriteSame(m: Mem, ps: seq<nat>, src: seq<byte>, own: Own)
    requires |ps| == |src| && OffTables(ps, own) && Roles(own)
    ensures SameTables(m, WriteAt(m, ps, src), own)
  {
    var m' := WriteAt(m, ps, src);
    forall t, i | t in own && 0 <= i < ENTRIES ensures Entry(m', t, i) == Entry(m, t, i) {
      WriteKeepsEntry(m, ps, src, own, t, i);
    }
  }

  lemma {:induction false} WrittenSame(trs: seq<Option<nat>>, m0: Mem, m: Mem, own: Own, src: seq<byte>, ps: seq<nat>)
    requires Roles(own) && DataRange(trs, own) && Written(trs, m0, m, src, ps)
    ensures SameTables(m0, m, own)
  {
    FollowOff(trs, ps, own);
    WriteSame(m0, ps, src[..|ps|], own);
  }

  /** No byte of the range lies in a word by which the range is translated. */
  ghost predicate Clear(m: Mem, root: nat, ptr: nat, trs: seq<Option<nat>>) {
    forall i, a :: 0 <= i < |trs| && ptr <= a < ptr + |trs| && trs[i].Some? ==> !UsedFor(m, root, a, trs[i].value)
  }

  lemma {:induction false} DataClear(m: Mem, own: Own, root: nat, ptr: nat, trs: seq<Option<nat>>)
    requires Tree(m, own) && Root(own, root) && DataRange(trs, own)
    ensures Clear(m, root, ptr, trs)
  {
    forall i, a | 0 <= i < |trs| && ptr <= a < ptr + |trs| && trs[i].Some?
      ensures !UsedFor(m, root, a, trs[i].value)
    {
      assert OffTable(trs[i], own);
      OffTableUnread(m, own, root, a, trs[i].value);
    }
  }

  lemma {:induction false} WriteAtWord(m: Mem, ps: seq<nat>, src: seq<byte>, x: nat)
    requires |ps| == |src| && forall i :: 0 <= i < |ps| ==> WordOf(ps[i]) != x
    ensures Word(WriteAt(m, ps, src), x) == Word(m, x)
    decreases |ps|
  {
    if ps == [] {
    } else {
      var n := |ps| - 1;
      WriteAtWord(m, ps[..n], src[..n], x);
    }
  }

  lemma {:induction false} WrittenKeepsWalk(trs: seq<Option<nat>>, m0: Mem, m: Mem, root: nat, ptr: nat,
    src: seq<byte>, ps: seq<nat>, k: nat)
    requires Clear(m0, root, ptr, trs) && Written(trs, m0, m, src, ps) && k < |trs|
    ensures Translate(m, root, ptr + k) == Translate(m0, root, ptr + k)
  {
    forall x | Reads(m0, root, ptr + k, 4, x) ensures Word(m, x) == Word(m0, x) {
      forall i | 0 <= i < |ps| ensures WordOf(ps[i]) != x {
        assert trs[i] == Some(ps[i]) && !UsedFor(m0, root, ptr + k, trs[i].value);
      }
      WriteAtWord(m0, ps, src[..|ps|], x);
    }
    WalkKept(m0, m, root, ptr + k, 4);
  }

  // ---------------------------------------------------------------- the methods

  /** The range ends at or below the limit. */
  predicate RangeOk(ptr: nat, len: nat) { len == 0 || ptr + len <= USER_LIMIT }

  predicate BelowLimit(a: nat) { a < 0xFFFF_8000_0000_0000 }

  /** An accepted range is one whose every address is below the limit. */
  lemma RangeOkMeans(ptr: nat, len: nat)
    ensures RangeOk(ptr, len) <==> forall a :: ptr <= a < ptr + len ==> BelowLimit(a)
  {
    if len > 0 && ptr + len > USER_LIMIT {
      assert !BelowLimit(ptr + len - 1);
    }
  }

  /** `ensure_user_range`: nothing above the limit, no wrap-around. */
  method EnsureUserRange(ptr: u64, len: nat) returns (ok: bool)
    requires len < WORD
    ensures ok <==> RangeOk(ptr, len)
  {
    if len == 0 {
      return true;
    }
    if ptr >= USER_LIMIT {
      return false;
    }
    if ptr + len >= WORD {
      return false;
    }
    return ptr + len <= USER_LIMIT;
  }

  /** A user read: the bytes up to the first address that does not translate. */
  function Peek(m: Mem, root: nat, ptr: nat, n: nat): (CopyResult, seq<byte>) {
    if n == 0 then (Done, [])
    else
      var (res, bytes) := Peek(m, root, ptr, n - 1);
      var at := Translate(m, root, ptr + n - 1);
      if !res.Done? then (res, bytes)
      else if at.None? then (UserMemoryNotPresent, bytes)
      else (Done, bytes + [ByteAt(m, at.value)])
  }

  function CopyFrom(m: Mem, root: nat, ptr: nat, n: nat): (CopyResult, seq<byte>) {
    if RangeOk(ptr, n) then Peek(m, root, ptr, n) else (InvalidUserPointer, [])
  }

  /** The bytes at the given addresses. */
  ghost predicate BytesAt(m: Mem, ps: seq<nat>, bytes: seq<byte>) {
    |bytes| == |ps| && forall i :: 0 <= i < |ps| ==> bytes[i] == ByteAt(m, ps[i])
  }

  /** A read gives the bytes where the range leads, as far as it leads anywhere. */
  lemma {:induction false} PeekMeans(m: Mem, root: nat, ptr: nat, n: nat, ps: seq<nat>, bytes: seq<byte>)
    requires |ps| <= n && BytesAt(m, ps, bytes)
    requires forall i :: 0 <= i < |ps| ==> Translate(m, root, ptr + i) == Some(ps[i])
    requires |ps| < n ==> Translate(m, root, ptr + |ps|) == None
    ensures Peek(m, root, ptr, n) == (if |ps| == n then Done else UserMemoryNotPresent, bytes)
    decreases n
  {
    if n == 0 {
    } else if |ps| < n {
      PeekMeans(m, root, ptr, n - 1, ps, bytes);
    } else {
      PeekMeans(m, root, ptr, n - 1, ps[..n - 1], bytes[..n - 1]);
      assert Translate(m, root, ptr + (n - 1)) == Some(ps[n - 1]);
      assert bytes == bytes[..n - 1] + [bytes[n - 1]];
    }
  }

  /** Translations one by one, as PeekMeans wants them. */
  lemma {:induction false} PeekFollows(m: Mem, root: nat, ptr: nat, n: nat, ps: seq<nat>, bytes: seq<byte>)
    requires Follow(Translations(m, root, ptr, n), ps) && BytesAt(m, ps, bytes)
    requires |ps| < n ==> Translate(m, root, ptr + |ps|) == None
    ensures Peek(m, root, ptr, n) == (if |ps| == n then Done else UserMemoryNotPresent, bytes)
  {
    forall i | 0 <= i < |ps| ensures Translate(m, root, ptr + i) == Some(ps[i]) {
      TranslationsAt(m, root, ptr, n, i);
    }
    PeekMeans(m, root, ptr, n, ps, bytes);
  }

  function ChunkLen(phys: nat, left: nat): (n: nat)
    requires left > 0
    ensures 0 < n <= left && phys % PAGE + n <= PAGE
  {
    var avail := PAGE - phys % PAGE;
    if avail < left then avail else left
  }

  /** The bytes of one chunk into the buffer. */
  method CopyOut(m: Mem, a: nat, dst: array<byte>, at: nat, n: nat)
    requires at + n <= dst.Length
    modifies dst
    ensures forall i :: at <= i < at + n ==> dst[i] == ByteAt(m, a + (i - at))
    ensures forall i :: 0 <= i < dst.Length && !(at <= i < at + n) ==> dst[i] == old(dst[i])
  {
    var j := 0;
    while j < n
      invariant j <= n
      invariant forall i :: at <= i < at + j ==> dst[i] == ByteAt(m, a + (i - at))
      invariant forall i :: 0 <= i < dst.Length && !(at <= i < at + j) ==> dst[i] == old(dst[i])
    {
      dst[at + j] := ByteAt(m, a + j);
      j := j + 1;
    }
  }

  /** The first |ps| bytes of the buffer are those at ps, the rest is as it was. */
  ghost predicate Filled(m: Mem, ps: seq<nat>, was: seq<byte>, now: seq<byte>) {
    && |ps| <= |now| == |was| && BytesAt(m, ps, now[..|ps|])
    && forall i :: |ps| <= i < |now| ==> now[i] == was[i]
  }

  lemma {:induction false} FillMore(m: Mem, trs: seq<Option<nat>>, ps: seq<nat>, ps1: seq<nat>, was: seq<byte>,
    now: seq<byte>, next: seq<byte>, p: nat, n: nat)
    requires Filled(m, ps, was, now) && |ps1| == |ps| + n <= |next| == |now| && ps <= ps1
    requires Follow(trs, ps1) && Contiguous(trs, |ps|, p, n)
    requires forall i :: |ps| <= i < |ps| + n ==> next[i] == ByteAt(m, p + (i - |ps|))
    requires forall i :: 0 <= i < |next| && !(|ps| <= i < |ps| + n) ==> next[i] == now[i]
    ensures Filled(m, ps1, was, next)
  {
    forall i | 0 <= i < |ps1| ensures next[..|ps1|][i] == ByteAt(m, ps1[i]) {
      assert trs[i] == Some(ps1[i]);
      assert i < |ps| ==> ps1[i] == ps[i] && next[i] == now[..|ps|][i];
    }
  }

  /** `copy_from_user_internal`: fills dst as byte-by-byte reads would, up to the first address that
      does not translate. */
  method CopyFromUser(m: Mem, root: nat, dst: array<byte>, ptr: u64) returns (res: CopyResult, ghost ps: seq<nat>)
    requires dst.Length < WORD
    modifies dst
    ensures res.InvalidUserPointer? <==> !(dst.Length == 0 || ptr + dst.Length <= USER_LIMIT)
    ensures res.InvalidUserPointer? ==> ps == []
    ensures res.Done? ==> |ps| == dst.Length
    ensures res.UserMemoryNotPresent? ==> |ps| < dst.Length && Translate(m, root, ptr + |ps|) == None
    ensures Follow(Translations(m, root, ptr, dst.Length), ps)
    ensures Filled(m, ps, old(dst[..]), dst[..])
    ensures (res, dst[..|ps|]) == CopyFrom(m, root, ptr, dst.Length)
  {
    ps := [];
    ghost var trs := Translations(m, root, ptr, dst.Length);
    if dst.Length == 0 {
      return Done, ps;
    }
    var ok := EnsureUserRange(ptr, dst.Length);
    if !ok {
      return InvalidUserPointer, ps;
    }
    var copied := 0;
    while copied < dst.Length
      invariant |ps| == copied <= dst.Length && Follow(trs, ps)
      invariant Filled(m, ps, old(dst[..]), dst[..])
    {
      var phys := Translate(m, root, ptr + copied);
      if phys.None? {
        PeekFilled(m, root, ptr, ps, old(dst[..]), dst[..]);
        return UserMemoryNotPresent, ps;
      }
      var n := ChunkLen(phys.value, dst.Length - copied);
      PageContiguous(m, root, ptr, dst.Length, copied, phys.value, n);
      Chunk(trs, ps, phys.value, n);
      ghost var now, ps1 := dst[..], ps + Stretch(phys.value, n);
      CopyOut(m, phys.value, dst, copied, n);
      FillMore(m, trs, ps, ps1, old(dst[..]), now, dst[..], phys.value, n);
      ps := ps1;
      copied := copied + n;
    }
    PeekFilled(m, root, ptr, ps, old(dst[..]), dst[..]);
    return Done, ps;
  }

  lemma {:induction false} PeekFilled(m: Mem, root: nat, ptr: nat, ps: seq<nat>, was: seq<byte>, now: seq<byte>)
    requires Filled(m, ps, was, now) && Follow(Translations(m, root, ptr, |now|), ps)
    requires |ps| < |now| ==> Translate(m, root, ptr + |ps|) == None
    ensures Peek(m, root, ptr, |now|) == (if |ps| == |now| then Done else UserMemoryNotPresent, now[..|ps|])
  {
    PeekFollows(m, root, ptr, |now|, ps, now[..|ps|]);
  }

  /** The bytes of one chunk into physical memory. */
  method CopyIn(p: Pager, a: nat, chunk: seq<byte>)
    modifies p`mem
    ensures p.mem == SetBytes(old(p.mem), a, chunk)
  {
    var j := 0;
    while j < |chunk|
      invariant j <= |chunk| && p.mem == SetBytes(old(p.mem), a, chunk[..j])
    {
      p.mem := SetByte(p.mem, a + j, chunk[j]);
      assert chunk[..j + 1][..j] == chunk[..j];
      j := j + 1;
    }
    assert chunk[..j] == chunk;
  }

  // ---------------------------------------------------------------- the write loop

  /** The write loop, in turns of at most `step` bytes and at most the rest of a page. Each turn is
      translated by the tables as the turns before it have left them. */
  function WriteLoop(m: Mem, root: nat, ptr: nat, src: seq<byte>, done: nat, step: nat): (CopyResult, Mem)
    requires done <= |src| && step > 0
    decreases |src| - done
  {
    if done == |src| then (Done, m)
    else
      var at := Translate(m, root, ptr + done);
      if at.None? then (UserMemoryNotPresent, m)
      else
        var n := Min(ChunkLen(at.value, |src| - done), step);
        WriteLoop(SetBytes(m, at.value, src[done..done + n]), root, ptr, src, done + n, step)
  }

  lemma WriteLoopStep(m: Mem, m1: Mem, root: nat, ptr: nat, src: seq<byte>, done: nat, done1: nat, step: nat, p: nat)
    requires done < |src| && step > 0 && Translate(m, root, ptr + done) == Some(p)
    requires done1 == done + Min(ChunkLen(p, |src| - done), step) && m1 == SetBytes(m, p, src[done..done1])
    ensures WriteLoop(m, root, ptr, src, done, step) == WriteLoop(m1, root, ptr, src, done1, step)
  {
  }

  lemma WriteLoopEnds(m: Mem, root: nat, ptr: nat, src: seq<byte>, done: nat, step: nat)
    requires done <= |src| && step > 0 && (done < |src| ==> Translate(m, root, ptr + done) == None)
    ensures WriteLoop(m, root, ptr, src, done, step) == (if done == |src| then Done else UserMemoryNotPresent, m)
  {
  }

  /** A user write: all of a page at a time. */
  function CopyTo(m: Mem, root: nat, ptr: nat, src: seq<byte>): (CopyResult, Mem) {
    if RangeOk(ptr, |src|) then WriteLoop(m, root, ptr, src, 0, PAGE) else (InvalidUserPointer, m)
  }

  lemma {:induction false} WriteLoopAnswers(m: Mem, root: nat, ptr: nat, src: seq<byte>, done: nat, step: nat)
    requires done <= |src| && step > 0
    ensures WriteLoop(m, root, ptr, src, done, step).0 != InvalidUserPointer
    decreases |src| - done
  {
    var at := if done < |src| then Translate(m, root, ptr + done) else None;
    if at.Some? {
      var n := Min(ChunkLen(at.value, |src| - done), step);
      WriteLoopAnswers(SetBytes(m, at.value, src[done..done + n]), root, ptr, src, done + n, step);
    }
  }

  lemma {:induction false} PeekAnswers(m: Mem, root: nat, ptr: nat, n: nat)
    ensures Peek(m, root, ptr, n).0 != InvalidUserPointer
  {
    if n == 0 {
    } else {
      PeekAnswers(m, root, ptr, n - 1);
    }
  }

  /** Both copies refuse a range exactly when it has an address at or above 0xFFFF_8000_0000_0000; a refused write
      has written nothing, and a refused read returns nothing. */
  lemma {:induction false} RefusedExactly(m: Mem, root: nat, ptr: nat, src: seq<byte>, n: nat)
    ensures CopyTo(m, root, ptr, src).0 == InvalidUserPointer <==> |src| > 0 && ptr + |src| > 0xFFFF_8000_0000_0000
    ensures CopyTo(m, root, ptr, src).0 == InvalidUserPointer ==> CopyTo(m, root, ptr, src).1 == m
    ensures CopyFrom(m, root, ptr, n).0 == InvalidUserPointer <==> n > 0 && ptr + n > 0xFFFF_8000_0000_0000
    ensures CopyFrom(m, root, ptr, n).0 == InvalidUserPointer ==> CopyFrom(m, root, ptr, n).1 == []
  {
    WriteLoopAnswers(m, root, ptr, src, 0, PAGE);
    PeekAnswers(m, root, ptr, n);
  }

  /** `copy_to_user_internal`, whatever the range leads to. */
  method CopyToUser(p: Pager, root: nat, ptr: u64, src: seq<byte>) returns (res: CopyResult)
    requires |src| < WORD
    modifies p`mem
    ensures (res, p.mem) == CopyTo(old(p.mem), root, ptr, src)
  {
    if src == [] {
      return Done;
    }
    var ok := EnsureUserRange(ptr, |src|);
    if !ok {
      return InvalidUserPointer;
    }
    var written := 0;
    ghost var goal := WriteLoop(p.mem, root, ptr, src, 0, PAGE);
    while written < |src|
      invariant written <= |src| && WriteLoop(p.mem, root, ptr, src, written, PAGE) == goal
    {
      var phys := Translate(p.mem, root, ptr + written);
      if phys.None? {
        WriteLoopEnds(p.mem, root, ptr, src, written, PAGE);
        return UserMemoryNotPresent;
      }
      var n := ChunkLen(phys.value, |src| - written);
      ghost var before := p.mem;
      CopyIn(p, phys.value, src[written..written + n]);
      WriteLoopStep(before, p.mem, root, ptr, src, written, written + n, PAGE, phys.value);
      written := written + n;
    }
    WriteLoopEnds(p.mem, root, ptr, src, written, PAGE);
    return Done;
  }

  /** One turn: the address translates as it did at the start, and so does the rest of the turn. */
  lemma {:induction false} WriteTurn(m0: Mem, m: Mem, root: nat, ptr: nat, trs: seq<Option<nat>>,
    src: seq<byte>, ps: seq<nat>, at: Option<nat>, n: nat)
    requires trs == Translations(m0, root, ptr, |src|) && Clear(m0, root, ptr, trs)
    requires Written(trs, m0, m, src, ps) && |ps| < |src| && at == Translate(m, root, ptr + |ps|)
    requires at.Some? ==> |ps| + n <= |src| && at.value % PAGE + n <= PAGE
    ensures at == trs[|ps|]
    ensures at.Some? ==> Contiguous(trs, |ps|, at.value, n)
  {
    WrittenKeepsWalk(trs, m0, m, root, ptr, src, ps, |ps|);
    TranslationsAt(m0, root, ptr, |src|, |ps|);
    if at.Some? {
      PageContiguous(m0, root, ptr, |src|, |ps|, at.value, n);
    }
  }

  /** So the turn puts its bytes where byte-by-byte writes would, and the loop goes on from there. */
  lemma {:induction false} WriteOn(m0: Mem, m: Mem, root: nat, ptr: nat, trs: seq<Option<nat>>,
    src: seq<byte>, ps: seq<nat>, step: nat, p: nat) returns (m1: Mem, ps1: seq<nat>)
    requires trs == Translations(m0, root, ptr, |src|) && Clear(m0, root, ptr, trs)
    requires Written(trs, m0, m, src, ps) && |ps| < |src| && Translate(m, root, ptr + |ps|) == Some(p) && step > 0
    ensures |ps| < |ps1| && Written(trs, m0, m1, src, ps1)
    ensures WriteLoop(m, root, ptr, src, |ps|, step) == WriteLoop(m1, root, ptr, src, |ps1|, step)
  {
    var n := Min(ChunkLen(p, |src| - |ps|), step);
    m1 := SetBytes(m, p, src[|ps|..|ps| + n]);
    ps1 := WriteOnwards(m0, m, m1, root, ptr, trs, src, ps, p, n);
    WriteLoopStep(m, m1, root, ptr, src, |ps|, |ps1|, step, p);
  }

  lemma {:induction false} WriteOnwards(m0: Mem, m: Mem, m1: Mem, root: nat, ptr: nat, trs: seq<Option<nat>>,
    src: seq<byte>, ps: seq<nat>, p: nat, n: nat) returns (ps1: seq<nat>)
    requires trs == Translations(m0, root, ptr, |src|) && Clear(m0, root, ptr, trs)
    requires Written(trs, m0, m, src, ps) && |ps| < |src| && Translate(m, root, ptr + |ps|) == Some(p)
    requires |ps| + n <= |src| && p % PAGE + n <= PAGE && m1 == SetBytes(m, p, src[|ps|..|ps| + n])
    ensures |ps1| == |ps| + n && Written(trs, m0, m1, src, ps1)
  {
    WriteTurn(m0, m, root, ptr, trs, src, ps, Some(p), n);
    WriteMore(trs, m0, m, src, ps, p, n);
    ps1 := ps + Stretch(p, n);
  }

  /** What a write has done when it ends: the bytes up to the first address that does not translate are
      where the translations of the start lead. */
  ghost predicate WroteAll(trs: seq<Option<nat>>, m0: Mem, m: Mem, src: seq<byte>, ps: seq<nat>, res: CopyResult) {
    && Written(trs, m0, m, src, ps) && |trs| == |src|
    && (if |ps| == |src| then res.Done? else res.UserMemoryNotPresent? && trs[|ps|] == None)
  }

  /** In a clear range the loop writes through the translations of the start, in turns of any size. */
  lemma {:induction false} WriteLoopMeans(m0: Mem, m: Mem, root: nat, ptr: nat, trs: seq<Option<nat>>,
    src: seq<byte>, ps: seq<nat>, step: nat) returns (qs: seq<nat>)
    requires trs == Translations(m0, root, ptr, |src|) && Clear(m0, root, ptr, trs)
    requires Written(trs, m0, m, src, ps) && step > 0
    ensures var (res, m') := WriteLoop(m, root, ptr, src, |ps|, step); WroteAll(trs, m0, m', src, qs, res)
    decreases |src| - |ps|
  {
    qs := ps;
    var at := if |ps| == |src| then None else Translate(m, root, ptr + |ps|);
    if at.None? {
      WriteLoopEnds(m, root, ptr, src, |ps|, step);
      if |ps| < |src| {
        WriteTurn(m0, m, root, ptr, trs, src, ps, at, 0);
      }
    } else {
      var m1, ps1 := WriteOn(m0, m, root, ptr, trs, src, ps, step, at.value);
      qs := WriteLoopMeans(m0, m1, root, ptr, trs, src, ps1, step);
    }
  }

  lemma {:induction false} SetBytesWord(m: Mem, a: nat, data: seq<byte>, x: nat)
    requires forall q :: a <= q < a + |data| ==> WordOf(q) != x
    ensures Word(SetBytes(m, a, data), x) == Word(m, x)
    decreases |data|
  {
    if data == [] {
    } else {
      SetBytesWord(m, a, data[..|data| - 1], x);
    }
  }

  /** No byte of a turn of n bytes to p, but perhaps the last, lies in a word by which va is translated. */
  ghost predicate TurnOk(m: Mem, root: nat, va: nat, p: nat, n: nat) {
    forall q :: p <= q < p + n - 1 ==> !UsedFor(m, root, va, q)
  }

  lemma {:induction false} TurnWord(m: Mem, root: nat, va: nat, p: nat, data: seq<byte>, x: nat)
    requires TurnOk(m, root, va, p, |data| + 1) && Reads(m, root, va, 4, x)
    ensures Word(SetBytes(m, p, data), x) == Word(m, x)
  {
    forall q | p <= q < p + |data| ensures WordOf(q) != x {
      assert !UsedFor(m, root, va, q);
    }
    SetBytesWord(m, p, data, x);
  }

  lemma {:induction false} TurnKeeps(m: Mem, root: nat, va: nat, p: nat, data: seq<byte>)
    requires Translate(m, root, va) == Some(p) && p % PAGE + |data| < PAGE && TurnOk(m, root, va, p, |data| + 1)
    ensures Translate(SetBytes(m, p, data), root, va + |data|) == Some(p + |data|)
  {
    var n, m' := |data|, SetBytes(m, p, data);
    PageByte(m, root, va, n, p);
    PageOffset(va, n);
    forall x | Reads(m, root, va + n, 4, x) ensures Word(m', x) == Word(m, x) {
      ReadsPage(m, root, va + n, va, 4, x);
      TurnWord(m, root, va, p, data, x);
    }
    WalkKept(m, m', root, va + n, 4);
  }

  /** A turn of one byte. */
  lemma OneByte(m: Mem, m1: Mem, root: nat, ptr: nat, src: seq<byte>, k: nat, k1: nat, q: nat)
    requires k < |src| && k1 == k + 1 && Translate(m, root, ptr + k) == Some(q) && m1 == SetByte(m, q, src[k])
    ensures WriteLoop(m, root, ptr, src, k, 1) == WriteLoop(m1, root, ptr, src, k1, 1)
  {
    CopySliceSets(m, q, src, k, 1);
    WriteLoopStep(m, m1, root, ptr, src, k, k1, 1, q);
  }

  /** A turn that does not write what translated it is that many turns of one byte. */
  lemma {:induction false} TurnBytes(m: Mem, m1: Mem, root: nat, ptr: nat, src: seq<byte>, done: nat, end: nat, p: nat)
    requires Translate(m, root, ptr + done) == Some(p) && done <= end <= |src| && p % PAGE + (end - done) <= PAGE
    requires TurnOk(m, root, ptr + done, p, end - done) && m1 == CopySlice(m, p, src, done, end - done)
    ensures WriteLoop(m, root, ptr, src, done, 1) == WriteLoop(m1, root, ptr, src, end, 1)
    decreases end - done
  {
    if done == end {
    } else {
      var m0 := TurnLast(m, m1, root, ptr, src, done, end - 1, p);
      TurnBytes(m, m0, root, ptr, src, done, end - 1, p);
    }
  }

  lemma {:induction false} TurnLast(m: Mem, m1: Mem, root: nat, ptr: nat, src: seq<byte>, done: nat, last: nat, p: nat)
    returns (m0: Mem)
    requires Translate(m, root, ptr + done) == Some(p) && done <= last < |src| && p % PAGE + (last - done) < PAGE
    requires TurnOk(m, root, ptr + done, p, last - done + 1) && m1 == CopySlice(m, p, src, done, last - done + 1)
    ensures m0 == CopySlice(m, p, src, done, last - done)
    ensures WriteLoop(m0, root, ptr, src, last, 1) == WriteLoop(m1, root, ptr, src, last + 1, 1)
  {
    var n := last - done;
    m0 := CopySlice(m, p, src, done, n);
    CopySliceSets(m, p, src, done, n);
    TurnKeeps(m, root, ptr + done, p, src[done..done + n]);
    OneByte(m0, m1, root, ptr, src, last, last + 1, p + n);
  }

  /** No turn of the loop, but perhaps by its last byte, writes a word by which it was translated. */
  ghost predicate OffWalks(m: Mem, root: nat, ptr: nat, src: seq<byte>, done: nat, step: nat)
    requires done <= |src| && step > 0
    decreases |src| - done
  {
    done == |src| ||
    var at := Translate(m, root, ptr + done);
    at.None? ||
    var n := Min(ChunkLen(at.value, |src| - done), step);
    TurnOk(m, root, ptr + done, at.value, n)
    && OffWalks(SetBytes(m, at.value, src[done..done + n]), root, ptr, src, done + n, step)
  }

  lemma OffWalksStep(m: Mem, m1: Mem, root: nat, ptr: nat, src: seq<byte>, done: nat, done1: nat, step: nat, p: nat)
    requires done < |src| && step > 0 && OffWalks(m, root, ptr, src, done, step)
    requires Translate(m, root, ptr + done) == Some(p) && done1 == done + Min(ChunkLen(p, |src| - done), step)
    requires m1 == SetBytes(m, p, src[done..done1])
    ensures TurnOk(m, root, ptr + done, p, done1 - done) && OffWalks(m1, root, ptr, src, done1, step)
  {
  }

  /** After one turn both loops are in one place. */
  lemma {:induction false} ChunkBytes(m: Mem, root: nat, ptr: nat, src: seq<byte>, done: nat, step: nat, p: nat)
    returns (m1: Mem, done1: nat)
    requires done < |src| && step > 0 && OffWalks(m, root, ptr, src, done, step)
    requires Translate(m, root, ptr + done) == Some(p)
    ensures done < done1 <= |src| && OffWalks(m1, root, ptr, src, done1, step)
    ensures WriteLoop(m, root, ptr, src, done, step) == WriteLoop(m1, root, ptr, src, done1, step)
    ensures WriteLoop(m, root, ptr, src, done, 1) == WriteLoop(m1, root, ptr, src, done1, 1)
  {
    var n := Min(ChunkLen(p, |src| - done), step);
    done1 := done + n;
    m1 := SetBytes(m, p, src[done..done1]);
    OffWalksStep(m, m1, root, ptr, src, done, done1, step, p);
    WriteLoopStep(m, m1, root, ptr, src, done, done1, step, p);
    CopySliceSets(m, p, src, done, n);
    TurnBytes(m, m1, root, ptr, src, done, done1, p);
  }

  /** A write page by page is a write byte by byte, when no turn writes what translated it: the size of the
      turns does not matter. */
  lemma {:induction false} ChunksAreBytes(m: Mem, root: nat, ptr: nat, src: seq<byte>, done: nat, step: nat)
    requires done <= |src| && step > 0 && OffWalks(m, root, ptr, src, done, step)
    ensures WriteLoop(m, root, ptr, src, done, step) == WriteLoop(m, root, ptr, src, done, 1)
    decreases |src| - done
  {
    var at := if done == |src| then None else Translate(m, root, ptr + done);
    if at.None? {
      WriteLoopEnds(m, root, ptr, src, done, step);
      WriteLoopEnds(m, root, ptr, src, done, 1);
    } else {
      var m1, done1 := ChunkBytes(m, root, ptr, src, done, step, at.value);
      ChunksAreBytes(m1, root, ptr, src, done1, step);
    }
  }

  /** The rest of the range holds no table. */
  ghost predicate RestOff(m: Mem, own: Own, root: nat, ptr: nat, done: nat, len: nat) {
    forall a :: ptr + done <= a < ptr + len ==> OffTable(Translate(m, root, a), own)
  }

  /** In particular when no page of the range holds a table. */
  lemma {:induction false} DataOffWalks(m: Mem, own: Own, root: nat, ptr: nat, src: seq<byte>, done: nat, step: nat)
    requires done <= |src| && step > 0 && Tree(m, own) && Root(own, root) && RestOff(m, own, root, ptr, done, |src|)
    ensures OffWalks(m, root, ptr, src, done, step)
    decreases |src| - done
  {
    var at := if done == |src| then None else Translate(m, root, ptr + done);
    if at.None? {
    } else {
      var p, n := at.value, Min(ChunkLen(at.value, |src| - done), step);
      assert OffTable(at, own);
      DataTurn(m, own, root, ptr + done, p, n);
      DataTurnRest(m, own, root, ptr, done + n, |src|, p, src[done..done + n]);
      DataOffWalks(SetBytes(m, p, src[done..done + n]), own, root, ptr, src, done + n, step);
    }
  }

  lemma {:induction false} DataTurn(m: Mem, own: Own, root: nat, va: nat, p: nat, n: nat)
    requires Tree(m, own) && Root(own, root) && p - p % PAGE !in own && p % PAGE + n <= PAGE
    ensures TurnOk(m, root, va, p, n)
  {
    forall q | p <= q < p + n - 1 ensures !UsedFor(m, root, va, q) {
      PageOfInner(q, p - p % PAGE);
      OffTableUnread(m, own, root, va, q);
    }
  }

  lemma {:induction false} DataTurnRest(m: Mem, own: Own, root: nat, ptr: nat, done: nat, len: nat, p: nat,
    data: seq<byte>)
    requires Tree(m, own) && Root(own, root) && p - p % PAGE !in own && p % PAGE + |data| <= PAGE
    requires RestOff(m, own, root, ptr, done, len)
    ensures var m' := SetBytes(m, p, data); Tree(m', own) && RestOff(m', own, root, ptr, done, len)
  {
    var m' := SetBytes(m, p, data);
    BytesSame(m, p - p % PAGE, p, data, own);
    SameTree(m, m', own);
    forall a | ptr + done <= a < ptr + len ensures OffTable(Translate(m', root, a), own) {
      SameTranslation(m, m', own, root, a);
    }
  }

  /** A range lies in the private half exactly when it ends at or below 2^47, modulo 2^48. */
  lemma {:induction false} PrivateRangeExactly(ptr: nat, len: nat)
    requires len > 0
    ensures (forall a :: ptr <= a < ptr + len ==> LowerHalf(a)) <==> PrivateRange(ptr, len)
  {
    var x := ptr % VIRT_LIMIT;
    if PrivateRange(ptr, len) {
      forall a | ptr <= a < ptr + len ensures LowerHalf(a) {
        ModUnique(a, VIRT_LIMIT, ptr / VIRT_LIMIT, x + (a - ptr));
      }
    } else if x < LOWER_LIMIT {
      var a := ptr + (LOWER_LIMIT - x);
      ModUnique(a, VIRT_LIMIT, ptr / VIRT_LIMIT, LOWER_LIMIT);
      assert !LowerHalf(a);
    } else {
      assert !LowerHalf(ptr);
    }
  }

  predicate PrivateRange(ptr: nat, len: nat) { len == 0 || ptr % VIRT_LIMIT + len <= LOWER_LIMIT }

  // ---------------------------------------------------------------- write, then read

  /** Where two bytes go to one address, they are the same. */
  ghost predicate Consistent(ps: seq<nat>, src: seq<byte>)
    requires |ps| == |src|
  {
    forall i, j :: 0 <= i < j < |ps| && ps[i] == ps[j] ==> src[i] == src[j]
  }

  /** What an address holds is the byte last written to it. */
  lemma {:induction false} WriteAtReads(m: Mem, ps: seq<nat>, src: seq<byte>, k: nat)
    requires |ps| == |src| && k < |ps| && Consistent(ps, src)
    ensures ByteAt(WriteAt(m, ps, src), ps[k]) == src[k]
    decreases |ps|
  {
    var n := |ps| - 1;
    SetByteAt(WriteAt(m, ps[..n], src[..n]), ps[n], src[n], ps[k]);
    if k >= n {
    } else {
      WriteAtReads(m, ps[..n], src[..n], k);
    }
  }

  /** Distinct pages of the range lead to distinct frames. */
  ghost predicate DistinctFrames(ptr: nat, ps: seq<nat>) {
    forall i, j :: 0 <= i < j < |ps| && (ptr + i) / PAGE != (ptr + j) / PAGE ==> ps[i] / PAGE != ps[j] / PAGE
  }

  lemma {:induction false} FollowApart(m: Mem, root: nat, ptr: nat, ps: seq<nat>, k: nat, j: nat)
    requires Follow(Translations(m, root, ptr, |ps|), ps) && DistinctFrames(ptr, ps) && k < j < |ps|
    ensures ps[j] != ps[k]
  {
    TranslationsAt(m, root, ptr, |ps|, k);
    TranslationsAt(m, root, ptr, |ps|, j);
    PageByte(m, root, ptr + k, 0, ps[k]);
    PageByte(m, root, ptr + j, 0, ps[j]);
    SameOffset(ptr + k, ptr + j, ps[k], ps[j]);
  }

  lemma SameOffset(a: nat, b: nat, p: nat, q: nat)
    requires a < b && p % PAGE == a % PAGE && q % PAGE == b % PAGE && (a / PAGE != b / PAGE ==> p / PAGE != q / PAGE)
    ensures p != q
  {
  }

  /** Then no two bytes go to one address. */
  lemma {:induction false} DistinctConsistent(m: Mem, root: nat, ptr: nat, ps: seq<nat>, src: seq<byte>)
    requires Follow(Translations(m, root, ptr, |ps|), ps) && DistinctFrames(ptr, ps) && |ps| == |src|
    ensures Consistent(ps, src)
  {
    forall i, j | 0 <= i < j < |ps| ensures ps[i] != ps[j] {
      FollowApart(m, root, ptr, ps, i, j);
    }
  }

  lemma FollowSame(trs: seq<Option<nat>>, ps: seq<nat>, qs: seq<nat>)
    requires Follow(trs, ps) && Follow(trs, qs) && |ps| == |qs|
    ensures ps == qs
  {
    assert forall i :: 0 <= i < |ps| ==> trs[i] == Some(ps[i]) && trs[i] == Some(qs[i]);
  }

  /** After a write to a clear range that ends well, every address of it leads where it led. */
  lemma {:induction false} WriteKeepsPlaces(m: Mem, m': Mem, root: nat, ptr: nat, ps: seq<nat>, src: seq<byte>)
    requires Clear(m, root, ptr, Translations(m, root, ptr, |src|)) && CopyTo(m, root, ptr, src) == (Done, m')
    requires Follow(Translations(m, root, ptr, |src|), ps) && |ps| == |src|
    ensures m' == WriteAt(m, ps, src) && Follow(Translations(m', root, ptr, |src|), ps)
  {
    var trs := Translations(m, root, ptr, |src|);
    var qs := WriteLoopMeans(m, m, root, ptr, trs, src, [], PAGE);
    FollowSame(trs, ps, qs);
    assert src[..|ps|] == src;
    forall k | 0 <= k < |ps| ensures Translations(m', root, ptr, |src|)[k] == Some(ps[k]) {
      TranslationsAt(m, root, ptr, |src|, k);
      TranslationsAt(m', root, ptr, |src|, k);
      WrittenKeepsWalk(trs, m, m', root, ptr, src, ps, k);
    }
  }

  /** A clear range that was written reads back as the source, exactly when no two addresses of it that lead to
      one place were given different bytes. */
  lemma {:induction false} WriteThenRead(m: Mem, m': Mem, root: nat, ptr: nat, ps: seq<nat>, src: seq<byte>)
    requires Clear(m, root, ptr, Translations(m, root, ptr, |src|)) && CopyTo(m, root, ptr, src) == (Done, m')
    requires Follow(Translations(m, root, ptr, |src|), ps) && |ps| == |src|
    ensures CopyFrom(m', root, ptr, |src|) == (Done, src) <==> Consistent(ps, src)
    ensures CopyFrom(m', root, ptr, |src|).0 == Done
  {
    WriteKeepsPlaces(m, m', root, ptr, ps, src);
    var bytes := seq(|ps|, i requires 0 <= i < |ps| => ByteAt(m', ps[i]));
    PeekFollows(m', root, ptr, |src|, ps, bytes);
    if Consistent(ps, src) {
      forall k | 0 <= k < |ps| ensures bytes[k] == src[k] {
        WriteAtReads(m, ps, src, k);
      }
      assert bytes == src;
    }
  }
}
