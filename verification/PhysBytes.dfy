/** Byte access to the word memory that holds the page tables. */
module PhysBytes {
  import opened Alignment
  import opened LittleEndian
  import opened PageTables

  function WordOf(a: nat): nat { if a % 8 == 0 then a else a - a % 8 }

  function ByteAt(m: Mem, a: nat): byte {
    Digit(Word(m, WordOf(a)), a % 8)
  }

  function SetByte(m: Mem, a: nat, b: byte): Mem {
    var w := Word(m, WordOf(a));
    Powers();
    SetDigitBound(w, a % 8, b, 8);
    m[WordOf(a) := SetDigit(w, a % 8, b)]
  }

  /** Copy data to consecutive physical addresses. */
  function SetBytes(m: Mem, a: nat, data: seq<byte>): Mem {
    if data == [] then m
    else SetByte(SetBytes(m, a, data[..|data| - 1]), a + |data| - 1, data[|data| - 1])
  }

  lemma {:induction false} SetByteAt(m: Mem, a: nat, b: byte, x: nat)
    ensures ByteAt(SetByte(m, a, b), x) == if x == a then b else ByteAt(m, x)
  {
    DigitSet(Word(m, WordOf(a)), a % 8, b, x % 8);
    assert WordOf(x) == WordOf(a) && x % 8 == a % 8 ==> x == a;
  }

  lemma {:induction false} SetBytesAt(m: Mem, a: nat, data: seq<byte>, x: nat)
    ensures ByteAt(SetBytes(m, a, data), x) == if a <= x < a + |data| then data[x - a] else ByteAt(m, x)
    decreases |data|
  {
    if data == [] {
    } else {
      var init := data[..|data| - 1];
      SetBytesAt(m, a, init, x);
      SetByteAt(SetBytes(m, a, init), a + |data| - 1, data[|data| - 1], x);
    }
  }

  /** The number that the n bytes from a on are, the lowest byte first. */
  function Number(m: Mem, a: nat, n: nat): nat
    decreases n
  {
    if n == 0 then 0 else ByteAt(m, a) + 256 * Number(m, a + 1, n - 1)
  }

  lemma ByteInWord(m: Mem, a: nat, k: nat)
    requires a % 8 == 0 && k < 8
    ensures ByteAt(m, a + k) == Digit(Word(m, a), k)
  {
    ModUnique(a + k, 8, a / 8, k);
    assert WordOf(a + k) == a;
  }

  lemma {:induction false} NumberIsRest(m: Mem, a: nat, w: nat, k: nat, n: nat)
    requires a % 8 == 0 && k + n == 8 && w == Word(m, a) && Drop(w, k + n) == 0
    ensures Number(m, a + k, n) == Drop(w, k)
    decreases n
  {
    if n == 0 {
    } else {
      NumberIsRest(m, a, w, k + 1, n - 1);
      DigitDrop(w, k);
      ByteInWord(m, a, k);
      assert a + k + 1 == a + (k + 1);
    }
  }

  /** An aligned word, as the processor reads it, is its n = 8 bytes, the lowest first. */
  lemma {:induction false} WordIsBytes(m: Mem, a: nat, n: nat)
    requires a % 8 == 0 && n == 8
    ensures Word(m, a) == Number(m, a, n)
  {
    var w, k := Word(m, a), n - 8;
    DropWord(w, n);
    assert k + n == n && a + k == a;
    NumberIsRest(m, a, w, k, n);
  }

  /** n bytes of data from src on, copied to physical address a. */
  function CopySlice(m: Mem, a: nat, data: seq<byte>, src: nat, n: nat): Mem
    requires src + n <= |data|
    decreases n, a
  {
    if n == 0 then m else SetByte(CopySlice(m, a, data, src, n - 1), a + n - 1, data[src + n - 1])
  }

  lemma {:induction false} CopySliceSets(m: Mem, a: nat, data: seq<byte>, src: nat, n: nat)
    requires src + n <= |data|
    ensures CopySlice(m, a, data, src, n) == SetBytes(m, a, data[src..src + n])
    decreases n
  {
    if n == 0 {
      assert data[src..src + n] == [];
    } else {
      CopySliceSets(m, a, data, src, n - 1);
      SliceInit(data, src, n);
    }
  }

  lemma {:induction false} CopySliceAt(m: Mem, a: nat, data: seq<byte>, src: nat, n: nat, x: nat)
    requires src + n <= |data|
    ensures ByteAt(CopySlice(m, a, data, src, n), x) == if a <= x < a + n then data[src + (x - a)] else ByteAt(m, x)
  {
    CopySliceSets(m, a, data, src, n);
    SetBytesAt(m, a, data[src..src + n], x);
  }

  lemma SliceInit(data: seq<byte>, src: nat, n: nat)
    requires n > 0 && src + n <= |data|
    ensures var chunk := data[src..src + n];
      |chunk| == n && chunk[..n - 1] == data[src..src + (n - 1)] && chunk[n - 1] == data[src + n - 1]
  {
  }

  /** Bytes written inside one frame leave every word outside it alone. */
  lemma {:induction false} SetBytesKeeps(m: Mem, f: nat, a: nat, data: seq<byte>, x: nat)
    requires f % PAGE == 0 && f <= a && a + |data| <= f + PAGE && !(f <= x < f + PAGE)
    ensures Word(SetBytes(m, a, data), x) == Word(m, x)
    decreases |data|
  {
    if data == [] {
    } else {
      SetBytesKeeps(m, f, a, data[..|data| - 1], x);
      WordInFrame(f, a + |data| - 1);
    }
  }

  lemma WordInFrame(f: nat, a: nat)
    requires f % PAGE == 0 && f <= a < f + PAGE
    ensures f <= WordOf(a) < f + PAGE
  {
    var q, k := f / PAGE, a - f;
    ModUnique(a, 8, 512 * q + k / 8, k % 8);
  }

  lemma SamePageWord(x: nat)
    ensures WordOf(x) - WordOf(x) % PAGE == x - x % PAGE
  {
    var q, k := x / PAGE, x % PAGE;
    ModUnique(x, 8, 512 * q + k / 8, k % 8);
    ModUnique(WordOf(x), PAGE, q, k - k % 8);
  }

  /** A zeroed frame reads as zero bytes. */
  lemma {:induction false} ZeroPageBytes(m: Mem, f: nat, x: nat)
    requires f % PAGE == 0
    ensures f <= x < f + PAGE ==> ByteAt(ZeroPage(m, f), x) == 0
    ensures !(f <= x < f + PAGE) ==> ByteAt(ZeroPage(m, f), x) == ByteAt(m, x)
  {
    ZeroWordsAt(m, f, ENTRIES, WordOf(x));
    ZeroDigit(x % 8);
    if f <= x < f + PAGE {
      WordInFrame(f, x);
      FrameWords(f, x);
    } else {
      OutsideWords(f, x);
    }
  }

  lemma FrameWords(f: nat, x: nat)
    requires f % PAGE == 0 && f <= x < f + PAGE
    ensures InWords(WordOf(x), f, ENTRIES)
  {
    var q, k := f / PAGE, x - f;
    ModUnique(x, 8, 512 * q + k / 8, k % 8);
    ModUnique(WordOf(x) - f, 8, k / 8, 0);
  }

  lemma OutsideWords(f: nat, x: nat)
    requires f % PAGE == 0 && !(f <= x < f + PAGE)
    ensures !InWords(WordOf(x), f, ENTRIES)
  {
  }
}
