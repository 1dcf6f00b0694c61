/** Power-of-two alignment, shared by the heap, the frame allocator and the loader.
    Masking with `!(align - 1)` is subtraction of the remainder when align is a power of two. */
module Alignment {

  const WORD: nat := 0x1_0000_0000_0000_0000
  const PAGE: nat := 4096

  function Max(a: nat, b: nat): nat { if a < b then b else a }
  function Min(a: nat, b: nat): nat { if a < b then a else b }

  predicate IsPow2(n: nat) {
    n == 1 || (n > 1 && n % 2 == 0 && IsPow2(n / 2))
  }

  function AlignDown(x: nat, align: nat): (r: nat)
    requires align > 0
    ensures r <= x < r + align && r % align == 0
  {
    DivMod(x, align);
    if x % align == 0 then x else x / align * align
  }

  function AlignUp(x: nat, align: nat): (r: nat)
    requires align > 0
    ensures x <= r < x + align && r % align == 0
  {
    if x % align == 0 then x else AlignDown(x + align - 1, align)
  }

  lemma DivMod(x: nat, d: nat)
    requires d > 0
    ensures x / d * d <= x < x / d * d + d
    ensures (x / d * d) % d == 0
  {
    MulMod(x / d, d);
  }

  lemma {:induction false} MulMod(q: nat, d: nat)
    requires d > 0
    ensures (q * d) % d == 0
  {
    if q == 0 {
    } else {
      MulMod(q - 1, d);
      assert q * d == (q - 1) * d + d;
      ModAdd((q - 1) * d, d);
    }
  }

  lemma ModAdd(x: nat, d: nat)
    requires d > 0
    ensures (x + d) % d == x % d
  {
    assert x + d == d * (x / d + 1) + x % d;
    ModUnique(x + d, d, x / d + 1, x % d);
  }

  lemma MulAtLeast(d: nat, k: int)
    requires k >= 1
    ensures d * k >= d
  {
    assert d * k == d * (k - 1) + d;
  }

  lemma MulMono(d: nat, p: nat, q: nat)
    requires p <= q
    ensures d * p <= d * q
  {
    assert d * q == d * p + d * (q - p);
  }

  lemma ModUnique(x: int, d: nat, q: int, r: nat)
    requires d > 0 && r < d && x == d * q + r
    ensures x / d == q && x % d == r
  {
    var q', r' := x / d, x % d;
    assert x == d * q' + r';
    SameQuotient(d, q, r, q', r');
  }

  lemma SameQuotient(d: nat, q: int, r: nat, q': int, r': nat)
    requires d > 0 && r < d && r' < d && d * q + r == d * q' + r'
    ensures q == q' && r == r'
  {
    assert d * (q - q') == r' - r && d * (q' - q) == r - r';
    if q > q' {
      MulAtLeast(d, q - q');
    } else if q < q' {
      MulAtLeast(d, q' - q);
    }
  }

  /** An aligned address is its own round-up. */
  lemma AlignedUp(x: nat, align: nat)
    requires align > 0 && x % align == 0
    ensures AlignUp(x, align) == x
  {
    AlignUpLeast(x, align, x);
  }

  /** A multiple of a power of two that is at least 8 is a multiple of 8. */
  lemma Pow2Multiple(align: nat, x: nat)
    requires IsPow2(align) && align >= 8 && x % align == 0
    ensures x % 8 == 0
  {
    EightDivides(align);
    MultipleOf8(align / 8, x / align, x, align);
  }

  lemma EightDivides(align: nat)
    requires IsPow2(align) && align >= 8
    ensures align == 8 * (align / 8)
  {
    assert IsPow2(align / 2);
    assert IsPow2(align / 2 / 2);
  }

  lemma MultipleOf8(m: nat, q: nat, x: nat, align: nat)
    requires align == 8 * m && align > 0 && x % align == 0 && q == x / align
    ensures x % 8 == 0
  {
    assert x == align * q;
    assert (8 * m) * q == 8 * (m * q);
    ModUnique(x, 8, m * q, 0);
  }

  /** The first multiple of align at or above x is the least one. */
  lemma AlignUpLeast(x: nat, align: nat, y: nat)
    requires align > 0 && y % align == 0 && x <= y
    ensures AlignUp(x, align) <= y
  {
    var r := AlignUp(x, align);
    if y < r {
      var p, q := r / align, y / align;
      assert align * p == r && align * q == y;
      if p <= q {
        MulMono(align, p, q);
      }
      assert r - y == align * (p - q);
      MulAtLeast(align, p - q);
    }
  }
}
