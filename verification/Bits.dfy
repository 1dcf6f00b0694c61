/** Bitwise or of naturals, as far as page-table entries need it. */
module Bits {
  import opened Alignment

  /** The or of the low k bits. */
  function Or(a: nat, b: nat, k: nat): nat
    decreases k, a, b
  {
    if k == 0 then 0 else 2 * Or(a / 2, b / 2, k - 1) + if a % 2 == 1 || b % 2 == 1 then 1 else 0
  }

  function Pow2(k: nat): (p: nat)
    ensures p > 0
  {
    if k == 0 then 1 else 2 * Pow2(k - 1)
  }

  function Shr(x: nat, k: nat): nat
    decreases k, x
  {
    if k == 0 then x else Shr(x / 2, k - 1)
  }

  /** The low k bits. */
  function Low(x: nat, k: nat): nat
    decreases k, x
  {
    if k == 0 then 0 else x % 2 + 2 * Low(x / 2, k - 1)
  }

  lemma {:induction false} OrBelow(a: nat, b: nat, k: nat)
    ensures Or(a, b, k) < Pow2(k)
    decreases k
  {
    if k == 0 {
    } else {
      OrBelow(a / 2, b / 2, k - 1);
    }
  }

  lemma {:induction false} OrShr(a: nat, b: nat, k: nat, j: nat)
    requires j <= k
    ensures Shr(Or(a, b, k), j) == Or(Shr(a, j), Shr(b, j), k - j)
    decreases j
  {
    if j == 0 {
    } else {
      assert Or(a, b, k) / 2 == Or(a / 2, b / 2, k - 1);
      OrShr(a / 2, b / 2, k - 1, j - 1);
    }
  }

  lemma {:induction false} OrLow(a: nat, b: nat, k: nat, j: nat)
    requires j <= k
    ensures Low(Or(a, b, k), j) == Or(a, b, j)
    decreases j
  {
    if j == 0 {
    } else {
      var w := Or(a, b, k);
      assert w / 2 == Or(a / 2, b / 2, k - 1) && (w % 2 == 1 <==> a % 2 == 1 || b % 2 == 1);
      OrLow(a / 2, b / 2, k - 1, j - 1);
    }
  }

  /** Or with no bits. */
  lemma {:induction false} OrNothing(a: nat, b: nat, k: nat)
    requires Low(b, k) == 0
    ensures Or(a, b, k) == Low(a, k)
    decreases k
  {
    if k == 0 {
    } else {
      OrNothing(a / 2, b / 2, k - 1);
    }
  }

  lemma OrOdd(a: nat, b: nat, k: nat)
    requires k > 0 && b % 2 == 1
    ensures Or(a, b, k) % 2 == 1
  {
  }

  /** x is its low k bits plus a multiple of 2^k. */
  lemma {:induction false} LowSplits(x: nat, k: nat)
    ensures Low(x, k) < Pow2(k) && x == Pow2(k) * Shr(x, k) + Low(x, k)
    decreases k
  {
    if k == 0 {
    } else {
      LowSplits(x / 2, k - 1);
      Double(Shr(x / 2, k - 1), Pow2(k - 1));
    }
  }

  lemma Double(q: nat, p: nat)
    ensures (2 * p) * q == 2 * (p * q)
  {
  }

  lemma {:induction false} ShrIs(x: nat, k: nat, p: nat)
    requires Pow2(k) == p
    ensures Shr(x, k) == x / p
  {
    LowSplits(x, k);
    ModUnique(x, p, Shr(x, k), Low(x, k));
  }

  /** One bit of an or. */
  lemma {:induction false} OrBit(a: nat, b: nat, k: nat, j: nat)
    requires j < k
    ensures Shr(Or(a, b, k), j) % 2 == 1 <==> Shr(a, j) % 2 == 1 || Shr(b, j) % 2 == 1
  {
    OrShr(a, b, k, j);
    OrLast(Shr(a, j), Shr(b, j), k - j);
  }

  lemma OrLast(a: nat, b: nat, k: nat)
    requires k > 0
    ensures Or(a, b, k) % 2 == 1 <==> a % 2 == 1 || b % 2 == 1
  {
    var h, bit := Or(a / 2, b / 2, k - 1), if a % 2 == 1 || b % 2 == 1 then 1 else 0;
    ModUnique(Or(a, b, k), 2, h, bit);
  }

  lemma {:induction false} PageNumber(x: nat)
    ensures Shr(x, 12) == x / 4096
  {
    Pow2Plus8(4);
    ShrIs(x, 12, 4096);
  }

  lemma {:induction false} Pow2Plus8(k: nat)
    ensures Pow2(k + 8) == 256 * Pow2(k)
  {
    assert Pow2(k + 2) == 4 * Pow2(k);
    assert Pow2(k + 4) == 4 * Pow2(k + 2);
    assert Pow2(k + 6) == 4 * Pow2(k + 4);
    assert Pow2(k + 8) == 4 * Pow2(k + 6);
  }

  lemma Pow40()
    ensures Pow2(40) == 0x100_0000_0000
  {
    Pow2Plus8(0);
    Pow2Plus8(8);
    Pow2Plus8(16);
    Pow2Plus8(24);
    Pow2Plus8(32);
  }

  lemma Pow64()
    ensures Pow2(64) == 0x1_0000_0000_0000_0000
  {
    Pow40();
    Pow2Plus8(40);
    Pow2Plus8(48);
    Pow2Plus8(56);
  }

  lemma Pow63()
    ensures Pow2(63) == 0x8000_0000_0000_0000
  {
    Pow64();
    assert Pow2(64) == 2 * Pow2(63);
  }
}
