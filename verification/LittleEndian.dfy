/** Little-endian numbers: as byte strings and as the bytes of a memory word. */
module LittleEndian {

  type byte = x: int | 0 <= x < 256

  function Pow256(n: nat): (p: nat)
    ensures p > 0
  {
    if n == 0 then 1 else 256 * Pow256(n - 1)
  }

  function Decode(b: seq<byte>): nat {
    if b == [] then 0 else b[0] + 256 * Decode(b[1..])
  }

  function Encode(v: nat, n: nat): (b: seq<byte>)
    ensures |b| == n
  {
    if n == 0 then [] else [v % 256] + Encode(v / 256, n - 1)
  }

  lemma {:induction false} DecodeEncode(v: nat, n: nat)
    requires v < Pow256(n)
    ensures Decode(Encode(v, n)) == v
    decreases n
  {
    if n == 0 {
    } else {
      DecodeEncode(v / 256, n - 1);
      assert Encode(v, n)[1..] == Encode(v / 256, n - 1);
    }
  }

  lemma {:induction false} EncodeDecode(b: seq<byte>)
    ensures Decode(b) < Pow256(|b|) && Encode(Decode(b), |b|) == b
  {
    if b == [] {
    } else {
      EncodeDecode(b[1..]);
      assert Decode(b) / 256 == Decode(b[1..]) && Decode(b) % 256 == b[0];
    }
  }

  lemma SingleByte(b: seq<byte>, at: nat)
    requires at < |b|
    ensures Decode(b[at..at + 1]) == b[at]
  {
    assert b[at..at + 1] == [b[at]];
  }

  /** Byte k of a word. */
  function Digit(w: nat, k: nat): byte {
    if k == 0 then w % 256 else Digit(w / 256, k - 1)
  }

  function SetDigit(w: nat, k: nat, b: byte): nat {
    if k == 0 then w - w % 256 + b else w % 256 + 256 * SetDigit(w / 256, k - 1, b)
  }

  lemma {:induction false} DigitSet(w: nat, k: nat, b: byte, j: nat)
    ensures Digit(SetDigit(w, k, b), j) == if j == k then b else Digit(w, j)
    decreases k
  {
    var v := SetDigit(w, k, b);
    if k == 0 {
      assert v / 256 == w / 256;
    } else {
      assert v % 256 == w % 256 && v / 256 == SetDigit(w / 256, k - 1, b);
      if j > 0 {
        DigitSet(w / 256, k - 1, b, j - 1);
      }
    }
  }

  lemma {:induction false} SetDigitBound(w: nat, k: nat, b: byte, n: nat)
    requires w < Pow256(n) && k < n
    ensures SetDigit(w, k, b) < Pow256(n)
    decreases k
  {
    var p := Pow256(n - 1);
    assert w / 256 < p && w - w % 256 == 256 * (w / 256);
    if k == 0 {
    } else {
      SetDigitBound(w / 256, k - 1, b, n - 1);
    }
  }

  /** A word without its k lowest bytes. */
  function Drop(w: nat, k: nat): nat { if k == 0 then w else Drop(w / 256, k - 1) }

  lemma {:induction false} DigitDrop(w: nat, k: nat)
    ensures Drop(w, k) == Digit(w, k) + 256 * Drop(w, k + 1)
    decreases k
  {
    if k == 0 {
    } else {
      DigitDrop(w / 256, k - 1);
    }
  }

  lemma {:induction false} DropAll(w: nat, n: nat)
    requires w < Pow256(n)
    ensures Drop(w, n) == 0
    decreases n
  {
    if n == 0 {
    } else {
      DropAll(w / 256, n - 1);
    }
  }

  lemma {:induction false} DropWord(w: nat, n: nat)
    requires n == 8 && w < 0x1_0000_0000_0000_0000
    ensures Drop(w, n) == 0
  {
    Powers();
    assert Pow256(n) == Pow256(8);
    DropAll(w, n);
  }

  lemma {:induction false} ZeroDigit(k: nat)
    ensures Digit(0, k) == 0
  {
    if k == 0 {
    } else {
      ZeroDigit(k - 1);
    }
  }

  lemma {:induction false} Powers()
    ensures Pow256(2) == 0x1_0000
    ensures Pow256(4) == 0x1_0000_0000
    ensures Pow256(8) == 0x1_0000_0000_0000_0000
  {
    assert Pow256(1) == 256;
    assert Pow256(3) == 0x100_0000;
    assert Pow256(6) == 256 * (256 * Pow256(4));
  }

  // ---------------------------------------------------------------- records of fields

  /** A field of a record: a number and its width in bytes. */
  datatype Num = Num(value: nat, width: nat)

  /** Where field k starts. */
  function Offset(fs: seq<Num>, k: nat): nat
    requires k <= |fs|
  {
    if k == 0 then 0 else Offset(fs, k - 1) + fs[k - 1].width
  }

  function Pack(fs: seq<Num>): seq<byte> {
    if fs == [] then [] else Pack(fs[..|fs| - 1]) + Encode(fs[|fs| - 1].value, fs[|fs| - 1].width)
  }

  lemma {:induction false} OffsetInit(fs: seq<Num>, n: nat, k: nat)
    requires k <= n <= |fs|
    ensures Offset(fs[..n], k) == Offset(fs, k)
    decreases k
  {
    if k == 0 {
    } else {
      OffsetInit(fs, n, k - 1);
    }
  }

  lemma {:induction false} PackLength(fs: seq<Num>)
    ensures |Pack(fs)| == Offset(fs, |fs|)
    decreases |fs|
  {
    if fs == [] {
    } else {
      PackLength(fs[..|fs| - 1]);
      OffsetInit(fs, |fs| - 1, |fs| - 1);
    }
  }

  /** Each field of a packed record is found at its offset, whatever follows the record. */
  lemma {:induction false} PackAt(fs: seq<Num>, k: nat, rest: seq<byte>)
    requires k < |fs| && fs[k].value < Pow256(fs[k].width)
    ensures var at, b := Offset(fs, k), Pack(fs) + rest;
      at + fs[k].width <= |b| && Decode(b[at..at + fs[k].width]) == fs[k].value
    decreases |fs|
  {
    var n := |fs| - 1;
    var init, e := fs[..n], Encode(fs[n].value, fs[n].width);
    PackLength(init);
    OffsetInit(fs, n, k);
    OffsetInit(fs, n, n);
    assert Pack(fs) + rest == Pack(init) + (e + rest);
    if k < n {
      PackAt(init, k, e + rest);
    } else {
      assert (Pack(init) + (e + rest))[|Pack(init)|..|Pack(init)| + fs[n].width] == e;
      DecodeEncode(fs[n].value, fs[n].width);
    }
  }
}
