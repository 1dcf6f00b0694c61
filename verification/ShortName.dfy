/** 8.3 names: from a path to the eleven bytes of a directory entry and back. */
module ShortName {
  import opened Options
  import opened LittleEndian

  const SPACE: byte := 32

  // ---------------------------------------------------------------- from path to name

  function TrimStart(p: string): string {
    if p != [] && p[0] == '/' then TrimStart(p[1..]) else p
  }

  function TrimEnd(p: string): string {
    if p != [] && p[|p| - 1] == '/' then TrimEnd(p[..|p| - 1]) else p
  }

  /** `trim_matches('/')`. */
  function Trim(p: string): string { TrimEnd(TrimStart(p)) }

  /** The first dot, the length if there is none. */
  function Dot(p: string): (d: nat)
    ensures d <= |p| && '.' !in p[..d] && (d < |p| ==> p[d] == '.')
  {
    if p == [] || p[0] == '.' then 0
    else
      assert p[..1 + Dot(p[1..])] == [p[0]] + p[1..][..Dot(p[1..])];
      1 + Dot(p[1..])
  }

  /** `to_short_char`. */
  function ShortChar(c: char): Option<byte> {
    if 'a' <= c <= 'z' then Some(c as int - 32)
    else if 'A' <= c <= 'Z' || '0' <= c <= '9' || c == '_' then Some(c as int)
    else None
  }

  function Fold(p: string): (r: Option<seq<byte>>)
    ensures r.Some? ==> |r.value| == |p|
  {
    if p == [] then Some([])
    else
      var init, last := Fold(p[..|p| - 1]), ShortChar(p[|p| - 1]);
      if init.Some? && last.Some? then Some(init.value + [last.value]) else None
  }

  function Spaces(n: nat): (s: seq<byte>)
    ensures |s| == n
  {
    if n == 0 then [] else [SPACE] + Spaces(n - 1)
  }

  function Pad(x: seq<byte>, n: nat): (s: seq<byte>)
    requires |x| <= n
    ensures |s| == n
  {
    x + Spaces(n - |x|)
  }

  function NamePart(t: string): string { t[..Dot(t)] }
  function ExtPart(t: string): string { if Dot(t) < |t| then t[Dot(t) + 1..] else [] }

  /** A trimmed path that has the shape of an 8.3 name. */
  predicate Shaped(t: string) {
    '/' !in t && '.' !in ExtPart(t) && 1 <= |NamePart(t)| <= 8 && |ExtPart(t)| <= 3
  }

  /** `format_short_name`. */
  function Format(path: string): Option<seq<byte>> {
    var t := Trim(path);
    if !Shaped(t) then None
    else
      var name, ext := Fold(NamePart(t)), Fold(ExtPart(t));
      if name.None? || ext.None? then None else Some(Pad(name.value, 8) + Pad(ext.value, 3))
  }

  /** The loop that fills one part of the name. */
  method FillPart(part: string, short: array<byte>, at: nat) returns (ok: bool)
    requires at + |part| <= short.Length
    modifies short
    ensures ok <==> Fold(part).Some?
    ensures ok ==> short[at..at + |part|] == Fold(part).value
    ensures forall k :: 0 <= k < short.Length && !(at <= k < at + |part|) ==> short[k] == old(short[k])
  {
    var i := 0;
    assert part[..0] == [] && short[at..at] == [];
    while i < |part|
      invariant i <= |part| && Fold(part[..i]) == Some(short[at..at + i])
      invariant forall k :: 0 <= k < short.Length && !(at <= k < at + |part|) ==> short[k] == old(short[k])
    {
      var c := ShortChar(part[i]);
      assert part[..i + 1][..i] == part[..i];
      if c.None? {
        FoldPrefix(part, i + 1);
        return false;
      }
      ghost var sofar := short[at..at + i];
      short[at + i] := c.value;
      assert short[at..at + i + 1] == sofar + [c.value];
      i := i + 1;
    }
    assert part[..i] == part;
    return true;
  }

  lemma {:induction false} FoldPrefix(p: string, i: nat)
    requires i <= |p| && Fold(p[..i]).None?
    ensures Fold(p).None?
    decreases |p|
  {
    if i == |p| {
      assert p[..i] == p;
    } else {
      assert p[..|p| - 1][..i] == p[..i];
      FoldPrefix(p[..|p| - 1], i);
    }
  }

  method FormatShortName(path: string) returns (r: Option<seq<byte>>)
    ensures r == Format(path)
  {
    var t := Trim(path);
    if t == [] {
      return None;
    }
    if '/' in t {
      return None;
    }
    var name, ext := NamePart(t), ExtPart(t);
    if '.' in ext {
      return None;
    }
    if name == [] || |name| > 8 {
      return None;
    }
    if |ext| > 3 {
      return None;
    }
    var short := new byte[11](_ => SPACE);
    var ok := FillPart(name, short, 0);
    if !ok {
      return None;
    }
    ghost var s1 := short[..];
    ok := FillPart(ext, short, 8);
    if !ok {
      return None;
    }
    Assemble(s1, short[..], Fold(name).value, Fold(ext).value);
    return Some(short[..]);
  }

  lemma {:induction false} SpacesAt(n: nat, k: nat)
    requires k < n
    ensures Spaces(n)[k] == SPACE
  {
    if k == 0 {
    } else {
      SpacesAt(n - 1, k - 1);
    }
  }

  lemma {:induction false} Assemble(s1: seq<byte>, s: seq<byte>, name: seq<byte>, ext: seq<byte>)
    requires |s1| == |s| == 11 && |name| <= 8 && |ext| <= 3
    requires s1[0..|name|] == name && (forall k :: |name| <= k < 11 ==> s1[k] == SPACE)
    requires s[8..8 + |ext|] == ext && (forall k :: 0 <= k < 11 && !(8 <= k < 8 + |ext|) ==> s[k] == s1[k])
    ensures s == Pad(name, 8) + Pad(ext, 3)
  {
    var r := Pad(name, 8) + Pad(ext, 3);
    forall k | 0 <= k < 11 ensures s[k] == r[k] {
      if k < |name| {
        assert s1[k] == s1[0..|name|][k];
      } else if k < 8 {
        SpacesAt(8 - |name|, k - |name|);
      } else if k < 8 + |ext| {
        assert s[k] == s[8..8 + |ext|][k - 8];
      } else {
        SpacesAt(3 - |ext|, k - 8 - |ext|);
      }
    }
  }

  // ---------------------------------------------------------------- from name to path

  predicate ShortByte(b: byte) { 'A' as int <= b <= 'Z' as int || '0' as int <= b <= '9' as int || b == '_' as int }

  /** Up to the padding. */
  function Stem(s: seq<byte>): (x: seq<byte>)
    ensures |x| <= |s|
  {
    if s == [] || s[0] == SPACE then [] else [s[0]] + Stem(s[1..])
  }

  predicate AllShort(x: seq<byte>) {
    x == [] || (AllShort(x[..|x| - 1]) && ShortByte(x[|x| - 1]))
  }

  /** Letters, digits and underscores, then spaces only. */
  predicate Tidy(s: seq<byte>) { AllShort(Stem(s)) && s == Pad(Stem(s), |s|) }

  /** A name as a directory entry holds it. */
  predicate ValidName(s: seq<byte>) {
    |s| == 11 && Stem(s[..8]) != [] && Tidy(s[..8]) && Tidy(s[8..])
  }

  function Text(x: seq<byte>): (t: string)
    ensures |t| == |x|
  {
    if x == [] then [] else Text(x[..|x| - 1]) + [x[|x| - 1] as char]
  }

  /** The usual way to write a name. */
  function Print(s: seq<byte>): string
    requires |s| == 11
  {
    var name, ext := Text(Stem(s[..8])), Text(Stem(s[8..]));
    if ext == [] then name else name + ['.'] + ext
  }

  function Upper(p: string): (r: string)
    ensures |r| == |p|
  {
    if p == [] then []
    else var c := p[|p| - 1]; Upper(p[..|p| - 1]) + [if 'a' <= c <= 'z' then (c as int - 32) as char else c]
  }

  /** A path without the outer slashes, in capitals, without the dot of an empty extension. */
  function Canonical(path: string): string {
    var t := Trim(path);
    if ExtPart(t) == [] then Upper(NamePart(t)) else Upper(NamePart(t)) + ['.'] + Upper(ExtPart(t))
  }

  // ---------------------------------------------------------------- folding

  lemma {:induction false} FoldShort(p: string)
    requires Fold(p).Some?
    ensures AllShort(Fold(p).value) && Text(Fold(p).value) == Upper(p)
    decreases |p|
  {
    if p == [] {
    } else {
      FoldShort(p[..|p| - 1]);
      var x := Fold(p).value;
      assert x[..|x| - 1] == Fold(p[..|p| - 1]).value;
    }
  }

  lemma ShortBack(b: byte)
    requires ShortByte(b)
    ensures var c := b as char; ShortChar(c) == Some(b) && c != '.' && c != '/'
  {
  }

  lemma {:induction false} FoldText(x: seq<byte>)
    requires AllShort(x)
    ensures Fold(Text(x)) == Some(x)
    decreases |x|
  {
    if x == [] {
    } else {
      var n := |x| - 1;
      FoldText(x[..n]);
      FoldOne(x[..n], x[n]);
      assert x[..n] + [x[n]] == x;
    }
  }

  lemma {:induction false} FoldOne(x: seq<byte>, b: byte)
    requires ShortByte(b) && Fold(Text(x)) == Some(x)
    ensures Fold(Text(x + [b])) == Some(x + [b])
  {
    TextOne(x, b);
    ShortBack(b);
    FoldChar(Text(x), b as char);
  }

  lemma TextOne(x: seq<byte>, b: byte)
    ensures Text(x + [b]) == Text(x) + [b as char]
  {
    assert (x + [b])[..|x|] == x;
  }

  lemma FoldChar(t: string, c: char)
    requires Fold(t).Some? && ShortChar(c).Some?
    ensures Fold(t + [c]) == Some(Fold(t).value + [ShortChar(c).value])
  {
    assert (t + [c])[..|t|] == t;
  }

  lemma {:induction false} NoMarks(x: seq<byte>)
    requires AllShort(x)
    ensures '.' !in Text(x) && '/' !in Text(x)
    decreases |x|
  {
    if x == [] {
    } else {
      NoMarks(x[..|x| - 1]);
      ShortBack(x[|x| - 1]);
    }
  }

  lemma {:induction false} StemSpaces(n: nat)
    ensures Stem(Spaces(n)) == []
  {
  }

  lemma {:induction false} AllShortAt(x: seq<byte>, k: nat)
    requires AllShort(x) && k < |x|
    ensures ShortByte(x[k])
    decreases |x|
  {
    if k >= |x| - 1 {
    } else {
      AllShortAt(x[..|x| - 1], k);
    }
  }

  lemma {:induction false} StemPad(x: seq<byte>, n: nat)
    requires |x| <= n && forall k :: 0 <= k < |x| ==> x[k] != SPACE
    ensures Stem(Pad(x, n)) == x
    decreases |x|
  {
    if x == [] {
      assert Pad(x, n) == Spaces(n);
      StemSpaces(n);
    } else {
      StemPad(x[1..], n - 1);
      assert Pad(x, n)[1..] == Pad(x[1..], n - 1);
    }
  }

  lemma {:induction false} PadTidy(x: seq<byte>, n: nat)
    requires |x| <= n && AllShort(x)
    ensures Stem(Pad(x, n)) == x && Tidy(Pad(x, n))
  {
    forall k | 0 <= k < |x| ensures x[k] != SPACE {
      AllShortAt(x, k);
    }
    StemPad(x, n);
  }

  /** An accepted path gives a valid name, which prints as the path's canonical form. */
  lemma {:induction false} FormatPrints(path: string)
    requires Format(path).Some?
    ensures ValidName(Format(path).value) && Print(Format(path).value) == Canonical(path)
  {
    var t := Trim(path);
    var name, ext, s := Fold(NamePart(t)).value, Fold(ExtPart(t)).value, Format(path).value;
    FoldShort(NamePart(t));
    FoldShort(ExtPart(t));
    PadTidy(name, 8);
    PadTidy(ext, 3);
    assert s[..8] == Pad(name, 8) && s[8..] == Pad(ext, 3);
  }

  // ---------------------------------------------------------------- round trip

  lemma {:induction false} TrimNone(p: string)
    requires '/' !in p
    ensures Trim(p) == p
  {
    assert p != [] ==> p[0] in p && p[|p| - 1] in p;
  }

  lemma {:induction false} DotAt(name: string, rest: string)
    requires '.' !in name && (rest == [] || rest[0] == '.')
    ensures Dot(name + rest) == |name|
    decreases |name|
  {
    if name == [] {
      assert name + rest == rest;
    } else {
      assert name[0] in name;
      DotAt(name[1..], rest);
      assert (name + rest)[1..] == name[1..] + rest;
    }
  }

  lemma {:induction false} PrintParts(name: string, ext: string, t: string)
    requires '.' !in name && t == if ext == [] then name else name + ['.'] + ext
    ensures NamePart(t) == name && ExtPart(t) == ext
  {
    var rest := if ext == [] then [] else ['.'] + ext;
    assert t == name + rest;
    DotAt(name, rest);
  }

  /** A valid name, printed and formatted again, comes back. */
  lemma {:induction false} PrintFormats(s: seq<byte>)
    requires ValidName(s)
    ensures Format(Print(s)) == Some(s)
  {
    var x, y := Stem(s[..8]), Stem(s[8..]);
    var t := Print(s);
    FoldText(x);
    FoldText(y);
    NoMarks(x);
    NoMarks(y);
    PrintParts(Text(x), Text(y), t);
    TrimNone(t);
    assert s == s[..8] + s[8..];
  }

  /** Two accepted paths name the same entry exactly when they agree up to case, outer slashes and an
      empty extension. */
  lemma {:induction false} Collide(p: string, q: string)
    requires Format(p).Some? && Format(q).Some?
    ensures Format(p) == Format(q) <==> Canonical(p) == Canonical(q)
  {
    FormatPrints(p);
    FormatPrints(q);
    PrintFormats(Format(p).value);
    PrintFormats(Format(q).value);
  }

  // ---------------------------------------------------------------- which paths are accepted, and as what

  ghost predicate Slashes(a: string) { forall i :: 0 <= i < |a| ==> a[i] == '/' }

  /** Letters, digits and underscores. */
  ghost predicate Plain(p: string) { forall i :: 0 <= i < |p| ==> PlainChar(p[i]) }

  predicate PlainChar(c: char) { 'a' <= c <= 'z' || 'A' <= c <= 'Z' || '0' <= c <= '9' || c == '_' }

  /** The path is a name of one to eight characters, with or without a dot and up to three more, between slashes. */
  ghost predicate Reads(path: string, a: string, n: string, e: string, b: string) {
    && Slashes(a) && Slashes(b) && Plain(n) && Plain(e) && 1 <= |n| <= 8 && |e| <= 3
    && (path == a + (n + ['.'] + e) + b || (e == [] && path == a + n + b))
  }

  /** Character k of a part that is padded with spaces, in capitals. */
  function Padded(p: string, k: nat): int {
    if k >= |p| then 32 else if 'a' <= p[k] <= 'z' then p[k] as int - 32 else p[k] as int
  }

  ghost predicate Spells(s: seq<byte>, n: string, e: string) {
    && |s| == 11 && (forall k :: 0 <= k < 8 ==> s[k] == Padded(n, k))
    && forall k :: 0 <= k < 3 ==> s[8 + k] == Padded(e, k)
  }

  lemma {:induction false} TrimFront(a: string, x: string)
    requires Slashes(a)
    ensures TrimStart(a + x) == TrimStart(x)
  {
    if a == [] {
      assert a + x == x;
    } else {
      assert (a + x)[0] == a[0] && (a + x)[1..] == a[1..] + x;
      TrimFront(a[1..], x);
    }
  }

  lemma {:induction false} TrimBack(x: string, b: string)
    requires Slashes(b)
    ensures TrimEnd(x + b) == TrimEnd(x)
  {
    if b == [] {
      assert x + b == x;
    } else {
      var n := |b| - 1;
      assert (x + b)[|x + b| - 1] == b[n] && (x + b)[..|x + b| - 1] == x + b[..n];
      TrimBack(x, b[..n]);
    }
  }

  /** Trimming takes the outer slashes and nothing else. */
  lemma {:induction false} TrimExactly(a: string, t: string, b: string)
    requires Slashes(a) && Slashes(b) && t != [] && t[0] != '/' && t[|t| - 1] != '/'
    ensures Trim(a + t + b) == t
  {
    assert a + t + b == a + (t + b) && (t + b)[0] == t[0];
    TrimFront(a, t + b);
    TrimBack(t, b);
  }

  lemma {:induction false} FrontTaken(p: string) returns (a: string)
    ensures Slashes(a) && p == a + TrimStart(p)
  {
    a := [];
    if p == [] || p[0] != '/' {
    } else {
      a := FrontTaken(p[1..]);
      a := ['/'] + a;
      assert p == [p[0]] + p[1..];
    }
  }

  lemma {:induction false} BackTaken(p: string) returns (b: string)
    ensures Slashes(b) && p == TrimEnd(p) + b
  {
    b := [];
    if p == [] || p[|p| - 1] != '/' {
    } else {
      b := BackTaken(p[..|p| - 1]);
      b := b + ['/'];
      assert p == p[..|p| - 1] + [p[|p| - 1]];
    }
  }

  lemma {:induction false} FoldPlain(p: string)
    ensures Fold(p).Some? <==> Plain(p)
    ensures Fold(p).Some? ==> forall k :: 0 <= k < |p| ==> Fold(p).value[k] == Padded(p, k)
  {
    if p == [] {
    } else {
      var n := |p| - 1;
      FoldPlain(p[..n]);
      if Fold(p).Some? {
        assert forall k :: 0 <= k < n ==> Padded(p, k) == Padded(p[..n], k);
        assert forall i :: 0 <= i < n ==> p[i] == p[..n][i];
      }
    }
  }

  lemma {:induction false} PadSpells(p: string, n: nat)
    requires |p| <= n && Fold(p).Some?
    ensures forall k :: 0 <= k < n ==> Pad(Fold(p).value, n)[k] == Padded(p, k)
  {
    FoldPlain(p);
    forall k | 0 <= k < n ensures Pad(Fold(p).value, n)[k] == Padded(p, k) {
      if k >= |p| {
        SpacesAt(n - |p|, k - |p|);
      }
    }
  }

  lemma PlainNoMarks(p: string)
    requires Plain(p)
    ensures '.' !in p && '/' !in p
  {
  }

  lemma {:induction false} FormatShaped(t: string, n: string, e: string)
    requires Plain(n) && Plain(e) && 1 <= |n| <= 8 && |e| <= 3 && (t == n + ['.'] + e || (e == [] && t == n))
    ensures t[0] != '/' && t[|t| - 1] != '/' && NamePart(t) == n && ExtPart(t) == e && Shaped(t)
  {
    PlainNoMarks(n);
    PlainNoMarks(e);
    if t == n + ['.'] + e {
      assert t == n + (['.'] + e);
      DotAt(n, ['.'] + e);
      assert t[|n| + 1..] == e;
      assert e != [] ==> t[|t| - 1] == e[|e| - 1] && PlainChar(e[|e| - 1]);
    } else {
      assert t == n + [];
      DotAt(n, []);
      assert PlainChar(n[|n| - 1]);
    }
    assert t[0] == n[0] && PlainChar(n[0]);
  }

  /** A path of that form is accepted, and spelled in capitals, each part padded with spaces. */
  lemma {:induction false} FormatSpells(path: string, a: string, n: string, e: string, b: string)
    requires Reads(path, a, n, e, b)
    ensures Format(path).Some? && Spells(Format(path).value, n, e)
  {
    var t := if path == a + (n + ['.'] + e) + b then n + ['.'] + e else n;
    FormatShaped(t, n, e);
    TrimExactly(a, t, b);
    FoldPlain(n);
    FoldPlain(e);
    PadSpells(n, 8);
    PadSpells(e, 3);
  }

  /** No other path is accepted. */
  lemma {:induction false} FormatReads(path: string) returns (a: string, n: string, e: string, b: string)
    requires Format(path).Some?
    ensures Reads(path, a, n, e, b)
  {
    var t := Trim(path);
    a := FrontTaken(path);
    b := BackTaken(TrimStart(path));
    n, e := NamePart(t), ExtPart(t);
    FoldPlain(n);
    FoldPlain(e);
    assert path == a + t + b;
    if Dot(t) < |t| {
      assert t == n + ['.'] + e;
    } else {
      assert t == n;
    }
  }
}
