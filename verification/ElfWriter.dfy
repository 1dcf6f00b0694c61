/** A writer of 64-bit little-endian ELF files, to the layout of System V gABI, chapter 4 "ELF Header" and chapter 5
    "Program Header", and what the parser makes of its files. */
module ElfWriter {
  import opened LittleEndian
  import opened PageTables
  import opened Options
  import opened Elf

  /** A file header; the bytes that are not looked at are four numbers. */
  datatype FileHeader = FileHeader(magic: nat, class_: nat, encoding: nat, machine: nat, entry: u64, phoff: u64,
    phentsize: nat, phnum: nat, unused: nat, version: nat, sections: nat, tail: nat)

  datatype Header = Header(kind: nat, flags: nat, offset: u64, vaddr: u64, paddr: u64, filesz: u64, memsz: u64,
    align: u64)

  predicate ValidFile(f: FileHeader) {
    && f.magic < 0x1_0000_0000 && f.class_ < 256 && f.encoding < 256 && f.machine < 0x1_0000
    && f.phentsize < 0x1_0000 && f.phnum < 0x1_0000
  }

  predicate ValidHeader(h: Header) { h.kind < 0x1_0000_0000 && h.flags < 0x1_0000_0000 }

  function FileFields(f: FileHeader): seq<Num> {
    [Num(f.magic, 4), Num(f.class_, 1), Num(f.encoding, 1), Num(f.unused, 12), Num(f.machine, 2), Num(f.version, 4),
     Num(f.entry, 8), Num(f.phoff, 8), Num(f.sections, 14), Num(f.phentsize, 2), Num(f.phnum, 2), Num(f.tail, 6)]
  }

  function HeaderFields(h: Header): seq<Num> {
    [Num(h.kind, 4), Num(h.flags, 4), Num(h.offset, 8), Num(h.vaddr, 8), Num(h.paddr, 8), Num(h.filesz, 8),
     Num(h.memsz, 8), Num(h.align, 8)]
  }

  function WriteHeaders(headers: seq<Header>): seq<byte> {
    if headers == [] then []
    else WriteHeaders(headers[..|headers| - 1]) + Pack(HeaderFields(headers[|headers| - 1]))
  }

  /** The file header, some bytes, the program headers, and the rest. */
  function Write(f: FileHeader, gap: seq<byte>, headers: seq<Header>, rest: seq<byte>): seq<byte> {
    Pack(FileFields(f)) + (gap + (WriteHeaders(headers) + rest))
  }

  /** The segment a header asks for: only headers of type 1 with memory ask for one. */
  function SegmentOf(h: Header): Option<Segment> {
    if h.kind == 1 && h.memsz > 0
    then Some(Segment(h.vaddr, h.filesz, h.memsz, h.offset, h.flags, if h.align == 0 then 1 else h.align))
    else None
  }

  /** The segments that the headers ask for, in their order. */
  function Asked(headers: seq<Header>): seq<Segment> {
    if headers == [] then []
    else
      var last := SegmentOf(headers[|headers| - 1]);
      Asked(headers[..|headers| - 1]) + if last.Some? then [last.value] else []
  }

  // ---------------------------------------------------------------- program headers

  lemma {:induction false} HeaderOffsets(fs: seq<Num>, h: Header)
    requires fs == HeaderFields(h)
    ensures Offset(fs, 0) == 0 && Offset(fs, 1) == 4 && Offset(fs, 2) == 8 && Offset(fs, 3) == 16
    ensures Offset(fs, 5) == 32 && Offset(fs, 6) == 40 && Offset(fs, 7) == 48 && |Pack(fs)| == 56
  {
    assert Offset(fs, 1) == 4;
    assert Offset(fs, 2) == 8;
    assert Offset(fs, 4) == 24;
    assert Offset(fs, 6) == 40;
    assert Offset(fs, 8) == 56;
    PackLength(fs);
  }

  /** A header that was written is read back. */
  lemma {:induction false} HeaderRoundTrip(h: Header)
    requires ValidHeader(h)
    ensures |Pack(HeaderFields(h))| == 56 && ReadHeader(Pack(HeaderFields(h))) == SegmentOf(h)
  {
    var fs := HeaderFields(h);
    HeaderOffsets(fs, h);
    Powers();
    assert Pack(fs) + [] == Pack(fs);
    PackAt(fs, 0, []);
    PackAt(fs, 1, []);
    PackAt(fs, 2, []);
    PackAt(fs, 3, []);
    PackAt(fs, 5, []);
    PackAt(fs, 6, []);
    PackAt(fs, 7, []);
  }

  lemma {:induction false} HeadersLength(headers: seq<Header>)
    ensures |WriteHeaders(headers)| == 56 * |headers|
    decreases |headers|
  {
    if headers == [] {
    } else {
      HeadersLength(headers[..|headers| - 1]);
      HeaderOffsets(HeaderFields(headers[|headers| - 1]), headers[|headers| - 1]);
    }
  }

  lemma {:induction false} HeadersRoundTrip(b: seq<byte>, pre: seq<byte>, headers: seq<Header>, post: seq<byte>)
    requires b == pre + (WriteHeaders(headers) + post)
    requires forall i :: 0 <= i < |headers| ==> ValidHeader(headers[i])
    ensures |pre| + PHENT * |headers| <= |b| && Loadable(b, |pre|, |headers|) == Asked(headers)
    decreases |headers|
  {
    HeadersLength(headers);
    if headers == [] {
    } else {
      var n := |headers| - 1;
      var init, last := headers[..n], headers[n];
      var h := Pack(HeaderFields(last));
      HeadersLength(init);
      HeaderRoundTrip(last);
      Regroup(b, pre, WriteHeaders(init), h, post);
      HeadersRoundTrip(b, pre, init, h + post);
      LoadableNext(b, |pre|, n, SegmentOf(last));
    }
  }

  lemma Regroup(b: seq<byte>, pre: seq<byte>, a: seq<byte>, h: seq<byte>, post: seq<byte>)
    requires b == pre + ((a + h) + post)
    ensures b == pre + (a + (h + post)) && b[|pre| + |a|..|pre| + |a| + |h|] == h
  {
  }

  // ---------------------------------------------------------------- the file header

  lemma {:induction false} FileOffsets(fs: seq<Num>, f: FileHeader)
    requires fs == FileFields(f)
    ensures Offset(fs, 0) == 0 && Offset(fs, 1) == 4 && Offset(fs, 2) == 5 && Offset(fs, 4) == 18 && Offset(fs, 6) == 24
    ensures Offset(fs, 7) == 32 && Offset(fs, 9) == 54 && Offset(fs, 10) == 56 && |Pack(fs)| == 64
  {
    assert Offset(fs, 1) == 4;
    assert Offset(fs, 2) == 5;
    assert Offset(fs, 4) == 18;
    assert Offset(fs, 6) == 24;
    assert Offset(fs, 8) == 40;
    assert Offset(fs, 10) == 56;
    assert Offset(fs, 12) == 64;
    PackLength(fs);
  }

  lemma {:induction false} FileHeaderReads(f: FileHeader, rest: seq<byte>, b: seq<byte>)
    requires ValidFile(f) && b == Pack(FileFields(f)) + rest
    ensures |b| >= 64 && Word64(b, 24) == f.entry && Word64(b, 32) == f.phoff
    ensures Field(b, 18, 2) == f.machine && Field(b, 54, 2) == f.phentsize && Field(b, 56, 2) == f.phnum
  {
    var fs := FileFields(f);
    FileOffsets(fs, f);
    Powers();
    PackAt(fs, 4, rest);
    PackAt(fs, 6, rest);
    PackAt(fs, 7, rest);
    PackAt(fs, 9, rest);
    PackAt(fs, 10, rest);
  }

  lemma {:induction false} IdentReads(f: FileHeader, rest: seq<byte>, b: seq<byte>)
    requires ValidFile(f) && b == Pack(FileFields(f)) + rest
    ensures |b| >= 64 && (b[..4] == MAGIC <==> f.magic == 0x464C_457F) && b[4] == f.class_ && b[5] == f.encoding
  {
    var fs := FileFields(f);
    FileOffsets(fs, f);
    Powers();
    assert Pow256(1) == 256;
    PackAt(fs, 0, rest);
    PackAt(fs, 1, rest);
    PackAt(fs, 2, rest);
    MagicNumber(b[..4]);
    assert b[0..4] == b[..4];
    SingleByte(b, 4);
    SingleByte(b, 5);
  }

  lemma {:induction false} MagicNumber(m: seq<byte>)
    requires |m| == 4
    ensures m == MAGIC <==> Decode(m) == 0x464C_457F
  {
    EncodeDecode(m);
    assert Encode(0x46, 1) == [0x46];
    assert Encode(0x464C, 2) == [0x4C] + [0x46];
    assert Encode(0x464C45, 3) == [0x45] + ([0x4C] + [0x46]);
    assert Encode(0x464C457F, 4) == MAGIC;
    Powers();
    DecodeEncode(0x464C457F, 4);
  }

  // ---------------------------------------------------------------- what parsing gives

  /** The first thing that is wrong with a file header. */
  function Fault(f: FileHeader): Option<ElfError> {
    if f.magic != 0x464C_457F then Some(InvalidMagic)
    else if f.class_ != 2 then Some(UnsupportedClass)
    else if f.encoding != 1 then Some(UnsupportedEncoding)
    else if f.machine != 62 then Some(UnsupportedMachine)
    else if f.phentsize != 56 || f.phnum == 0 then Some(InvalidProgramHeader)
    else None
  }

  /** A file whose header is wrong, or whose program headers do not fit in it, is refused. */
  lemma {:induction false} Refused(f: FileHeader, rest: seq<byte>, b: seq<byte>)
    requires ValidFile(f) && b == Pack(FileFields(f)) + rest
    ensures Fault(f).Some? ==> Meaning(b) == Failed(Fault(f).value)
    ensures Fault(f).None? && f.phoff + 56 >= 0x1_0000_0000_0000_0000 ==> Meaning(b) == Trap
    ensures Fault(f).None? && |b| < f.phoff + 56 * f.phnum && f.phoff + 56 < 0x1_0000_0000_0000_0000
      ==> Meaning(b) == Failed(InvalidProgramHeader)
  {
    FileHeaderReads(f, rest, b);
    IdentReads(f, rest, b);
  }

  lemma TooShort(b: seq<byte>)
    ensures Meaning(b) == Failed(InvalidHeader) <==> |b| < 64
  {
  }

  /** Parsing what was written gives the entry point and the segments that the program headers ask for; headers of
      other types, and those without memory, are passed by. */
  lemma {:induction false} RoundTrip(f: FileHeader, gap: seq<byte>, headers: seq<Header>, rest: seq<byte>)
    requires ValidFile(f) && Fault(f).None? && f.phoff == 64 + |gap| && f.phnum == |headers|
    requires f.phoff + 56 < 0x1_0000_0000_0000_0000 && forall i :: 0 <= i < |headers| ==> ValidHeader(headers[i])
    ensures Meaning(Write(f, gap, headers, rest))
      == if Asked(headers) == [] then Failed(NoLoadableSegments) else Parsed(Image(f.entry, Asked(headers)))
  {
    var b, pre, post := Write(f, gap, headers, rest), Pack(FileFields(f)) + gap, WriteHeaders(headers) + rest;
    FileHeaderReads(f, gap + post, b);
    IdentReads(f, gap + post, b);
    FileOffsets(FileFields(f), f);
    assert b == pre + post;
    HeadersRoundTrip(b, pre, headers, rest);
  }
}
