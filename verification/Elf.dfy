/** Reading 64-bit little-endian ELF images: System V gABI, chapter 4 "ELF Header" and chapter 5
    "Program Header". */
module Elf {
  import opened Alignment
  import opened LittleEndian
  import opened PageTables
  import opened Options

  const HEADER: nat := 64
  const PHENT: nat := 56
  const MAX_SLICE: nat := 0x8000_0000_0000_0000 // no slice is as long as this
  const MAGIC: seq<byte> := [0x7F, 0x45, 0x4C, 0x46]

  datatype ElfError =
    | InvalidMagic | UnsupportedClass | UnsupportedEncoding | UnsupportedMachine
    | InvalidHeader | InvalidProgramHeader | NoLoadableSegments

  datatype Segment = Segment(vaddr: u64, filesz: u64, memsz: u64, offset: u64, flags: nat, align: u64)
  datatype Image = Image(entry: u64, segments: seq<Segment>)

  /** `parse` returns an image or an error; checked arithmetic that overflows stops the kernel. */
  datatype Outcome = Parsed(image: Image) | Failed(error: ElfError) | Trap

  function Field(b: seq<byte>, at: nat, n: nat): (v: nat)
    requires at + n <= |b|
    ensures v < Pow256(n)
  {
    EncodeDecode(b[at..at + n]);
    Decode(b[at..at + n])
  }

  function Word64(b: seq<byte>, at: nat): u64
    requires at + 8 <= |b|
  {
    Powers();
    Field(b, at, 8)
  }

  /** One program header: the segment it asks to load, if any. */
  function ReadHeader(h: seq<byte>): Option<Segment>
    requires |h| == PHENT
  {
    if Field(h, 0, 4) != 1 || Word64(h, 40) == 0 then None
    else
      var align := Word64(h, 48);
      Some(Segment(Word64(h, 16), Word64(h, 32), Word64(h, 40), Word64(h, 8), Field(h, 4, 4),
                   if align < 1 then 1 else align))
  }

  /** The loadable segments of the first n program headers, in order. */
  function Loadable(b: seq<byte>, phoff: nat, n: nat): seq<Segment>
    requires n == 0 || phoff + PHENT * n <= |b|
  {
    if n == 0 then []
    else
      var at := phoff + PHENT * (n - 1);
      var h := ReadHeader(b[at..at + PHENT]);
      Loadable(b, phoff, n - 1) + if h.Some? then [h.value] else []
  }

  /** What an image file means, read all at once. */
  function Meaning(b: seq<byte>): Outcome {
    if |b| < HEADER then Failed(InvalidHeader)
    else if b[..4] != MAGIC then Failed(InvalidMagic)
    else if b[4] != 2 then Failed(UnsupportedClass)
    else if b[5] != 1 then Failed(UnsupportedEncoding)
    else if Field(b, 18, 2) != 0x3E then Failed(UnsupportedMachine)
    else
      var phoff, phnum := Word64(b, 32), Field(b, 56, 2);
      if Field(b, 54, 2) != PHENT || phnum == 0 then Failed(InvalidProgramHeader)
      else if phoff + PHENT >= WORD then Trap
      else if phoff + PHENT * phnum > |b| then Failed(InvalidProgramHeader)
      else
        var segments := Loadable(b, phoff, phnum);
        if segments == [] then Failed(NoLoadableSegments) else Parsed(Image(Word64(b, 24), segments))
  }

  /** `parse`: one header after the other, each checked when it is reached. */
  method Parse(b: seq<byte>) returns (r: Outcome)
    requires |b| < MAX_SLICE
    ensures r == Meaning(b)
  {
    if |b| < HEADER {
      return Failed(InvalidHeader);
    }
    if b[..4] != MAGIC {
      return Failed(InvalidMagic);
    }
    if b[4] != 2 {
      return Failed(UnsupportedClass);
    }
    if b[5] != 1 {
      return Failed(UnsupportedEncoding);
    }
    var machine := Field(b, 18, 2);
    if machine != 0x3E {
      return Failed(UnsupportedMachine);
    }
    var entry, phoff := Word64(b, 24), Word64(b, 32);
    var phentsize, phnum := Field(b, 54, 2), Field(b, 56, 2);
    if phentsize != PHENT || phnum == 0 {
      return Failed(InvalidProgramHeader);
    }
    r := ParseHeaders(b, entry, phoff, phnum);
  }

  /** What the loop over the headers does at one of them: it ends, or goes on with the segment, if there is one. */
  datatype Turn = Stop(result: Outcome) | Go(segment: Option<Segment>)

  method ParseHeader(b: seq<byte>, phoff: u64, index: nat) returns (r: Turn)
    ensures r ==
      if phoff + PHENT * index + PHENT >= WORD then Stop(Trap)
      else if phoff + PHENT * index + PHENT > |b| then Stop(Failed(InvalidProgramHeader))
      else Go(ReadHeader(b[phoff + PHENT * index..phoff + PHENT * index + PHENT]))
  {
    if phoff + PHENT * index >= WORD {
      return Stop(Trap);
    }
    var offset := phoff + PHENT * index;
    if offset + PHENT >= WORD {
      return Stop(Trap);
    }
    if offset + PHENT > |b| {
      return Stop(Failed(InvalidProgramHeader));
    }
    return Go(ReadHeader(b[offset..offset + PHENT]));
  }

  lemma LoadableNext(b: seq<byte>, phoff: nat, n: nat, s: Option<Segment>)
    requires phoff + PHENT * n + PHENT <= |b| && ReadHeader(b[phoff + PHENT * n..phoff + PHENT * n + PHENT]) == s
    ensures Loadable(b, phoff, n + 1) == Loadable(b, phoff, n) + if s.Some? then [s.value] else []
  {
  }

  method ParseHeaders(b: seq<byte>, entry: u64, phoff: u64, phnum: nat) returns (r: Outcome)
    requires |b| < MAX_SLICE && phnum > 0
    ensures r ==
      if phoff + PHENT >= WORD then Trap
      else if phoff + PHENT * phnum > |b| then Failed(InvalidProgramHeader)
      else if Loadable(b, phoff, phnum) == [] then Failed(NoLoadableSegments)
      else Parsed(Image(entry, Loadable(b, phoff, phnum)))
  {
    var segments: seq<Segment> := [];
    var index := 0;
    while index < phnum
      invariant index <= phnum && (index == 0 || phoff + PHENT * index <= |b|)
      invariant segments == Loadable(b, phoff, index)
    {
      var turn := ParseHeader(b, phoff, index);
      if turn.Stop? {
        return turn.result;
      }
      LoadableNext(b, phoff, index, turn.segment);
      if turn.segment.Some? {
        segments := segments + [turn.segment.value];
      }
      index := index + 1;
    }
    if segments == [] {
      return Failed(NoLoadableSegments);
    }
    return Parsed(Image(entry, segments));
  }
}
