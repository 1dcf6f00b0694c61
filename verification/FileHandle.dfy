/** An open file: an offset into a file of fixed size. */
module FileHandle {
  import opened Alignment
  import opened Lists
  import opened LittleEndian
  import opened Options
  import opened Fat

  const I64: nat := 0x8000_0000_0000_0000

  type i64 = x: int | -0x8000_0000_0000_0000 <= x < 0x8000_0000_0000_0000

  datatype SeekFrom = Start(pos: nat) | Current(delta: i64) | End(delta: i64)

  /** Where a seek leads before the check against the size; none below zero. The sum is 128 bits wide and
      is cut to 64. */
  function Aim(offset: nat, size: nat, pos: SeekFrom): Option<nat> {
    match pos
    case Start(p) => Some(p)
    case Current(d) => if offset + d < 0 then None else Some((offset + d) % WORD)
    case End(d) => if size + d < 0 then None else Some((size + d) % WORD)
  }

  function SeekTo(offset: nat, size: nat, pos: SeekFrom): Option<nat> {
    var aim := Aim(offset, size, pos);
    if aim.None? || aim.value > size then None else aim
  }

  function Add(offset: nat, n: nat): nat { if offset + n >= WORD then WORD - 1 else offset + n }

  predicate Fits(base: nat, d: i64) { base + d >= 0 ==> base + d < WORD }

  /** No relative seek loses bits exactly when the offset or size it starts from is at most 2^63. */
  lemma {:induction false} NoTruncation(base: nat)
    ensures (forall d: i64 :: Fits(base, d)) <==> base <= I64
  {
    if base > I64 {
      assert !Fits(base, I64 - 1);
    }
  }

  /** One call on a handle; the file says how much it read or wrote. */
  datatype Op = Read(n: nat) | Write(n: nat) | Seek(pos: SeekFrom)

  /** A file does not read or write past its size. */
  predicate Honest(offset: nat, size: nat, op: Op) {
    op.Seek? || op.n <= size - offset
  }

  function Step(offset: nat, size: nat, op: Op): nat {
    match op
    case Read(n) => Add(offset, n)
    case Write(n) => Add(offset, n)
    case Seek(pos) => var to := SeekTo(offset, size, pos); if to.Some? then to.value else offset
  }

  predicate HonestRun(offset: nat, size: nat, ops: seq<Op>)
    decreases |ops|
  {
    ops == [] || (Honest(offset, size, ops[0]) && HonestRun(Step(offset, size, ops[0]), size, ops[1..]))
  }

  function Run(offset: nat, size: nat, ops: seq<Op>): nat
    decreases |ops|
  {
    if ops == [] then offset else Run(Step(offset, size, ops[0]), size, ops[1..])
  }

  /** Every step of the run computes what it would without limits on the width of numbers. */
  predicate ExactRun(offset: nat, size: nat, ops: seq<Op>)
    decreases |ops|
  {
    ops == [] || (Exact(offset, size, ops[0]) && ExactRun(Step(offset, size, ops[0]), size, ops[1..]))
  }

  /** Over any run the offset stays within the file, so that no cast truncates and no sum saturates. */
  lemma {:induction false} OffsetWithin(offset: nat, size: nat, ops: seq<Op>)
    requires offset <= size < I64 && HonestRun(offset, size, ops)
    ensures Run(offset, size, ops) <= size && ExactRun(offset, size, ops)
    decreases |ops|
  {
    if ops == [] {
    } else {
      StepWithin(offset, size, ops[0]);
      OffsetWithin(Step(offset, size, ops[0]), size, ops[1..]);
    }
  }

  /** The step computes what it would without limits on the width of numbers. */
  predicate Exact(offset: nat, size: nat, op: Op) {
    match op
    case Read(n) => Step(offset, size, op) == offset + n
    case Write(n) => Step(offset, size, op) == offset + n
    case Seek(pos) =>
      var goal := match pos case Start(p) => p case Current(d) => offset + d case End(d) => size + d;
      && SeekTo(offset, size, pos) == (if 0 <= goal <= size then Some(goal) else None)
      && Step(offset, size, op) == if 0 <= goal <= size then goal else offset
  }

  lemma StepWithin(offset: nat, size: nat, op: Op)
    requires offset <= size < I64 && Honest(offset, size, op)
    ensures Step(offset, size, op) <= size && Exact(offset, size, op)
  {
  }

  /** A handle on a file of a FAT volume. */
  class Handle {
    var offset: nat
    const volume: Volume
    const start: nat
    const size: nat

    predicate Valid()
      reads this
    {
      offset <= size < I64
    }

    constructor (volume: Volume, start: nat, size: nat)
      requires size < I64
      ensures Valid() && offset == 0 && this.volume == volume && this.start == start && this.size == size
    {
      this.volume, this.start, this.size, offset := volume, start, size, 0;
    }

    /** `read`, where the file's own read ends: the bytes at the offset, and the offset moves past them.
        A file whose clusters can be read is read completely. */
    method Read(buf: array<byte>, ghost links: nat) returns (status: Status, n: nat)
      requires Valid() && ReadEnds(volume, start, Wanted(size, offset, buf.Length), links)
      modifies this`offset, buf
      ensures Valid()
      ensures status.Done? ==> n <= Wanted(size, old(offset), buf.Length)
      ensures status.Done? ==> Shows(volume, start, old(offset), buf[..], n)
      ensures status.Done? ==> Honest(old(offset), size, Op.Read(n)) && offset == Step(old(offset), size, Op.Read(n))
      ensures !status.Done? ==> offset == old(offset)
      ensures volume.spc > 0 && start > 0 ==> forall k :: Reaches(volume, start, k, size) ==>
        Complete(volume, start, k, old(offset), Wanted(size, old(offset), buf.Length), buf[..], status, n)
    {
      ghost var bad;
      ghost var wanted := Wanted(size, offset, buf.Length);
      status, n, bad := ReadAt(volume, start, size, offset, buf, links);
      forall k | Reaches(volume, start, k, size) ensures Reaches(volume, start, k, offset + wanted) {
      }
      if status.Done? {
        offset := Add(offset, n);
      }
    }

    /** `seek`; refused when it leads outside the file. */
    method Seek(pos: SeekFrom) returns (r: Option<nat>)
      requires Valid()
      modifies this`offset
      ensures Valid() && r == SeekTo(old(offset), size, pos) && offset == Step(old(offset), size, Op.Seek(pos))
    {
      var to: nat;
      match pos {
        case Start(p) => to := p;
        case Current(d) =>
          if offset + d < 0 {
            return None;
          }
          to := (offset + d) % WORD;
        case End(d) =>
          if size + d < 0 {
            return None;
          }
          to := (size + d) % WORD;
      }
      if to > size {
        return None;
      }
      offset := to;
      return Some(to);
    }
  }

  // ---------------------------------------------------------------- reading a file in turns

  /** n bytes from an offset on; none when the file ends before. */
  function Part(file: seq<byte>, from: nat, n: nat): (r: seq<byte>)
    ensures r != [] ==> n > 0
    decreases n, from
  {
    if n == 0 || from + n > |file| then []
    else if n == 1 then [file[from]]
    else Part(file, from, n - 1) + [file[from + n - 1]]
  }

  lemma {:induction false} PartIs(file: seq<byte>, from: nat, n: nat)
    requires from + n <= |file|
    ensures Part(file, from, n) == file[from..from + n]
    decreases n
  {
    if n <= 1 {
    } else {
      PartIs(file, from, n - 1);
      assert file[from..from + (n - 1)] + [file[from + n - 1]] == file[from..from + n];
    }
  }

  /** How much a read returns from a file of which the clusters hold `have` bytes. */
  function Count(have: nat, size: nat, offset: nat, len: nat): nat {
    Least(Wanted(size, offset, len), have - offset)
  }

  /** Where the offset is after reads of the given lengths. */
  function ReadEnd(have: nat, size: nat, offset: nat, lens: seq<nat>): nat
    decreases |lens|
  {
    if lens == [] then offset
    else ReadEnd(have, size, Step(offset, size, Op.Read(Count(have, size, offset, lens[0]))), lens[1..])
  }

  /** What reads of the given lengths return from a file whose clusters hold these bytes, one after the
      other. */
  function ReadBytes(file: seq<byte>, size: nat, offset: nat, lens: seq<nat>): seq<byte>
    decreases |lens|
  {
    if lens == [] then []
    else
      var n := Count(|file|, size, offset, lens[0]);
      Join(Part(file, offset, n), ReadBytes(file, size, Step(offset, size, Op.Read(n)), lens[1..]))
  }

  function Sum(lens: seq<nat>): nat { if lens == [] then 0 else lens[0] + Sum(lens[1..]) }

  /** The calls a list of reads amounts to. */
  function ReadOps(have: nat, size: nat, offset: nat, lens: seq<nat>): seq<Op>
    decreases |lens|
  {
    if lens == [] then []
    else
      var op := Op.Read(Count(have, size, offset, lens[0]));
      [op] + ReadOps(have, size, Step(offset, size, op), lens[1..])
  }

  lemma CountWithin(have: nat, size: nat, offset: nat, len: nat)
    requires offset <= size < I64
    ensures var n := Count(have, size, offset, len);
      Honest(offset, size, Op.Read(n)) && Step(offset, size, Op.Read(n)) == offset + n <= size
        && (n > 0 ==> offset + n <= have)
  {
  }

  lemma CountSum(have: nat, size: nat, offset: nat, len: nat, rest: nat)
    requires offset <= size
    ensures var n, end := Count(have, size, offset, len), Min(size, have);
      n + Least(rest, end - (offset + n)) == Least(len + rest, end - offset)
  {
  }

  lemma {:induction false} ReadsHonest(have: nat, size: nat, offset: nat, lens: seq<nat>)
    requires offset <= size < I64
    ensures HonestRun(offset, size, ReadOps(have, size, offset, lens))
    decreases |lens|
  {
    if lens == [] {
    } else {
      var op := Op.Read(Count(have, size, offset, lens[0]));
      CountWithin(have, size, offset, lens[0]);
      ReadsHonest(have, size, Step(offset, size, op), lens[1..]);
      assert ReadOps(have, size, offset, lens)[1..] == ReadOps(have, size, Step(offset, size, op), lens[1..]);
    }
  }

  lemma {:induction false} ReadsEnd(have: nat, size: nat, offset: nat, lens: seq<nat>)
    requires offset <= size < I64
    ensures ReadEnd(have, size, offset, lens) == offset + Least(Sum(lens), Min(size, have) - offset)
    decreases |lens|
  {
    if lens == [] {
    } else {
      var n := Count(have, size, offset, lens[0]);
      CountWithin(have, size, offset, lens[0]);
      CountSum(have, size, offset, lens[0], Sum(lens[1..]));
      ReadsEnd(have, size, offset + n, lens[1..]);
    }
  }

  lemma {:induction false} EndWithin(have: nat, size: nat, offset: nat, lens: seq<nat>, end: nat)
    requires offset <= size < I64 && end == ReadEnd(have, size, offset, lens)
    ensures offset <= end && (offset < end ==> end <= have)
  {
    ReadsEnd(have, size, offset, lens);
  }

  lemma BytesStep(file: seq<byte>, size: nat, offset: nat, lens: seq<nat>, n: nat)
    requires offset <= size < I64 && lens != [] && n == Count(|file|, size, offset, lens[0])
    ensures var rest := ReadBytes(file, size, offset + n, lens[1..]);
      ReadBytes(file, size, offset, lens) == Join(Part(file, offset, n), rest)
  {
    CountWithin(|file|, size, offset, lens[0]);
  }

  lemma {:induction false} PartStep(file: seq<byte>, from: nat, n: nat, end: nat, rest: seq<byte>)
    requires from + n <= end && (from < end ==> end <= |file|) && rest == Part(file, from + n, end - (from + n))
    ensures Join(Part(file, from, n), rest) == Part(file, from, end - from)
  {
    PartsJoin(file, from, n, end - (from + n));
  }

  lemma EndStep(have: nat, size: nat, offset: nat, lens: seq<nat>, n: nat)
    requires offset <= size < I64 && lens != [] && n == Count(have, size, offset, lens[0])
    ensures offset + n <= size && ReadEnd(have, size, offset, lens) == ReadEnd(have, size, offset + n, lens[1..])
  {
    CountWithin(have, size, offset, lens[0]);
  }

  lemma {:induction false} ReadsData(file: seq<byte>, size: nat, offset: nat, lens: seq<nat>, end: nat)
    requires offset <= size < I64 && end == ReadEnd(|file|, size, offset, lens)
    ensures offset <= end && ReadBytes(file, size, offset, lens) == Part(file, offset, end - offset)
    decreases |lens|
  {
    EndWithin(|file|, size, offset, lens, end);
    if lens == [] {
    } else {
      var n := Count(|file|, size, offset, lens[0]);
      EndStep(|file|, size, offset, lens, n);
      EndWithin(|file|, size, offset + n, lens[1..], end);
      ReadsData(file, size, offset + n, lens[1..], end);
      BytesStep(file, size, offset, lens, n);
      PartStep(file, offset, n, end, ReadBytes(file, size, offset + n, lens[1..]));
    }
  }

  /** However a file is cut into reads, they return its bytes without gap or overlap: together the stretch
      from the first offset to the last, as long as the lengths asked for unless the file or its clusters
      end before. No step saturates. */
  lemma {:induction false} ReadsJoin(file: seq<byte>, size: nat, offset: nat, lens: seq<nat>)
    requires offset <= size < I64
    ensures var end := ReadEnd(|file|, size, offset, lens);
      && end == offset + Least(Sum(lens), Min(size, |file|) - offset) <= size
      && (offset > |file| ==> ReadBytes(file, size, offset, lens) == [])
      && (offset <= |file| ==> end <= |file| && ReadBytes(file, size, offset, lens) == file[offset..end])
    ensures ExactRun(offset, size, ReadOps(|file|, size, offset, lens))
  {
    ReadsHonest(|file|, size, offset, lens);
    OffsetWithin(offset, size, ReadOps(|file|, size, offset, lens));
    ReadsEnd(|file|, size, offset, lens);
    var end := ReadEnd(|file|, size, offset, lens);
    ReadsData(file, size, offset, lens, end);
    if offset <= |file| {
      PartIs(file, offset, end - offset);
    }
  }

  lemma {:induction false} PartsJoin(file: seq<byte>, from: nat, n: nat, m: nat)
    requires n + m > 0 ==> from + n + m <= |file|
    ensures Join(Part(file, from, n), Part(file, from + n, m)) == Part(file, from, n + m)
    decreases m
  {
    if m == 0 {
    } else if n == 0 {
    } else {
      PartsJoin(file, from, n, m - 1);
      PartsMore(file, from, n, m);
    }
  }

  lemma {:induction false} PartsMore(file: seq<byte>, from: nat, n: nat, m: nat)
    requires n > 0 && m > 0 && from + n + m <= |file|
    requires Join(Part(file, from, n), Part(file, from + n, m - 1)) == Part(file, from, n + m - 1)
    ensures Join(Part(file, from, n), Part(file, from + n, m)) == Part(file, from, n + m)
  {
    var a, b, x := Part(file, from, n), Part(file, from + n, m - 1), [file[from + n + m - 1]];
    PartNonempty(file, from, n);
    assert Part(file, from, n + m) == Part(file, from, n + m - 1) + x;
    if m == 1 {
      assert Part(file, from + n, m) == x;
    } else {
      PartNonempty(file, from + n, m - 1);
      assert Part(file, from + n, m) == b + x;
      assert a + (b + x) == a + b + x;
    }
  }

  lemma PartNonempty(file: seq<byte>, from: nat, n: nat)
    requires n > 0 && from + n <= |file|
    ensures Part(file, from, n) != []
  {
  }

  lemma {:induction false} CompletePart(v: Volume, start: nat, k: nat, size: nat, offset: nat, buf: seq<byte>,
    status: Status, n: nat, file: seq<byte>)
    requires Whole(v, start, k) && file == Contents(v, start, k)
    requires Complete(v, start, k, offset, Wanted(size, offset, |buf|), buf, status, n)
    ensures status.Done? && n == Count(|file|, size, offset, |buf|) <= |buf| && buf[..n] == Part(file, offset, n)
  {
    ContentsSize(v, start, k);
    if n > 0 {
      PartIs(file, offset, n);
    }
  }

  /** One read into a fresh buffer. */
  method ReadOnce(h: Handle, len: nat, ghost k: nat, ghost file: seq<byte>) returns (chunk: seq<byte>)
    requires h.Valid() && h.volume.spc > 0 && h.start > 0 && Reaches(h.volume, h.start, k, h.size)
    requires file == Contents(h.volume, h.start, k)
    modifies h`offset
    ensures h.Valid()
    ensures var n := Count(|file|, h.size, old(h.offset), len);
      chunk == Part(file, old(h.offset), n) && h.offset == Step(old(h.offset), h.size, Op.Read(n))
  {
    var buf := new byte[len];
    ghost var offset := h.offset;
    var status, n := h.Read(buf, 0);
    CompletePart(h.volume, h.start, k, h.size, offset, buf[..], status, n, file);
    chunk := buf[..n];
  }

  /** The same of a handle: reading into buffers of any lengths gives the file's bytes from the offset on,
      and leaves the offset behind the last of them. */
  method ReadInTurns(h: Handle, lens: seq<nat>, ghost k: nat, ghost file: seq<byte>) returns (data: seq<byte>)
    requires h.Valid() && h.volume.spc > 0 && h.start > 0 && Reaches(h.volume, h.start, k, h.size)
    requires file == Contents(h.volume, h.start, k)
    modifies h`offset
    ensures h.Valid() && h.offset == ReadEnd(|file|, h.size, old(h.offset), lens)
    ensures data == ReadBytes(file, h.size, old(h.offset), lens)
    decreases |lens|
  {
    if lens == [] {
      return [];
    }
    var chunk := ReadOnce(h, lens[0], k, file);
    var rest := ReadInTurns(h, lens[1..], k, file);
    JoinIs(chunk, rest);
    return chunk + rest;
  }
}
