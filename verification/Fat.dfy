/** Reading files of a FAT16 volume: Microsoft FAT32 File System Specification 1.03, sections "Boot
    Sector and BPB" and "FAT Data Structure". The block device is a sequence of bytes. */
module Fat {
  import opened Options
  import opened Alignment
  import opened LittleEndian

  const SECTOR: nat := 512
  const CHAIN_END: nat := 0xFFF8

  /** A result, a device error, or checked arithmetic that overflows. */
  datatype Res<T> = Ok(value: T) | Io | Trap

  datatype Volume = Volume(dev: seq<byte>, spc: nat, fatLba: nat, rootLba: nat, rootSectors: nat, dataLba: nat)

  /** `read_blocks` of one sector. */
  function Sector(dev: seq<byte>, lba: nat): (r: Option<seq<byte>>)
    ensures r.Some? ==> |r.value| == SECTOR
  {
    if SECTOR * lba + SECTOR <= |dev| then Some(dev[SECTOR * lba..SECTOR * lba + SECTOR]) else None
  }

  function U16(s: seq<byte>, at: nat): nat
    requires at + 2 <= |s|
  {
    (s[at] as int) + 256 * (s[at + 1] as int)
  }

  /** Sectors for a root directory of 32-byte entries. */
  function RootSectors(entries: nat): (n: nat)
    ensures SECTOR * n - SECTOR < 32 * entries <= SECTOR * n
  {
    (entries * 32 + (SECTOR - 1)) / SECTOR
  }

  /** The product, as a sum. */
  function Times(a: nat, b: nat): nat { if a == 0 then 0 else b + Times(a - 1, b) }

  /** `load`: where the parts of the volume lie. */
  function Load(dev: seq<byte>, start: nat): (r: Res<Volume>)
    ensures r.Ok? ==> r.value.dev == dev && r.value.spc < 256
    ensures r.Ok? ==> start <= r.value.fatLba <= r.value.rootLba <= r.value.dataLba
  {
    var boot := Sector(dev, start);
    if boot.None? then Io
    else
      var s := boot.value;
      if U16(s, 11) != SECTOR then Io
      else
        var fatLba := start + U16(s, 14);
        var rootLba := fatLba + Times(s[16], U16(s, 22));
        var rootSectors := RootSectors(U16(s, 17));
        Ok(Volume(dev, s[13], fatLba, rootLba, rootSectors, rootLba + rootSectors))
  }

  function ClusterSize(v: Volume): nat { SECTOR * v.spc }

  // ---------------------------------------------------------------- the chain

  lemma EntryFits(c: nat)
    ensures c * 2 % SECTOR + 2 <= SECTOR
  {
    assert c * 2 == SECTOR * (c / 256) + 2 * (c % 256);
    ModUnique(c * 2, SECTOR, c / 256, 2 * (c % 256));
  }

  /** `next_cluster`. */
  function Link(v: Volume, c: nat): (r: Res<Option<nat>>)
    ensures !r.Trap?
  {
    var s := Sector(v.dev, v.fatLba + c * 2 / SECTOR);
    if s.None? then Io
    else
      EntryFits(c);
      var e := U16(s.value, c * 2 % SECTOR);
      if e >= CHAIN_END then Ok(None) else Ok(Some(e))
  }

  /** `cluster_for_offset` past its check for an empty file: the cluster and the offset in it. */
  function Locate(v: Volume, c: nat, offset: nat): Res<Option<(nat, nat)>>
    requires v.spc > 0
    decreases offset
  {
    if offset < ClusterSize(v) then Ok(Some((c, offset)))
    else
      match Link(v, c)
      case Io => Io
      case Trap => Trap
      case Ok(None) => Ok(None)
      case Ok(Some(next)) => Locate(v, next, offset - ClusterSize(v))
  }

  function Position(v: Volume, start: nat, offset: nat): Res<Option<(nat, nat)>>
    requires v.spc > 0
  {
    if start == 0 then Ok(None) else Locate(v, start, offset)
  }

  /** `cluster_to_lba`, for the clusters that have one. */
  function ClusterLba(v: Volume, c: nat): nat
    requires c >= 2
  {
    v.dataLba + Times(c - 2, v.spc)
  }

  /** Byte i of cluster c; a cluster below 2 has no place on the device. */
  function ClusterByte(v: Volume, c: nat, i: nat): Res<byte> {
    if c < 2 then Trap
    else if SECTOR * (ClusterLba(v, c) + i / SECTOR) + SECTOR > |v.dev| then Io
    else Ok(v.dev[SECTOR * ClusterLba(v, c) + i])
  }

  /** Byte `pos` of the chain that starts at `start`, found from its beginning; none past its end. */
  function ChainByte(v: Volume, start: nat, pos: nat): Res<Option<byte>>
    requires v.spc > 0
  {
    match Position(v, start, pos)
    case Io => Io
    case Trap => Trap
    case Ok(None) => Ok(None)
    case Ok(Some((c, i))) =>
      match ClusterByte(v, c, i)
      case Io => Io
      case Trap => Trap
      case Ok(b) => Ok(Some(b))
  }

  /** Inside a cluster, positions are consecutive. */
  lemma {:induction false} LocateNear(v: Volume, c: nat, offset: nat, j: nat)
    requires v.spc > 0 && Locate(v, c, offset).Ok? && Locate(v, c, offset).value.Some?
    requires Locate(v, c, offset).value.value.1 + j < ClusterSize(v)
    ensures var (d, i) := Locate(v, c, offset).value.value; Locate(v, c, offset + j) == Ok(Some((d, i + j)))
    decreases offset
  {
    if offset < ClusterSize(v) {
    } else {
      LocateNear(v, Link(v, c).value.value, offset - ClusterSize(v), j);
    }
  }

  /** The chain, from a position on, byte by byte. */
  lemma {:induction false} ChainNear(v: Volume, start: nat, pos: nat, d: nat, i: nat, j: nat)
    requires v.spc > 0 && Position(v, start, pos) == Ok(Some((d, i))) && i + j < ClusterSize(v)
    ensures ChainByte(v, start, pos + j)
      == (match ClusterByte(v, d, i + j) case Io => Io case Trap => Trap case Ok(b) => Ok(Some(b)))
  {
    LocateNear(v, start, pos, j);
  }

  /** A position lies in its cluster. */
  lemma {:induction false} LocateWithin(v: Volume, c: nat, offset: nat)
    requires v.spc > 0 && Locate(v, c, offset).Ok? && Locate(v, c, offset).value.Some?
    ensures Locate(v, c, offset).value.value.1 < ClusterSize(v)
    decreases offset
  {
    if offset < ClusterSize(v) {
    } else {
      LocateWithin(v, Link(v, c).value.value, offset - ClusterSize(v));
    }
  }

  // ---------------------------------------------------------------- when the chain walk ends

  /** The loop of cluster_for_offset: where it is, or its result. */
  datatype Walk = At(cluster: nat, left: nat) | Over(result: Res<Option<(nat, nat)>>)

  function Turn(v: Volume, w: Walk): Walk {
    if w.Over? then w
    else if w.left < ClusterSize(v) then Over(Ok(Some((w.cluster, w.left))))
    else if Linked(v, w.cluster) then At(After(v, w.cluster), w.left - ClusterSize(v))
    else Over(if Link(v, w.cluster).Ok? then Ok(None) else Io)
  }

  function Turns(v: Volume, w: Walk, k: nat): Walk
    decreases k, w
  {
    if k == 0 then w else Turns(v, Turn(v, w), k - 1)
  }

  /** The chain from c has k more links. */
  predicate Links(v: Volume, c: nat, k: nat)
    decreases k, c
  {
    k == 0 || (Linked(v, c) && Links(v, After(v, c), k - 1))
  }

  lemma {:induction false} OverStays(v: Volume, r: Res<Option<(nat, nat)>>, k: nat)
    ensures Turns(v, Over(r), k) == Over(r)
    decreases k
  {
    if k == 0 {
    } else {
      OverStays(v, r, k - 1);
    }
  }

  /** With clusters of some size the walk ends, and with the result of Locate. */
  lemma {:induction false} WalkEnds(v: Volume, c: nat, offset: nat)
    requires v.spc > 0
    ensures Turns(v, At(c, offset), offset + 1) == Over(Locate(v, c, offset))
    decreases offset
  {
    var w := Turn(v, At(c, offset));
    if w.Over? {
      OverStays(v, w.result, offset);
    } else {
      WalkEnds(v, w.cluster, w.left);
      TurnsMore(v, w, w.left + 1, offset - (w.left + 1));
      OverStays(v, Locate(v, w.cluster, w.left), offset - (w.left + 1));
    }
  }

  lemma {:induction false} TurnsMore(v: Volume, w: Walk, j: nat, k: nat)
    ensures Turns(v, w, j + k) == Turns(v, Turns(v, w, j), k)
    decreases j
  {
    if j == 0 {
    } else {
      TurnsMore(v, Turn(v, w), j - 1, k);
    }
  }

  /** With clusters of no size the walk goes on as long as there are links. */
  lemma {:induction false} WalkFollowsLinks(v: Volume, c: nat, offset: nat, k: nat)
    requires v.spc == 0
    ensures Links(v, c, k) <==> Turns(v, At(c, offset), k).At?
    decreases k
  {
    if k == 0 {
    } else {
      var w := Turn(v, At(c, offset));
      if w.Over? {
        OverStays(v, w.result, k - 1);
      } else {
        WalkFollowsLinks(v, After(v, c), offset, k - 1);
      }
    }
  }

  /** How the walk ends where links end: at the end of the chain or at a table sector that cannot be read. */
  function ChainStop(v: Volume, c: nat, k: nat): (r: Res<Option<(nat, nat)>>)
    requires !Links(v, c, k)
    ensures r == Ok(None) || r == Io
    decreases k, c
  {
    if Linked(v, c) then ChainStop(v, After(v, c), k - 1) else if Link(v, c).Ok? then Ok(None) else Io
  }

  lemma {:induction false} WalkStops(v: Volume, c: nat, offset: nat, k: nat)
    requires v.spc == 0 && !Links(v, c, k)
    ensures Turns(v, At(c, offset), k) == Over(ChainStop(v, c, k))
    decreases k
  {
    if Linked(v, c) {
      WalkStops(v, After(v, c), offset, k - 1);
    } else {
      OverStays(v, ChainStop(v, c, k), k - 1);
    }
  }

  /** The chain walk terminates exactly when clusters have a size or the chain has an end. */
  lemma {:induction false} WalkTerminatesWhen(v: Volume, c: nat, offset: nat)
    ensures (exists k :: Turns(v, At(c, offset), k).Over?) <==> v.spc > 0 || exists k :: !Links(v, c, k)
  {
    if v.spc > 0 {
      WalkEnds(v, c, offset);
    } else {
      if k: nat :| !Links(v, c, k) {
        WalkFollowsLinks(v, c, offset, k);
        assert Turns(v, At(c, offset), k).Over?;
      }
      if k: nat :| Turns(v, At(c, offset), k).Over? {
        WalkFollowsLinks(v, c, offset, k);
        assert !Links(v, c, k);
      }
    }
  }

  // ---------------------------------------------------------------- the methods

  /** `cluster_for_offset`, wherever its loop ends: `turns` is a bound on its turns. With clusters of some
      size it ends on cyclic chains too, since each link uses up a cluster's bytes. */
  method ClusterForOffset(v: Volume, start: nat, offset: nat, ghost turns: nat) returns (r: Res<Option<(nat, nat)>>)
    requires start == 0 || Turns(v, At(start, offset), turns).Over?
    ensures r == if start == 0 then Ok(None) else Turns(v, At(start, offset), turns).result
    ensures v.spc > 0 ==> r == Position(v, start, offset)
  {
    if start == 0 {
      return Ok(None);
    }
    var cluster: nat, left: nat := start, offset;
    ghost var k := turns;
    WalkMeans(v, start, offset, turns);
    while left >= ClusterSize(v)
      invariant Turns(v, At(cluster, left), k) == Turns(v, At(start, offset), turns)
      decreases k
    {
      var link := Link(v, cluster);
      TurnsStep(v, cluster, left, k);
      match link {
        case Io => return Io;
        case Trap => return Trap;
        case Ok(None) => return Ok(None);
        case Ok(Some(next)) => cluster, left, k := next, left - ClusterSize(v), k - 1;
      }
    }
    TurnsStep(v, cluster, left, k);
    return Ok(Some((cluster, left)));
  }

  /** One turn of a walk that ends. */
  lemma {:induction false} TurnsStep(v: Volume, c: nat, left: nat, k: nat)
    requires Turns(v, At(c, left), k).Over?
    ensures k > 0
    ensures var w := Turn(v, At(c, left)); Turns(v, At(c, left), k) == if w.Over? then w else Turns(v, w, k - 1)
  {
    var w := Turn(v, At(c, left));
    if w.Over? {
      OverStays(v, w.result, k - 1);
    }
  }

  /** With clusters of some size, a walk that is over has found the position. */
  lemma {:induction false} WalkMeans(v: Volume, c: nat, offset: nat, k: nat)
    requires Turns(v, At(c, offset), k).Over?
    ensures v.spc > 0 ==> Turns(v, At(c, offset), k) == Over(Locate(v, c, offset))
    decreases k
  {
    TurnsStep(v, c, offset, k);
    var w := Turn(v, At(c, offset));
    if v.spc == 0 || w.Over? {
    } else {
      WalkMeans(v, w.cluster, w.left, k - 1);
    }
  }

  datatype Status = Done | IoError | Stopped

  /** Part of a sector into the buffer. */
  method CopySlice(s: seq<byte>, within: nat, buf: array<byte>, at: nat, n: nat)
    requires within + n <= |s| && at + n <= buf.Length
    modifies buf
    ensures forall k :: at <= k < at + n ==> buf[k] == s[within + (k - at)]
    ensures forall k :: 0 <= k < buf.Length && !(at <= k < at + n) ==> buf[k] == old(buf[k])
  {
    var j := 0;
    while j < n
      invariant j <= n
      invariant forall k :: at <= k < at + j ==> buf[k] == s[within + (k - at)]
      invariant forall k :: 0 <= k < buf.Length && !(at <= k < at + j) ==> buf[k] == old(buf[k])
    {
      buf[at + j] := s[within + j];
      j := j + 1;
    }
  }

  /** buf holds bytes i and up of cluster c at `at` and up. */
  ghost predicate Holds(v: Volume, c: nat, i: nat, buf: seq<byte>, at: nat, n: nat) {
    at + n <= |buf| && forall k :: at <= k < at + n ==> ClusterByte(v, c, i + (k - at)) == Ok(buf[k])
  }

  /** The body of the sector loop: the wanted part of one sector. */
  method ReadSectorPart(v: Volume, c: nat, offset: nat, buf: array<byte>, at: nat, n: nat, done: nat)
    returns (ok: bool, copy: nat)
    requires c >= 2 && done < n && at + n <= buf.Length && Holds(v, c, offset, buf[..], at, done)
    requires done > 0 ==> (offset + done) % SECTOR == 0
    modifies buf
    ensures !ok ==> ClusterByte(v, c, offset + n - 1) == Io
    ensures ok ==> 0 < copy <= n - done && Holds(v, c, offset, buf[..], at, done + copy)
    ensures ok && done + copy < n ==>
      (offset + done + copy) % SECTOR == 0 && (offset + done + copy) / SECTOR == (offset + done) / SECTOR + 1
    ensures forall k :: 0 <= k < buf.Length && !(at <= k < at + n) ==> buf[k] == old(buf[k])
  {
    var sector := Sector(v.dev, ClusterLba(v, c) + (offset + done) / SECTOR);
    if sector.None? {
      LaterUnreadable(v, c, offset + done, offset + n - 1);
      return false, 0;
    }
    var within := if done == 0 then offset % SECTOR else 0;
    copy := if SECTOR - within < n - done then SECTOR - within else n - done;
    ghost var before := buf[..];
    CopySlice(sector.value, within, buf, at + done, copy);
    HoldsMore(v, c, offset, before, buf[..], at, done, copy, sector.value);
    NextSector(offset + done, copy);
    ok := true;
  }

  lemma NextSector(i: nat, copy: nat)
    ensures i % SECTOR + copy == SECTOR ==> (i + copy) % SECTOR == 0 && (i + copy) / SECTOR == i / SECTOR + 1
  {
  }

  /** `read_cluster_slice`: bytes of one cluster, a sector at a time. */
  method ReadClusterSlice(v: Volume, c: nat, offset: nat, buf: array<byte>, at: nat, n: nat) returns (r: Status)
    requires offset + n <= ClusterSize(v) && at + n <= buf.Length
    modifies buf
    ensures r.Done? ==> Holds(v, c, offset, buf[..], at, n)
    ensures r.IoError? ==> n > 0 && ClusterByte(v, c, offset + n - 1) == Io
    ensures r.Stopped? ==> n > 0 && ClusterByte(v, c, offset) == Trap
    ensures forall k :: 0 <= k < buf.Length && !(at <= k < at + n) ==> buf[k] == old(buf[k])
  {
    var remaining: nat, done: nat := n, 0;
    var index := offset / SECTOR;
    while index < v.spc && remaining > 0
      invariant done + remaining == n && (remaining > 0 ==> index == (offset + done) / SECTOR)
      invariant done > 0 && remaining > 0 ==> (offset + done) % SECTOR == 0
      invariant Holds(v, c, offset, buf[..], at, done) && (c < 2 ==> done == 0)
      invariant forall k :: 0 <= k < buf.Length && !(at <= k < at + n) ==> buf[k] == old(buf[k])
      decreases v.spc - index
    {
      if c < 2 {
        return Stopped;
      }
      var ok, copy := ReadSectorPart(v, c, offset, buf, at, n, done);
      if !ok {
        return IoError;
      }
      done := done + copy;
      remaining := remaining - copy;
      index := index + 1;
    }
    return Done;
  }

  lemma LaterUnreadable(v: Volume, c: nat, i: nat, j: nat)
    requires i <= j && c >= 2 && Sector(v.dev, ClusterLba(v, c) + i / SECTOR).None?
    ensures ClusterByte(v, c, j) == Io
  {
  }

  lemma SectorByte(v: Volume, c: nat, i: nat, j: nat, s: seq<byte>)
    requires c >= 2 && i % SECTOR + j < SECTOR && Sector(v.dev, ClusterLba(v, c) + i / SECTOR) == Some(s)
    ensures ClusterByte(v, c, i + j) == Ok(s[i % SECTOR + j])
  {
    assert (i + j) / SECTOR == i / SECTOR;
  }

  lemma {:induction false} HoldsMore(v: Volume, c: nat, offset: nat, before: seq<byte>, after: seq<byte>, at: nat,
    done: nat, copy: nat, s: seq<byte>)
    requires Holds(v, c, offset, before, at, done) && |after| == |before| && at + done + copy <= |after|
    requires forall k :: at <= k < at + done ==> after[k] == before[k]
    requires c >= 2 && Sector(v.dev, ClusterLba(v, c) + (offset + done) / SECTOR) == Some(s)
    requires (offset + done) % SECTOR + copy <= SECTOR
    requires forall k :: at + done <= k < at + done + copy ==>
      after[k] == s[(offset + done) % SECTOR + (k - (at + done))]
    ensures Holds(v, c, offset, after, at, done + copy)
  {
    forall k | at <= k < at + done + copy ensures ClusterByte(v, c, offset + (k - at)) == Ok(after[k]) {
      if k < at + done {
        assert ClusterByte(v, c, offset + (k - at)) == Ok(before[k]);
      } else {
        var j := k - (at + done);
        SectorByte(v, c, offset + done, j, s);
        assert offset + done + j == offset + (k - at);
      }
    }
  }

  /** buf starts with the bytes of the chain from offset on. */
  ghost predicate Shows(v: Volume, start: nat, offset: nat, buf: seq<byte>, n: nat) {
    n <= |buf| && forall k :: 0 <= k < n ==> v.spc > 0 && ChainByte(v, start, offset + k) == Ok(Some(buf[k]))
  }

  lemma {:induction false} ShowsMore(v: Volume, start: nat, offset: nat, before: seq<byte>, after: seq<byte>, w: nat,
    d: nat, i: nat, n: nat)
    requires v.spc > 0 && Shows(v, start, offset, before, w) && |after| == |before|
    requires forall k :: 0 <= k < w ==> after[k] == before[k]
    requires Position(v, start, offset + w) == Ok(Some((d, i))) && i + n <= ClusterSize(v)
      && Holds(v, d, i, after, w, n)
    ensures Shows(v, start, offset, after, w + n)
  {
    forall k | 0 <= k < w + n ensures ChainByte(v, start, offset + k) == Ok(Some(after[k])) {
      if k < w {
        assert ChainByte(v, start, offset + k) == Ok(Some(before[k]));
      } else {
        ChainNear(v, start, offset + w, d, i, k - w);
        assert offset + w + (k - w) == offset + k && ClusterByte(v, d, i + (k - w)) == Ok(after[k]);
      }
    }
  }

  /** How much a read may return. */
  function Wanted(size: nat, offset: nat, len: nat): nat {
    if offset >= size then 0 else if len < size - offset then len else size - offset
  }

  /** The read goes on only where nothing is wanted, the file has no clusters, clusters have a size, or
      the links from the first cluster end. */
  predicate ReadEnds(v: Volume, start: nat, wanted: nat, links: nat) {
    wanted == 0 || start == 0 || v.spc > 0 || !Links(v, start, links)
  }

  /** With clusters of no size nothing can be read. */
  function SizelessStatus(v: Volume, start: nat, wanted: nat, links: nat): Status
    requires ReadEnds(v, start, wanted, links) && v.spc == 0
  {
    if wanted == 0 || start == 0 || ChainStop(v, start, links).Ok? then Done else IoError
  }

  /** A bound on the turns of the chain walk. */
  ghost function TurnBound(v: Volume, offset: nat, links: nat): nat { if v.spc > 0 then offset + 1 else links }

  lemma {:induction false} BoundedTurns(v: Volume, start: nat, offset: nat, links: nat)
    requires v.spc > 0 || !Links(v, start, links)
    ensures Turns(v, At(start, offset), TurnBound(v, offset, links))
      == Over(if v.spc > 0 then Locate(v, start, offset) else ChainStop(v, start, links))
  {
    if v.spc > 0 {
      WalkEnds(v, start, offset);
    } else {
      WalkStops(v, start, offset, links);
    }
  }

  /** One cluster's worth, from the position the walk has found. */
  method ReadPart(v: Volume, start: nat, offset: nat, buf: array<byte>, n: nat, total: nat, c: nat, i: nat)
    returns (r: Status, copy: nat, ghost bad: nat)
    requires v.spc > 0 && total > 0 && n + total <= buf.Length && Shows(v, start, offset, buf[..], n)
    requires Position(v, start, offset + n) == Ok(Some((c, i)))
    modifies buf
    ensures r.Done? ==> 0 < copy <= total && Shows(v, start, offset, buf[..], n + copy)
    ensures r.IoError? ==> n <= bad < n + total && ChainByte(v, start, offset + bad) == Io
    ensures r.Stopped? ==> n <= bad < n + total && ChainByte(v, start, offset + bad) == Trap
    ensures r.Done? ==> forall k :: n + copy <= k < buf.Length ==> buf[k] == old(buf[k])
  {
    LocateWithin(v, start, offset + n);
    copy := if ClusterSize(v) - i < total then ClusterSize(v) - i else total;
    bad := n;
    ghost var before := buf[..];
    r := ReadClusterSlice(v, c, i, buf, n, copy);
    if r == Done {
      ShowsMore(v, start, offset, before, buf[..], n, c, i, copy);
    } else {
      bad := if r.IoError? then n + copy - 1 else n;
      ChainNear(v, start, offset + n, c, i, bad - n);
    }
  }

  /** The body of the read loop: one cluster's worth; nothing at the end of the chain. */
  method ReadChunk(v: Volume, start: nat, offset: nat, buf: array<byte>, n: nat, total: nat, ghost links: nat)
    returns (r: Status, copy: nat, ghost bad: nat)
    requires total > 0 && n + total <= buf.Length && ReadEnds(v, start, total, links)
      && Shows(v, start, offset, buf[..], n)
    modifies buf
    ensures r.Done? ==> copy <= total && Shows(v, start, offset, buf[..], n + copy)
    ensures v.spc > 0 && r.Done? && copy == 0 ==> ChainByte(v, start, offset + n) == Ok(None)
    ensures v.spc > 0 && r.IoError? ==> n <= bad < n + total && ChainByte(v, start, offset + bad) == Io
    ensures v.spc > 0 && r.Stopped? ==> n <= bad < n + total && ChainByte(v, start, offset + bad) == Trap
    ensures v.spc == 0 ==> copy == 0 && r == SizelessStatus(v, start, total, links)
    ensures r.Done? ==> forall k :: n + copy <= k < buf.Length ==> buf[k] == old(buf[k])
  {
    copy, bad := 0, n;
    if start != 0 {
      BoundedTurns(v, start, offset + n, links);
    }
    var info := ClusterForOffset(v, start, offset + n, TurnBound(v, offset + n, links));
    match info {
      case Io => return IoError, 0, n;
      case Trap => return Stopped, 0, n;
      case Ok(None) => return Done, 0, n;
      case Ok(Some((c, i))) => r, copy, bad := ReadPart(v, start, offset, buf, n, total, c, i);
    }
  }

  /** What a read has done. On success the buffer starts with the chain's bytes from offset on, as many as
      wanted unless the chain ends before. On failure some byte that was wanted cannot be had. With clusters
      of no size nothing is read. */
  ghost predicate ReadResult(v: Volume, start: nat, offset: nat, wanted: nat, links: nat, buf: seq<byte>, r: Status,
    n: nat, bad: nat)
    requires ReadEnds(v, start, wanted, links)
  {
    if v.spc == 0 then n == 0 && r == SizelessStatus(v, start, wanted, links)
    else
      && (r.Done? ==> n <= wanted && Shows(v, start, offset, buf, n))
      && (r.Done? && n < wanted ==> ChainByte(v, start, offset + n) == Ok(None))
      && (r.IoError? ==> bad < wanted && ChainByte(v, start, offset + bad) == Io)
      && (r.Stopped? ==> bad < wanted && ChainByte(v, start, offset + bad) == Trap)
  }

  /** `FatFile::read_at`, wherever its loops end. A file whose clusters can be read is read completely:
      the least of the buffer's length, the rest of the file and the rest of the chain. */
  method ReadAt(v: Volume, start: nat, size: nat, offset: nat, buf: array<byte>, ghost links: nat)
    returns (r: Status, n: nat, ghost bad: nat)
    requires ReadEnds(v, start, Wanted(size, offset, buf.Length), links)
    modifies buf
    ensures ReadResult(v, start, offset, Wanted(size, offset, buf.Length), links, buf[..], r, n, bad)
    ensures r.Done? ==> n <= Wanted(size, offset, buf.Length)
    ensures r.Done? ==> forall k :: n <= k < buf.Length ==> buf[k] == old(buf[k])
    ensures v.spc > 0 && start > 0 ==> forall k :: Reaches(v, start, k, offset + Wanted(size, offset, buf.Length)) ==>
      Complete(v, start, k, offset, Wanted(size, offset, buf.Length), buf[..], r, n)
  {
    r, n, bad := Done, 0, 0;
    if offset < size {
      var total: nat := if buf.Length < size - offset then buf.Length else size - offset;
      r, n, bad := ReadLoop(v, start, offset, buf, total, links);
    }
    AlwaysComplete(v, start, offset, Wanted(size, offset, buf.Length), links, buf[..], r, n, bad);
  }

  method ReadLoop(v: Volume, start: nat, offset: nat, buf: array<byte>, wanted: nat, ghost links: nat)
    returns (r: Status, n: nat, ghost bad: nat)
    requires wanted <= buf.Length && ReadEnds(v, start, wanted, links)
    modifies buf
    ensures ReadResult(v, start, offset, wanted, links, buf[..], r, n, bad)
    ensures r.Done? ==> forall k :: n <= k < buf.Length ==> buf[k] == old(buf[k])
  {
    n, bad := 0, 0;
    var total := wanted;
    while total > 0
      invariant n + total == wanted && Shows(v, start, offset, buf[..], n) && (v.spc == 0 ==> n == 0)
      invariant forall k :: n <= k < buf.Length ==> buf[k] == old(buf[k])
      decreases total
    {
      var copy;
      r, copy, bad := ReadChunk(v, start, offset, buf, n, total, links);
      if r != Done || copy == 0 {
        return;
      }
      n := n + copy;
      total := total - copy;
    }
    return Done, n, bad;
  }

  // ---------------------------------------------------------------- the file as one string

  /** The first k clusters of the chain from c exist and can be read. */
  predicate Whole(v: Volume, c: nat, k: nat)
    decreases k, c
  {
    k == 0 || (c >= 2 && SECTOR * ClusterLba(v, c) + ClusterSize(v) <= |v.dev|
      && (k == 1 || (Linked(v, c) && Whole(v, After(v, c), k - 1))))
  }

  predicate Linked(v: Volume, c: nat) { Link(v, c).Ok? && Link(v, c).value.Some? }

  function After(v: Volume, c: nat): nat {
    if Linked(v, c) then Link(v, c).value.value else 0
  }

  /** The chain ends behind its k-th cluster. */
  predicate Ends(v: Volume, c: nat, k: nat)
    decreases k, c
  {
    k > 0 && if k == 1 then Link(v, c) == Ok(None) else Linked(v, c) && Ends(v, After(v, c), k - 1)
  }

  /** n bytes of the device from `at` on. */
  function Bytes(d: seq<byte>, at: nat, n: nat): (r: seq<byte>)
    requires at + n <= |d|
    ensures |r| == n
    decreases n, at
  {
    if n == 0 then [] else Bytes(d, at, n - 1) + [d[at + n - 1]]
  }

  lemma {:induction false} BytesAt(d: seq<byte>, at: nat, n: nat, i: nat)
    requires at + n <= |d| && i < n
    ensures Bytes(d, at, n)[i] == d[at + i]
    decreases n
  {
    if i >= n - 1 {
    } else {
      BytesAt(d, at, n - 1, i);
    }
  }

  function ClusterData(v: Volume, c: nat): (d: seq<byte>)
    requires c >= 2 && SECTOR * ClusterLba(v, c) + ClusterSize(v) <= |v.dev|
    ensures |d| == ClusterSize(v)
  {
    Bytes(v.dev, SECTOR * ClusterLba(v, c), ClusterSize(v))
  }

  /** Those clusters, one after the other. */
  function Contents(v: Volume, c: nat, k: nat): seq<byte>
    requires Whole(v, c, k)
    decreases k, c
  {
    if k == 0 then []
    else if k == 1 then ClusterData(v, c)
    else ClusterData(v, c) + Contents(v, After(v, c), k - 1)
  }

  lemma ClusterHas(v: Volume, c: nat, i: nat)
    requires c >= 2 && SECTOR * ClusterLba(v, c) + ClusterSize(v) <= |v.dev| && i < ClusterSize(v)
    ensures ClusterByte(v, c, i) == Ok(ClusterData(v, c)[i])
  {
    assert i / SECTOR < v.spc;
    assert SECTOR * (ClusterLba(v, c) + i / SECTOR) + SECTOR <= SECTOR * ClusterLba(v, c) + ClusterSize(v);
    BytesAt(v.dev, SECTOR * ClusterLba(v, c), ClusterSize(v), i);
  }

  /** A position of the chain reads as b. */
  predicate ReadsAs(v: Volume, at: Res<Option<(nat, nat)>>, b: byte) {
    at.Ok? && at.value.Some? && ClusterByte(v, at.value.value.0, at.value.value.1) == Ok(b)
  }

  lemma {:induction false} ContentsFirst(v: Volume, c: nat, k: nat, pos: nat)
    requires k > 0 && Whole(v, c, k) && pos < ClusterSize(v)
    ensures pos < |Contents(v, c, k)| && ClusterByte(v, c, pos) == Ok(Contents(v, c, k)[pos])
  {
    ClusterHas(v, c, pos);
  }

  /** The bytes of k clusters. */
  function ChainSize(v: Volume, k: nat): nat {
    if k == 0 then 0 else ClusterSize(v) + ChainSize(v, k - 1)
  }

  lemma {:induction false} ContentsSize(v: Volume, c: nat, k: nat)
    requires Whole(v, c, k)
    ensures |Contents(v, c, k)| == ChainSize(v, k)
    decreases k
  {
    if k <= 1 {
    } else {
      var d := After(v, c);
      ContentsSize(v, d, k - 1);
      ContentsStep(v, c, k, ClusterData(v, c), Contents(v, d, k - 1));
    }
  }

  lemma ContentsStep(v: Volume, c: nat, k: nat, a: seq<byte>, b: seq<byte>)
    requires k > 1 && Whole(v, c, k) && a == ClusterData(v, c) && b == Contents(v, After(v, c), k - 1)
    ensures Contents(v, c, k) == a + b
  {
  }

  lemma Appended(a: seq<byte>, b: seq<byte>, pos: nat)
    requires |a| <= pos < |a| + |b|
    ensures (a + b)[pos] == b[pos - |a|]
  {
  }

  lemma LongChain(v: Volume, c: nat, k: nat, pos: nat)
    requires Whole(v, c, k) && ClusterSize(v) <= pos < ChainSize(v, k)
    ensures k > 1 && Linked(v, c) && Whole(v, After(v, c), k - 1) && pos - ClusterSize(v) < ChainSize(v, k - 1)
  {
    assert ChainSize(v, 1) == ClusterSize(v);
  }

  lemma {:induction false} ContentsRest(v: Volume, c: nat, k: nat, d: nat, pos: nat)
    requires k > 1 && Whole(v, c, k) && d == After(v, c) && Whole(v, d, k - 1) && pos < |Contents(v, d, k - 1)|
    ensures ClusterSize(v) + pos < |Contents(v, c, k)|
      && Contents(v, c, k)[ClusterSize(v) + pos] == Contents(v, d, k - 1)[pos]
  {
    var a, b := ClusterData(v, c), Contents(v, d, k - 1);
    ContentsStep(v, c, k, a, b);
    Appended(a, b, |a| + pos);
  }

  /** Position by position, the walk along the chain reads the concatenation. */
  lemma {:induction false} ContentsAt(v: Volume, c: nat, k: nat, pos: nat)
    requires v.spc > 0 && Whole(v, c, k) && pos < ChainSize(v, k)
    ensures pos < |Contents(v, c, k)| && ReadsAs(v, Locate(v, c, pos), Contents(v, c, k)[pos])
    decreases k
  {
    if pos < ClusterSize(v) {
      ContentsFirst(v, c, k, pos);
    } else {
      LongChain(v, c, k, pos);
      ContentsAt(v, After(v, c), k - 1, pos - ClusterSize(v));
      ContentsRest(v, c, k, After(v, c), pos - ClusterSize(v));
      assert Locate(v, c, pos) == Locate(v, After(v, c), pos - ClusterSize(v));
    }
  }

  lemma {:induction false} PastEnd(v: Volume, c: nat, k: nat, pos: nat)
    requires v.spc > 0 && Ends(v, c, k) && pos >= ChainSize(v, k)
    ensures Locate(v, c, pos) == Ok(None)
    decreases k
  {
    if k <= 1 {
    } else {
      PastEnd(v, After(v, c), k - 1, pos - ClusterSize(v));
    }
  }

  /** The chain's bytes are the concatenation's, and nothing follows them. */
  lemma {:induction false} ChainIsContents(v: Volume, start: nat, k: nat, pos: nat)
    requires v.spc > 0 && start > 0 && Whole(v, start, k)
    ensures pos < |Contents(v, start, k)| ==> ChainByte(v, start, pos) == Ok(Some(Contents(v, start, k)[pos]))
    ensures pos >= |Contents(v, start, k)| && Ends(v, start, k) ==> ChainByte(v, start, pos) == Ok(None)
  {
    ContentsSize(v, start, k);
    if pos < |Contents(v, start, k)| {
      ContentsAt(v, start, k, pos);
    } else if Ends(v, start, k) {
      PastEnd(v, start, k, pos);
    }
  }

  /** What a read shows is a slice of the concatenated clusters. */
  lemma {:induction false} ReadIsSlice(v: Volume, start: nat, k: nat, offset: nat, buf: seq<byte>, n: nat)
    requires v.spc > 0 && start > 0 && Whole(v, start, k) && Shows(v, start, offset, buf, n)
    requires offset + n <= |Contents(v, start, k)|
    ensures buf[..n] == Contents(v, start, k)[offset..offset + n]
  {
    forall j | 0 <= j < n ensures buf[j] == Contents(v, start, k)[offset + j] {
      ChainIsContents(v, start, k, offset + j);
    }
  }

  /** The first k clusters can be read, and are all of the chain or reach up to `end`. */
  predicate Reaches(v: Volume, start: nat, k: nat, end: nat) {
    Whole(v, start, k) && (Ends(v, start, k) || end <= ChainSize(v, k))
  }

  /** The read succeeds with all that the chain has of what is wanted. */
  ghost predicate Complete(v: Volume, start: nat, k: nat, offset: nat, wanted: nat, buf: seq<byte>, r: Status, n: nat)
    requires Whole(v, start, k)
  {
    && r.Done? && n == Least(wanted, ChainSize(v, k) - offset) <= |buf|
    && (n > 0 ==> offset + n <= |Contents(v, start, k)| && buf[..n] == Contents(v, start, k)[offset..offset + n])
  }

  lemma {:induction false} ReachedByte(v: Volume, start: nat, k: nat, end: nat, pos: nat)
    requires v.spc > 0 && start > 0 && Reaches(v, start, k, end) && pos < end
    ensures ChainByte(v, start, pos).Ok? && (ChainByte(v, start, pos).value.None? <==> pos >= ChainSize(v, k))
  {
    ContentsSize(v, start, k);
    ChainIsContents(v, start, k, pos);
  }

  /** A read of clusters that can be read never fails. */
  lemma {:induction false} ReadSucceeds(v: Volume, start: nat, k: nat, offset: nat, wanted: nat, links: nat,
    buf: seq<byte>, r: Status, n: nat, bad: nat)
    requires v.spc > 0 && start > 0 && Reaches(v, start, k, offset + wanted)
    requires ReadResult(v, start, offset, wanted, links, buf, r, n, bad)
    ensures r.Done?
  {
    if !r.Done? {
      ReachedByte(v, start, k, offset + wanted, offset + bad);
    }
  }

  /** It returns exactly the least of what is wanted and what is left of the chain. */
  lemma {:induction false} ReadLength(v: Volume, start: nat, k: nat, offset: nat, wanted: nat, buf: seq<byte>, n: nat)
    requires v.spc > 0 && start > 0 && Reaches(v, start, k, offset + wanted) && n <= wanted
    requires Shows(v, start, offset, buf, n) && (n < wanted ==> ChainByte(v, start, offset + n) == Ok(None))
    ensures n == Least(wanted, ChainSize(v, k) - offset)
  {
    if n < wanted {
      ReachedByte(v, start, k, offset + wanted, offset + n);
    }
    if n > 0 {
      ReachedByte(v, start, k, offset + wanted, offset + (n - 1));
      assert ChainByte(v, start, offset + (n - 1)) == Ok(Some(buf[n - 1]));
    }
  }

  /** So it is complete. Chains that run in circles are covered, with as many clusters as are needed. */
  lemma {:induction false} ReadComplete(v: Volume, start: nat, k: nat, offset: nat, wanted: nat, links: nat,
    buf: seq<byte>, r: Status, n: nat, bad: nat)
    requires v.spc > 0 && start > 0 && Reaches(v, start, k, offset + wanted)
    requires ReadResult(v, start, offset, wanted, links, buf, r, n, bad)
    ensures Complete(v, start, k, offset, wanted, buf, r, n)
  {
    ReadSucceeds(v, start, k, offset, wanted, links, buf, r, n, bad);
    ReadLength(v, start, k, offset, wanted, buf, n);
    ContentsSize(v, start, k);
    if n > 0 {
      ReadIsSlice(v, start, k, offset, buf, n);
    }
  }

  lemma {:induction false} AlwaysComplete(v: Volume, start: nat, offset: nat, wanted: nat, links: nat, buf: seq<byte>,
    r: Status, n: nat, bad: nat)
    requires ReadEnds(v, start, wanted, links) && ReadResult(v, start, offset, wanted, links, buf, r, n, bad)
    ensures v.spc > 0 && start > 0 ==>
      forall k :: Reaches(v, start, k, offset + wanted) ==> Complete(v, start, k, offset, wanted, buf, r, n)
  {
    if v.spc > 0 && start > 0 {
      forall k | Reaches(v, start, k, offset + wanted) ensures Complete(v, start, k, offset, wanted, buf, r, n) {
        ReadComplete(v, start, k, offset, wanted, links, buf, r, n, bad);
      }
    }
  }

  function Least(a: nat, b: int): nat { if b < 0 then 0 else if a < b then a else b }

  // ---------------------------------------------------------------- when a read ends

  /** The loops of read_at: the chain walk for a position, with so much still wanted, or the end. */
  datatype Reading = Reading(walk: Walk, pos: nat, total: nat) | Finished

  function BeginRead(start: nat, pos: nat, total: nat): Reading {
    if total == 0 || start == 0 then Finished else Reading(At(start, pos), pos, total)
  }

  predicate Readable(v: Volume, c: nat, i: nat, n: nat) {
    ClusterByte(v, c, i).Ok? && (n > 0 ==> ClusterByte(v, c, i + n - 1).Ok?)
  }

  function ReadTurn(v: Volume, start: nat, s: Reading): Reading {
    if s.Finished? then s
    else if s.walk.At? then s.(walk := Turn(v, s.walk))
    else
      match s.walk.result
      case Ok(Some((c, i))) =>
        var copy := if i < ClusterSize(v) then Min(ClusterSize(v) - i, s.total) else 0;
        if Readable(v, c, i, copy) then BeginRead(start, s.pos + copy, s.total - copy) else Finished
      case _ => Finished
  }

  function ReadTurns(v: Volume, start: nat, s: Reading, k: nat): Reading
    decreases k, s
  {
    if k == 0 then s else ReadTurns(v, start, ReadTurn(v, start, s), k - 1)
  }

  predicate InCluster(v: Volume, w: Walk) {
    w.Over? && w.result.Ok? && w.result.value.Some? ==> w.result.value.value.1 < ClusterSize(v)
  }

  lemma {:induction false} ReadFinishes(v: Volume, start: nat, w: Walk, pos: nat, total: nat) returns (k: nat)
    requires v.spc > 0 && total > 0 && InCluster(v, w)
    ensures ReadTurns(v, start, Reading(w, pos, total), k).Finished?
    decreases total, if w.At? then 1 + w.left else 0
  {
    var s := ReadTurn(v, start, Reading(w, pos, total));
    if s.Finished? {
      k := 0;
    } else {
      k := ReadFinishes(v, start, s.walk, s.pos, s.total);
    }
    k := k + 1;
  }

  lemma {:induction false} SizelessFinishes(v: Volume, start: nat, c: nat, left: nat, pos: nat, total: nat, links: nat)
    returns (k: nat)
    requires v.spc == 0 && !Links(v, c, links)
    ensures ReadTurns(v, start, Reading(At(c, left), pos, total), k).Finished?
    decreases links
  {
    var s := ReadTurn(v, start, Reading(At(c, left), pos, total));
    if Linked(v, c) {
      k := SizelessFinishes(v, start, After(v, c), left, pos, total, links - 1);
    } else {
      k := 1;
      assert ReadTurns(v, start, s, k) == ReadTurns(v, start, Finished, 0);
    }
    k := k + 1;
  }

  lemma {:induction false} SizelessGoesOn(v: Volume, start: nat, c: nat, left: nat, pos: nat, total: nat, k: nat)
    requires v.spc == 0 && Links(v, c, k)
    ensures ReadTurns(v, start, Reading(At(c, left), pos, total), k).Reading?
    decreases k
  {
    if k == 0 {
    } else {
      SizelessGoesOn(v, start, After(v, c), left, pos, total, k - 1);
    }
  }

  /** A read ends exactly when nothing is wanted, the file has no clusters, clusters have a size, or the
      links from its first cluster end. */
  lemma {:induction false} ReadTerminatesWhen(v: Volume, start: nat, offset: nat, wanted: nat)
    ensures (exists k :: ReadTurns(v, start, BeginRead(start, offset, wanted), k).Finished?)
      <==> exists links :: ReadEnds(v, start, wanted, links)
  {
    var s := BeginRead(start, offset, wanted);
    if wanted == 0 || start == 0 {
      assert ReadTurns(v, start, s, 0) == Finished;
      assert ReadEnds(v, start, wanted, 0);
    } else if v.spc > 0 {
      var k := ReadFinishes(v, start, At(start, offset), offset, wanted);
      assert ReadEnds(v, start, wanted, 0);
    } else {
      if links: nat :| ReadEnds(v, start, wanted, links) {
        var k := SizelessFinishes(v, start, start, offset, offset, wanted, links);
      }
      if k: nat :| ReadTurns(v, start, s, k).Finished? {
        if Links(v, start, k) {
          SizelessGoesOn(v, start, start, offset, offset, wanted, k);
        }
        assert ReadEnds(v, start, wanted, k);
      }
    }
  }

  lemma {:induction false} SelfLinked(v: Volume, c: nat, k: nat)
    requires Link(v, c) == Ok(Some(c))
    ensures Links(v, c, k)
    decreases k
  {
    if k == 0 {
    } else {
      SelfLinked(v, c, k - 1);
    }
  }
}
