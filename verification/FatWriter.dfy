/** A writer of FAT16 volumes, laid out by the byte offsets of the Microsoft FAT32 File System Specification 1.03:
    boot sector, copies of the allocation table, root directory and clusters. */
module FatWriter {
  import opened Alignment
  import opened LittleEndian

  /** The first sector of the volume, what its boot sector says, and the mark at the end of a chain. */
  datatype Disk = Disk(start: nat, spc: nat, reserved: nat, fats: nat, fatSectors: nat, rootEntries: nat, mark: nat)

  /** What the directory holds: a file, with its clusters in order and its bytes; or an entry of another kind. */
  datatype Item =
    | File(name: seq<byte>, attributes: byte, chain: seq<nat>, data: seq<byte>)
    | Other(entry: seq<byte>)
  {
    function Chain(): seq<nat> { if File? then chain else [] }
  }

  /** Bytes to be written at a place. */
  datatype Patch = Patch(at: nat, bytes: seq<byte>) {
    function End(): nat { at + |bytes| }
  }

  predicate ValidDisk(d: Disk) {
    && 1 <= d.spc < 256 && 1 <= d.reserved < 0x1_0000 && 1 <= d.fats < 256
    && d.fatSectors < 0x1_0000 && d.rootEntries < 0x1_0000 && 0xFFF8 <= d.mark < 0x1_0000
  }

  function ClusterBytes(d: Disk): nat { 512 * d.spc }

  /** Where a copy of the allocation table begins; behind the last one there is the root directory. */
  function FatAt(d: Disk, copy: nat): nat { 512 * (d.start + d.reserved) + 512 * (d.fatSectors * copy) }

  function RootAt(d: Disk): nat { FatAt(d, d.fats) }

  /** The root directory takes whole sectors. */
  function DataAt(d: Disk): nat { RootAt(d) + 512 * ((32 * d.rootEntries + 511) / 512) }

  /** The first cluster has number 2. */
  function ClusterAt(d: Disk, c: nat): nat
    requires c >= 2
  {
    DataAt(d) + 512 * (d.spc * (c - 2))
  }

  predicate ValidCluster(d: Disk, c: nat) { 2 <= c < 0xFFF8 && 2 * c + 2 <= 512 * d.fatSectors }

  predicate ValidChain(d: Disk, chain: seq<nat>) { forall j :: 0 <= j < |chain| ==> ValidCluster(d, chain[j]) }

  /** Attribute bit 3 is a volume label's and that of a part of a long name, bit 4 a directory's. */
  predicate ValidItem(d: Disk, it: Item) {
    match it
    case File(name, attributes, chain, data) =>
      && |name| == 11 && name[0] != 0 && name[0] != 0xE5 && attributes % 32 < 8 && ValidChain(d, chain)
      && |data| <= ClusterBytes(d) * |chain| && |data| < 0x1_0000_0000
    case Other(e) => |e| == 32 && e[0] != 0 && (e[0] == 0xE5 || e[11] % 32 >= 8)
  }

  /** Items that fit in the directory; files have names and clusters of their own. */
  ghost predicate ValidItems(d: Disk, items: seq<Item>) {
    && ValidDisk(d) && |items| <= d.rootEntries
    && (forall k :: 0 <= k < |items| ==> ValidItem(d, items[k]))
    && (forall k, l :: 0 <= k < l < |items| && items[k].File? && items[l].File? ==> items[k].name != items[l].name)
    && (forall k, j, l, i :: SameCluster(items, k, j, l, i) ==> k == l && j == i)
  }

  predicate SameCluster(items: seq<Item>, k: int, j: int, l: int, i: int) {
    && 0 <= k < |items| && 0 <= j < |items[k].Chain()| && 0 <= l < |items| && 0 <= i < |items[l].Chain()|
    && items[k].Chain()[j] == items[l].Chain()[i]
  }

  // ---------------------------------------------------------------- the parts of a volume

  /** From byte 11 of the boot sector on: bytes per sector, sectors per cluster, reserved sectors, table copies,
      root entries, a 16-bit sector count that is not used, the media type, sectors per table. */
  function BootFields(d: Disk): seq<Num> {
    [Num(512, 2), Num(d.spc, 1), Num(d.reserved, 2), Num(d.fats, 1), Num(d.rootEntries, 2), Num(0, 2), Num(0xF8, 1),
     Num(d.fatSectors, 2)]
  }

  function BootPatch(d: Disk): Patch { Patch(512 * d.start + 11, Pack(BootFields(d))) }

  /** What the table says of cluster j of a chain: the next one, or that there is none. */
  function LinkValue(d: Disk, chain: seq<nat>, j: nat): nat
    requires j < |chain|
  {
    if j + 1 < |chain| then chain[j + 1] else d.mark
  }

  function LinkPatch(d: Disk, chain: seq<nat>, j: nat, copy: nat): Patch
    requires j < |chain|
  {
    Patch(FatAt(d, copy) + 2 * chain[j], Encode(LinkValue(d, chain, j), 2))
  }

  /** From byte 11 of a file's entry on: attributes, times that are not used, the first cluster, the size. */
  function EntryFields(attributes: byte, chain: seq<nat>, size: nat): seq<Num> {
    [Num(attributes, 1), Num(0, 14), Num(if chain == [] then 0 else chain[0], 2), Num(size, 4)]
  }

  function EntryBytes(it: Item): seq<byte> {
    match it
    case File(name, attributes, chain, data) => name + Pack(EntryFields(attributes, chain, |data|))
    case Other(e) => e
  }

  function EntryPatch(d: Disk, it: Item, k: nat): Patch { Patch(RootAt(d) + 32 * k, EntryBytes(it)) }

  function DataByte(data: seq<byte>, pos: nat): byte { if pos < |data| then data[pos] else 0 }

  /** The bytes of cluster j, filled up with zeros. */
  function ClusterPart(d: Disk, data: seq<byte>, j: nat): (b: seq<byte>)
    ensures |b| == ClusterBytes(d)
  {
    seq<byte>(ClusterBytes(d), i requires 0 <= i < ClusterBytes(d) => DataByte(data, ClusterBytes(d) * j + i))
  }

  function ClusterPatch(d: Disk, it: Item, j: nat): Patch
    requires j < |it.Chain()| && it.Chain()[j] >= 2
  {
    Patch(ClusterAt(d, it.chain[j]), ClusterPart(d, it.data, j))
  }

  ghost predicate IsLink(d: Disk, items: seq<Item>, k: int, j: int, copy: int, p: Patch) {
    && 0 <= k < |items| && 0 <= j < |items[k].Chain()| && 0 <= copy < d.fats
    && p == LinkPatch(d, items[k].chain, j, copy)
  }

  ghost predicate IsEntry(d: Disk, items: seq<Item>, k: int, p: Patch) {
    0 <= k < |items| && p == EntryPatch(d, items[k], k)
  }

  ghost predicate IsCluster(d: Disk, items: seq<Item>, k: int, j: int, p: Patch) {
    && 0 <= k < |items| && 0 <= j < |items[k].Chain()| && items[k].chain[j] >= 2
    && p == ClusterPatch(d, items[k], j)
  }

  /** p is the boot sector's, a link's, an entry's or a cluster's. */
  ghost predicate Part(d: Disk, items: seq<Item>, p: Patch) {
    || p == BootPatch(d)
    || (exists k, j, copy :: IsLink(d, items, k, j, copy, p))
    || (exists k :: IsEntry(d, items, k, p))
    || (exists k, j :: IsCluster(d, items, k, j, p))
  }

  /** The device has the bytes of p at p's place. */
  ghost predicate Has(dev: seq<byte>, p: Patch) {
    p.End() <= |dev| && forall i :: 0 <= i < |p.bytes| ==> dev[p.at + i] == p.bytes[i]
  }

  /** A device of n bytes has room for the directory and for the clusters that are used. */
  ghost predicate Fits(d: Disk, items: seq<Item>, n: nat) {
    && DataAt(d) <= n
    && forall k, j :: 0 <= k < |items| && 0 <= j < |items[k].Chain()| ==> ClusterFits(d, items[k].Chain()[j], n)
  }

  predicate ClusterFits(d: Disk, c: nat, n: nat) { c >= 2 && ClusterAt(d, c) + ClusterBytes(d) <= n }

  /** The items are on the device. */
  ghost predicate Written(dev: seq<byte>, d: Disk, items: seq<Item>) {
    ValidItems(d, items) && Fits(d, items, |dev|) && forall p :: Part(d, items, p) ==> Has(dev, p)
  }

  // ---------------------------------------------------------------- the writer

  function Flat(groups: seq<seq<Patch>>): seq<Patch> {
    if groups == [] then [] else Flat(groups[..|groups| - 1]) + groups[|groups| - 1]
  }

  /** Cluster j of an item, and what the copies of the table say of it. */
  function ClusterPatches(d: Disk, it: Item, j: nat): seq<Patch>
    requires j < |it.Chain()| && it.Chain()[j] >= 2
  {
    [ClusterPatch(d, it, j)] + seq(d.fats, i requires 0 <= i => LinkPatch(d, it.chain, j, i))
  }

  /** By cluster. */
  function ChainGroups(d: Disk, it: Item): (g: seq<seq<Patch>>)
    requires ValidItem(d, it)
    ensures |g| == |it.Chain()| && forall j :: 0 <= j < |g| ==> g[j] == ClusterPatches(d, it, j)
  {
    seq(|it.Chain()|, j requires 0 <= j < |it.Chain()| => ClusterPatches(d, it, j))
  }

  function ItemPatches(d: Disk, it: Item, k: nat): seq<Patch>
    requires ValidItem(d, it)
  {
    [EntryPatch(d, it, k)] + Flat(ChainGroups(d, it))
  }

  /** By item. */
  function ItemGroups(d: Disk, items: seq<Item>): (g: seq<seq<Patch>>)
    requires forall k :: 0 <= k < |items| ==> ValidItem(d, items[k])
    ensures |g| == |items| && forall k :: 0 <= k < |items| ==> g[k] == ItemPatches(d, items[k], k)
  {
    seq(|items|, k requires 0 <= k < |items| => ItemPatches(d, items[k], k))
  }

  function Patches(d: Disk, items: seq<Item>): seq<Patch>
    requires forall k :: 0 <= k < |items| ==> ValidItem(d, items[k])
  {
    [BootPatch(d)] + Flat(ItemGroups(d, items))
  }

  /** The byte that the first patch over a place has for it, and zero where there is none. */
  function Painted(ps: seq<Patch>, x: nat): byte {
    if ps == [] then 0
    else if ps[0].at <= x < ps[0].End() then ps[0].bytes[x - ps[0].at]
    else Painted(ps[1..], x)
  }

  /** A device of n bytes with the items on it. */
  function Format(d: Disk, items: seq<Item>, n: nat): (dev: seq<byte>)
    requires forall k :: 0 <= k < |items| ==> ValidItem(d, items[k])
    ensures |dev| == n
  {
    seq<byte>(n, x requires 0 <= x < n => Painted(Patches(d, items), x))
  }

  // ---------------------------------------------------------------- which parts are written

  lemma {:induction false} InFlat(groups: seq<seq<Patch>>, p: Patch)
    ensures p in Flat(groups) <==> exists k :: 0 <= k < |groups| && p in groups[k]
    decreases |groups|
  {
    if groups == [] {
    } else {
      InFlat(groups[..|groups| - 1], p);
    }
  }

  lemma {:induction false} InItem(d: Disk, it: Item, k: nat, p: Patch)
    requires ValidItem(d, it)
    ensures p in ItemPatches(d, it, k)
      <==> p == EntryPatch(d, it, k) || exists j :: 0 <= j < |it.Chain()| && p in ClusterPatches(d, it, j)
  {
    InFlat(ChainGroups(d, it), p);
  }

  lemma {:induction false} InPatches(d: Disk, items: seq<Item>, p: Patch)
    requires forall k :: 0 <= k < |items| ==> ValidItem(d, items[k])
    ensures p in Patches(d, items)
      <==> p == BootPatch(d) || exists k :: 0 <= k < |items| && p in ItemPatches(d, items[k], k)
  {
    InFlat(ItemGroups(d, items), p);
  }

  lemma {:induction false} ItemIsPart(d: Disk, items: seq<Item>, k: nat, p: Patch)
    requires k < |items| && ValidItem(d, items[k]) && p in ItemPatches(d, items[k], k)
    ensures Part(d, items, p)
  {
    var it := items[k];
    InItem(d, it, k, p);
    if p == EntryPatch(d, it, k) {
      assert IsEntry(d, items, k, p);
    } else {
      var j :| 0 <= j < |it.Chain()| && p in ClusterPatches(d, it, j);
      if p == ClusterPatch(d, it, j) {
        assert IsCluster(d, items, k, j, p);
      } else {
        var i :| 0 <= i < d.fats && p == LinkPatch(d, it.chain, j, i);
        assert IsLink(d, items, k, j, i, p);
      }
    }
  }

  lemma {:induction false} PartInItem(d: Disk, items: seq<Item>, p: Patch) returns (k: nat)
    requires ValidItems(d, items) && Part(d, items, p) && p != BootPatch(d)
    ensures k < |items| && p in ItemPatches(d, items[k], k)
  {
    if l, j, copy :| IsLink(d, items, l, j, copy, p) {
      k := l;
      assert ClusterPatches(d, items[k], j)[1 + copy] == p;
    } else if l :| IsEntry(d, items, l, p) {
      k := l;
    } else {
      var l, j :| IsCluster(d, items, l, j, p);
      k := l;
      assert ClusterPatches(d, items[k], j)[0] == p;
    }
    InItem(d, items[k], k, p);
  }

  /** The patches are the parts. */
  lemma {:induction false} PatchesAreParts(d: Disk, items: seq<Item>, p: Patch)
    requires ValidItems(d, items)
    ensures p in Patches(d, items) <==> Part(d, items, p)
  {
    InPatches(d, items, p);
    if p == BootPatch(d) {
    } else if Part(d, items, p) {
      var k := PartInItem(d, items, p);
    } else if p in Patches(d, items) {
      var k :| 0 <= k < |items| && p in ItemPatches(d, items[k], k);
      ItemIsPart(d, items, k, p);
    }
  }

  // ---------------------------------------------------------------- no part is over another

  /** Two parts are the same, or apart. */
  predicate Compatible(p: Patch, q: Patch) { p == q || p.End() <= q.at || q.End() <= p.at }

  /** The zones of a volume: boot sector, tables, directory, clusters. */
  function ZoneAt(d: Disk, z: nat): nat {
    if z == 0 then 512 * d.start else if z == 1 then FatAt(d, 0) else if z == 2 then RootAt(d) else DataAt(d)
  }

  predicate InZone(d: Disk, p: Patch, z: nat) {
    z < 4 && ZoneAt(d, z) <= p.at && (z < 3 ==> p.End() <= ZoneAt(d, z + 1))
  }

  lemma {:induction false} BootOffsets(fs: seq<Num>, d: Disk)
    requires fs == BootFields(d)
    ensures Offset(fs, 0) == 0 && Offset(fs, 1) == 2 && Offset(fs, 2) == 3 && Offset(fs, 3) == 5 && Offset(fs, 4) == 6
    ensures Offset(fs, 7) == 11 && |Pack(fs)| == 13
  {
    assert Offset(fs, 1) == 2;
    assert Offset(fs, 2) == 3;
    assert Offset(fs, 4) == 6;
    assert Offset(fs, 6) == 10;
    assert Offset(fs, 8) == 13;
    PackLength(fs);
  }

  lemma {:induction false} EntryOffsets(fs: seq<Num>, attributes: byte, chain: seq<nat>, size: nat)
    requires fs == EntryFields(attributes, chain, size)
    ensures Offset(fs, 0) == 0 && Offset(fs, 2) == 15 && Offset(fs, 3) == 17 && |Pack(fs)| == 21
  {
    assert Offset(fs, 1) == 1;
    assert Offset(fs, 2) == 15;
    assert Offset(fs, 4) == 21;
    PackLength(fs);
  }

  lemma {:induction false} BootZone(d: Disk)
    requires ValidDisk(d)
    ensures InZone(d, BootPatch(d), 0) && |BootPatch(d).bytes| == 13
  {
    BootOffsets(BootFields(d), d);
  }

  lemma {:induction false} LinkZone(d: Disk, chain: seq<nat>, j: nat, copy: nat)
    requires ValidDisk(d) && ValidChain(d, chain) && j < |chain| && copy < d.fats
    ensures FatAt(d, copy) <= LinkPatch(d, chain, j, copy).at
      && LinkPatch(d, chain, j, copy).End() <= FatAt(d, copy) + 512 * d.fatSectors
    ensures InZone(d, LinkPatch(d, chain, j, copy), 1)
  {
    assert ValidCluster(d, chain[j]);
    assert d.fatSectors * (copy + 1) == d.fatSectors * copy + d.fatSectors;
    MulMono(d.fatSectors, copy + 1, d.fats);
    MulMono(d.fatSectors, 0, copy);
  }

  lemma {:induction false} EntrySize(d: Disk, it: Item)
    requires ValidItem(d, it)
    ensures |EntryBytes(it)| == 32
  {
    if it.File? {
      EntryOffsets(EntryFields(it.attributes, it.chain, |it.data|), it.attributes, it.chain, |it.data|);
    }
  }

  lemma {:induction false} EntryZone(d: Disk, items: seq<Item>, k: nat)
    requires ValidItems(d, items) && k < |items|
    ensures InZone(d, EntryPatch(d, items[k], k), 2)
  {
    EntrySize(d, items[k]);
  }

  /** The zone of a part, and the part as one of that zone. */
  lemma {:induction false} PartZone(d: Disk, items: seq<Item>, p: Patch) returns (z: nat)
    requires ValidItems(d, items) && Part(d, items, p)
    ensures InZone(d, p, z) && (z == 0 ==> p == BootPatch(d))
    ensures z == 1 ==> exists k, j, copy :: IsLink(d, items, k, j, copy, p)
    ensures z == 2 ==> exists k :: IsEntry(d, items, k, p)
    ensures z == 3 ==> exists k, j :: IsCluster(d, items, k, j, p)
  {
    if p == BootPatch(d) {
      BootZone(d);
      return 0;
    } else if k, j, copy :| IsLink(d, items, k, j, copy, p) {
      LinkZone(d, items[k].chain, j, copy);
      return 1;
    } else if k :| IsEntry(d, items, k, p) {
      EntryZone(d, items, k);
      return 2;
    } else {
      var k, j :| IsCluster(d, items, k, j, p);
      MulMono(d.spc, 0, items[k].chain[j] - 2);
      return 3;
    }
  }

  lemma {:induction false} ZonesApart(d: Disk, p: Patch, y: nat, q: Patch, z: nat)
    requires ValidDisk(d) && InZone(d, p, y) && InZone(d, q, z) && y < z
    ensures p.End() <= q.at
  {
    MulMono(d.fatSectors, 0, d.fats);
    assert FatAt(d, 0) <= RootAt(d) <= DataAt(d);
  }

  lemma {:induction false} CopiesApart(d: Disk, p: Patch, copy: nat, q: Patch, other: nat)
    requires copy < other && p.End() <= FatAt(d, copy) + 512 * d.fatSectors && FatAt(d, other) <= q.at
    ensures p.End() <= q.at
  {
    assert d.fatSectors * (copy + 1) == d.fatSectors * copy + d.fatSectors;
    MulMono(d.fatSectors, copy + 1, other);
  }

  lemma {:induction false} LinksApart(d: Disk, items: seq<Item>, k: nat, j: nat, copy: nat, p: Patch, l: nat, i: nat,
    other: nat, q: Patch)
    requires ValidItems(d, items) && IsLink(d, items, k, j, copy, p) && IsLink(d, items, l, i, other, q)
    requires copy <= other
    ensures Compatible(p, q)
  {
    if copy < other {
      LinkZone(d, items[k].chain, j, copy);
      LinkZone(d, items[l].chain, i, other);
      CopiesApart(d, p, copy, q, other);
    } else if items[k].chain[j] == items[l].chain[i] {
      assert SameCluster(items, k, j, l, i);
    }
  }

  lemma {:induction false} EntriesApart(d: Disk, items: seq<Item>, k: nat, p: Patch, l: nat, q: Patch)
    requires ValidItems(d, items) && IsEntry(d, items, k, p) && IsEntry(d, items, l, q)
    ensures Compatible(p, q)
  {
    EntrySize(d, items[k]);
    EntrySize(d, items[l]);
  }

  lemma {:induction false} ClustersApart(d: Disk, items: seq<Item>, k: nat, j: nat, p: Patch, l: nat, i: nat, q: Patch)
    requires ValidItems(d, items) && IsCluster(d, items, k, j, p) && IsCluster(d, items, l, i, q)
    requires items[k].chain[j] <= items[l].chain[i]
    ensures Compatible(p, q)
  {
    var a, b := items[k].chain[j], items[l].chain[i];
    if a == b {
      assert SameCluster(items, k, j, l, i);
    } else {
      assert d.spc * (a - 2 + 1) == d.spc * (a - 2) + d.spc;
      MulMono(d.spc, a - 2 + 1, b - 2);
    }
  }

  lemma {:induction false} LinkPartsApart(d: Disk, items: seq<Item>, p: Patch, q: Patch)
    requires ValidItems(d, items)
    requires exists k, j, copy :: IsLink(d, items, k, j, copy, p)
    requires exists k, j, copy :: IsLink(d, items, k, j, copy, q)
    ensures Compatible(p, q)
  {
    var k, j, copy :| IsLink(d, items, k, j, copy, p);
    var l, i, other :| IsLink(d, items, l, i, other, q);
    if copy <= other {
      LinksApart(d, items, k, j, copy, p, l, i, other, q);
    } else {
      LinksApart(d, items, l, i, other, q, k, j, copy, p);
    }
  }

  lemma {:induction false} ClusterPartsApart(d: Disk, items: seq<Item>, p: Patch, q: Patch)
    requires ValidItems(d, items)
    requires (exists k, j :: IsCluster(d, items, k, j, p)) && exists k, j :: IsCluster(d, items, k, j, q)
    ensures Compatible(p, q)
  {
    var k, j :| IsCluster(d, items, k, j, p);
    var l, i :| IsCluster(d, items, l, i, q);
    if items[k].chain[j] <= items[l].chain[i] {
      ClustersApart(d, items, k, j, p, l, i, q);
    } else {
      ClustersApart(d, items, l, i, q, k, j, p);
    }
  }

  lemma {:induction false} PartsApart(d: Disk, items: seq<Item>, p: Patch, q: Patch)
    requires ValidItems(d, items) && Part(d, items, p) && Part(d, items, q)
    ensures Compatible(p, q)
  {
    var y := PartZone(d, items, p);
    var z := PartZone(d, items, q);
    if y < z {
      ZonesApart(d, p, y, q, z);
    } else if z < y {
      ZonesApart(d, q, z, p, y);
    } else if z == 1 {
      LinkPartsApart(d, items, p, q);
    } else if z == 2 {
      var k, l :| IsEntry(d, items, k, p) && IsEntry(d, items, l, q);
      EntriesApart(d, items, k, p, l, q);
    } else if z == 3 {
      ClusterPartsApart(d, items, p, q);
    }
  }

  // ---------------------------------------------------------------- what is written is there

  lemma {:induction false} PaintedBy(ps: seq<Patch>, p: Patch, x: nat)
    requires p in ps && p.at <= x < p.End() && forall q :: q in ps ==> Compatible(p, q)
    ensures Painted(ps, x) == p.bytes[x - p.at]
  {
    if ps[0].at <= x < ps[0].End() {
      assert Compatible(p, ps[0]);
    } else {
      assert p in ps[1..];
      PaintedBy(ps[1..], p, x);
    }
  }

  lemma {:induction false} PartFits(d: Disk, items: seq<Item>, p: Patch, n: nat)
    requires ValidItems(d, items) && Fits(d, items, n) && Part(d, items, p)
    ensures p.End() <= n
  {
    var z := PartZone(d, items, p);
    if z == 3 {
      var k, j :| IsCluster(d, items, k, j, p);
      assert ClusterFits(d, items[k].Chain()[j], n);
    } else {
      MulMono(d.fatSectors, 0, d.fats);
      assert ZoneAt(d, z + 1) <= DataAt(d);
    }
  }

  lemma {:induction false} PatchesApart(d: Disk, items: seq<Item>, ps: seq<Patch>, p: Patch)
    requires ValidItems(d, items) && Part(d, items, p) && ps == Patches(d, items)
    ensures p in ps && forall q :: q in ps ==> Compatible(p, q)
  {
    PatchesAreParts(d, items, p);
    forall q | q in ps ensures Compatible(p, q) {
      PatchesAreParts(d, items, q);
      PartsApart(d, items, p, q);
    }
  }

  lemma {:induction false} PatchPainted(dev: seq<byte>, ps: seq<Patch>, p: Patch)
    requires p in ps && p.End() <= |dev| && forall q :: q in ps ==> Compatible(p, q)
    requires forall x :: 0 <= x < |dev| ==> dev[x] == Painted(ps, x)
    ensures Has(dev, p)
  {
    forall i | 0 <= i < |p.bytes| ensures dev[p.at + i] == p.bytes[i] {
      PaintedBy(ps, p, p.at + i);
    }
  }

  /** What the writer makes of any valid items holds them all. */
  lemma {:induction false} FormatWrites(d: Disk, items: seq<Item>, n: nat)
    requires ValidItems(d, items) && Fits(d, items, n)
    ensures Written(Format(d, items, n), d, items)
  {
    var ps, dev := Patches(d, items), Format(d, items, n);
    forall p | Part(d, items, p) ensures Has(dev, p) {
      PartFits(d, items, p, n);
      PatchesApart(d, items, ps, p);
      PatchPainted(dev, ps, p);
    }
  }
}
