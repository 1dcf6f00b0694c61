/** What is written on a FAT16 volume is read back from it. */
module FatRoundTrip {
  import opened Options
  import opened Alignment
  import opened LittleEndian
  import opened Fat
  import opened FatDirectory
  import opened FatWriter

  // ---------------------------------------------------------------- fields

  lemma TwoBytes(s: seq<byte>, at: nat)
    requires at + 2 <= |s|
    ensures Decode(s[at..at + 2]) == U16(s, at)
  {
    var a := s[at..at + 2];
    SingleByte(s, at + 1);
    assert a[1..] == s[at + 1..at + 2];
    assert Decode(a) == a[0] + 256 * Decode(a[1..]);
  }

  lemma FourBytes(s: seq<byte>, at: nat)
    requires at + 4 <= |s|
    ensures Decode(s[at..at + 4]) == U16(s, at) + 0x1_0000 * U16(s, at + 2)
  {
    TwoBytes(s, at + 2);
    var a := s[at..at + 4];
    assert a[1..][1..] == s[at + 2..at + 4];
    assert Decode(a) == a[0] + 256 * Decode(a[1..]);
    assert Decode(a[1..]) == a[1] + 256 * Decode(a[1..][1..]);
  }

  /** A field of a record that lies somewhere in s. */
  lemma {:induction false} FieldIn(s: seq<byte>, base: nat, fs: seq<Num>, k: nat, at: nat, width: nat)
    requires base + |Pack(fs)| <= |s| && s[base..base + |Pack(fs)|] == Pack(fs)
    requires k < |fs| && fs[k].width == width && fs[k].value < Pow256(width) && at == base + Offset(fs, k)
    ensures at + width <= |s| && Decode(s[at..at + width]) == fs[k].value
  {
    PackAt(fs, k, []);
    assert Pack(fs) + [] == Pack(fs);
    SliceOfSlice(s, base, |Pack(fs)|, Offset(fs, k), width);
  }

  /** A part, as a slice of the device. */
  lemma PartSlice(dev: seq<byte>, p: Patch)
    requires Has(dev, p)
    ensures dev[p.at..p.End()] == p.bytes
  {
    assert forall i :: 0 <= i < |p.bytes| ==> dev[p.at..p.End()][i] == dev[p.at + i];
  }

  lemma {:induction false} TimesIs(a: nat, b: nat)
    ensures Times(a, b) == a * b
  {
    if a == 0 {
    } else {
      TimesIs(a - 1, b);
    }
  }

  // ---------------------------------------------------------------- the boot sector

  /** The volume that was written. */
  function VolumeOf(dev: seq<byte>, d: Disk): Volume {
    var fatLba, rootSectors := d.start + d.reserved, (32 * d.rootEntries + 511) / 512;
    var rootLba := fatLba + d.fatSectors * d.fats;
    Volume(dev, d.spc, fatLba, rootLba, rootSectors, rootLba + rootSectors)
  }

  lemma {:induction false} BootReads(dev: seq<byte>, d: Disk, s: seq<byte>)
    requires ValidDisk(d) && Has(dev, BootPatch(d)) && Sector(dev, d.start) == Some(s)
    ensures U16(s, 11) == 512 && s[13] == d.spc && U16(s, 14) == d.reserved && s[16] == d.fats
    ensures U16(s, 17) == d.rootEntries && U16(s, 22) == d.fatSectors
  {
    var fs := BootFields(d);
    BootOffsets(fs, d);
    PartSlice(dev, BootPatch(d));
    SliceOfSlice(dev, 512 * d.start, 512, 11, 13);
    Powers();
    assert Pow256(1) == 256;
    FieldIn(s, 11, fs, 0, 11, 2);
    FieldIn(s, 11, fs, 1, 13, 1);
    FieldIn(s, 11, fs, 2, 14, 2);
    FieldIn(s, 11, fs, 3, 16, 1);
    FieldIn(s, 11, fs, 4, 17, 2);
    FieldIn(s, 11, fs, 7, 22, 2);
    TwoBytes(s, 11);
    SingleByte(s, 13);
    TwoBytes(s, 14);
    SingleByte(s, 16);
    TwoBytes(s, 17);
    TwoBytes(s, 22);
  }

  lemma BootSector(dev: seq<byte>, d: Disk)
    requires ValidDisk(d) && DataAt(d) <= |dev|
    ensures Sector(dev, d.start).Some?
  {
    MulMono(d.fatSectors, 0, d.fats);
  }

  /** A volume is mounted exactly when its boot sector can be read and says 512, that is 0x0200, bytes per sector. */
  lemma {:induction false} MountsExactlyWhen(dev: seq<byte>, start: nat)
    ensures var at := 512 * start; Load(dev, start).Ok? <==> at + 512 <= |dev| && dev[at + 11] == 0 && dev[at + 12] == 2
  {
    if Sector(dev, start).Some? {
      var s := Sector(dev, start).value;
      assert s[11] == dev[512 * start + 11] && s[12] == dev[512 * start + 12];
    }
  }

  /** What load makes of the fields of a boot sector. */
  lemma {:induction false} FieldsLoad(dev: seq<byte>, d: Disk, s: seq<byte>)
    requires Sector(dev, d.start) == Some(s) && U16(s, 11) == 512 && s[13] == d.spc && U16(s, 14) == d.reserved
    requires s[16] == d.fats && U16(s, 17) == d.rootEntries && U16(s, 22) == d.fatSectors
    ensures Load(dev, d.start) == Ok(VolumeOf(dev, d))
  {
    TimesIs(d.fats, d.fatSectors);
    assert RootSectors(d.rootEntries) == (32 * d.rootEntries + 511) / 512;
  }

  lemma {:induction false} BootLoads(dev: seq<byte>, d: Disk)
    requires ValidDisk(d) && Has(dev, BootPatch(d)) && Sector(dev, d.start).Some?
    ensures Load(dev, d.start) == Ok(VolumeOf(dev, d))
  {
    BootReads(dev, d, Sector(dev, d.start).value);
    FieldsLoad(dev, d, Sector(dev, d.start).value);
  }

  lemma {:induction false} LoadReads(dev: seq<byte>, d: Disk, items: seq<Item>)
    requires Written(dev, d, items)
    ensures Load(dev, d.start) == Ok(VolumeOf(dev, d))
  {
    assert Part(d, items, BootPatch(d));
    BootSector(dev, d);
    BootLoads(dev, d);
  }

  // ---------------------------------------------------------------- the chain

  lemma {:induction false} LinkByte(dev: seq<byte>, d: Disk, items: seq<Item>, k: nat, j: nat, at: nat, value: nat)
    requires Written(dev, d, items) && k < |items| && j < |items[k].Chain()|
    requires at == 512 * (d.start + d.reserved) + 2 * items[k].chain[j] && value == LinkValue(d, items[k].chain, j)
    ensures at + 2 <= |dev| && U16(dev, at) == value
  {
    var p := LinkPatch(d, items[k].chain, j, 0);
    assert IsLink(d, items, k, j, 0, p);
    assert Has(dev, p) && p.at == at && p.bytes == Encode(value, 2);
    PartSlice(dev, p);
    TwoBytes(dev, at);
    Powers();
    assert value < 0x1_0000 by {
      assert ValidItem(d, items[k]) && ValidChain(d, items[k].chain);
      assert j + 1 < |items[k].chain| ==> ValidCluster(d, items[k].chain[j + 1]);
    }
    DecodeEncode(value, 2);
  }

  /** The table sector of a cluster is on the device, and the entry where it is said to be. */
  lemma {:induction false} TableSector(dev: seq<byte>, d: Disk, c: nat, lba: nat)
    requires ValidDisk(d) && DataAt(d) <= |dev| && ValidCluster(d, c) && lba == d.start + d.reserved + c * 2 / 512
    ensures Sector(dev, lba).Some? && c * 2 % 512 + 2 <= 512
    ensures U16(Sector(dev, lba).value, c * 2 % 512) == U16(dev, 512 * (d.start + d.reserved) + 2 * c)
  {
    EntryFits(c);
    MulMono(d.fatSectors, 1, d.fats);
    assert c * 2 / 512 < d.fatSectors;
    assert 512 * lba + c * 2 % 512 == 512 * (d.start + d.reserved) + 2 * c;
  }

  lemma {:induction false} LinkReads(dev: seq<byte>, d: Disk, items: seq<Item>, v: Volume, k: nat, j: nat)
    requires Written(dev, d, items) && v == VolumeOf(dev, d) && k < |items| && j < |items[k].Chain()|
    ensures var chain := items[k].chain;
      Link(v, chain[j]) == Ok(if j + 1 < |chain| then Some(chain[j + 1]) else None)
  {
    var chain := items[k].chain;
    assert ValidItem(d, items[k]) && ValidChain(d, chain);
    assert ValidCluster(d, chain[j]) && (j + 1 < |chain| ==> ValidCluster(d, chain[j + 1]));
    TableSector(dev, d, chain[j], v.fatLba + chain[j] * 2 / 512);
    LinkByte(dev, d, items, k, j, 512 * (d.start + d.reserved) + 2 * chain[j], LinkValue(d, chain, j));
  }

  /** Position q * cluster size + i is at offset i of cluster q of the chain. */
  lemma {:induction false} LocateReads(dev: seq<byte>, d: Disk, items: seq<Item>, v: Volume, k: nat, j: nat, q: nat,
    i: nat, pos: nat)
    requires Written(dev, d, items) && v == VolumeOf(dev, d) && k < |items| && j + q < |items[k].Chain()|
    requires i < ClusterBytes(d) && pos == ClusterBytes(d) * q + i
    ensures Locate(v, items[k].chain[j], pos) == Ok(Some((items[k].chain[j + q], i)))
    decreases q
  {
    if q == 0 {
    } else {
      assert ClusterBytes(d) * q == ClusterBytes(d) * (q - 1) + ClusterBytes(d);
      MulMono(ClusterBytes(d), 0, q - 1);
      LinkReads(dev, d, items, v, k, j);
      LocateReads(dev, d, items, v, k, j + 1, q - 1, i, pos - ClusterBytes(d));
    }
  }

  /** Sectors of a cluster, in bytes. */
  lemma {:induction false} ClusterPlace(dev: seq<byte>, d: Disk, v: Volume, c: nat)
    requires v == VolumeOf(dev, d) && c >= 2
    ensures 512 * ClusterLba(v, c) == ClusterAt(d, c)
  {
    TimesIs(c - 2, d.spc);
  }

  lemma {:induction false} PlaceReads(dev: seq<byte>, d: Disk, v: Volume, c: nat, bytes: seq<byte>, i: nat)
    requires v == VolumeOf(dev, d) && ClusterFits(d, c, |dev|) && |bytes| == ClusterBytes(d) && i < |bytes|
    requires Has(dev, Patch(ClusterAt(d, c), bytes))
    ensures ClusterByte(v, c, i) == Ok(bytes[i])
  {
    ClusterPlace(dev, d, v, c);
    assert dev[ClusterAt(d, c) + i] == bytes[i];
    assert i / 512 < d.spc;
  }

  lemma {:induction false} ClusterReads(dev: seq<byte>, d: Disk, items: seq<Item>, v: Volume, k: nat, j: nat, i: nat,
    pos: nat)
    requires Written(dev, d, items) && v == VolumeOf(dev, d) && k < |items| && j < |items[k].Chain()|
    requires i < ClusterBytes(d) && pos == ClusterBytes(d) * j + i
    ensures ClusterByte(v, items[k].chain[j], i) == Ok(DataByte(items[k].data, pos))
  {
    var c, bytes := items[k].chain[j], ClusterPart(d, items[k].data, j);
    assert ClusterFits(d, items[k].Chain()[j], |dev|);
    assert IsCluster(d, items, k, j, Patch(ClusterAt(d, c), bytes));
    PlaceReads(dev, d, v, c, bytes, i);
  }

  lemma WhichCluster(size: nat, n: nat, pos: nat) returns (q: nat, i: nat)
    requires size > 0 && pos < size * n
    ensures pos == size * q + i && i < size && q < n
  {
    q, i := pos / size, pos % size;
    assert pos == size * q + i;
    if q >= n {
      MulMono(size, n, q);
      assert false;
    }
  }

  /** The clusters of a file are read in the order of its chain. */
  lemma {:induction false} ByteReads(dev: seq<byte>, d: Disk, items: seq<Item>, v: Volume, k: nat, pos: nat)
    requires Written(dev, d, items) && v == VolumeOf(dev, d) && k < |items| && items[k].File? && pos < |items[k].data|
    ensures items[k].chain != [] && ChainByte(v, items[k].chain[0], pos) == Ok(Some(items[k].data[pos]))
  {
    var chain := items[k].chain;
    assert ValidItem(d, items[k]) && ValidChain(d, chain);
    var q, i := WhichCluster(ClusterBytes(d), |chain|, pos);
    assert ValidCluster(d, chain[0]);
    LocateReads(dev, d, items, v, k, 0, q, i, pos);
    ClusterReads(dev, d, items, v, k, q, i, pos);
  }

  // ---------------------------------------------------------------- the directory

  lemma {:induction false} EntryReads(dev: seq<byte>, d: Disk, items: seq<Item>, v: Volume, k: nat)
    requires Written(dev, d, items) && v == VolumeOf(dev, d) && k < |items|
    ensures k < PER_SECTOR * v.rootSectors && Entry(v, k) == Some(EntryBytes(items[k]))
  {
    var p := EntryPatch(d, items[k], k);
    assert IsEntry(d, items, k, p);
    EntrySize(d, items[k]);
    PartSlice(dev, p);
    assert k / 16 < v.rootSectors;
  }

  lemma {:induction false} FileEntry(it: Item, d: Disk, e: seq<byte>)
    requires ValidItem(d, it) && it.File? && e == EntryBytes(it) && |e| == 32
    ensures e[..11] == it.name && e[11] == it.attributes
    ensures FileOf(e) == Found(if it.chain == [] then 0 else it.chain[0], |it.data|)
  {
    var fs := EntryFields(it.attributes, it.chain, |it.data|);
    EntryOffsets(fs, it.attributes, it.chain, |it.data|);
    Powers();
    assert Pow256(1) == 256;
    assert e[11..11 + 21] == Pack(fs);
    FieldIn(e, 11, fs, 0, 11, 1);
    assert it.chain != [] ==> ValidCluster(d, it.chain[0]);
    FieldIn(e, 11, fs, 2, 26, 2);
    FieldIn(e, 11, fs, 3, 28, 4);
    SingleByte(e, 11);
    TwoBytes(e, 26);
    FourBytes(e, 28);
  }

  lemma LowBits(a: nat)
    ensures a % 32 < 8 <==> a / 8 % 2 == 0 && a / 16 % 2 == 0
  {
    var x, y, z := a / 16 % 2, a / 8 % 2, a % 8;
    assert a / 16 == 2 * (a / 32) + x && a / 8 == 2 * (a / 16) + y;
    ModUnique(a, 32, a / 32, 16 * x + 8 * y + z);
  }

  /** A file's entry is a hit for its name alone; other entries are passed by. */
  lemma {:induction false} HitExactly(it: Item, d: Disk, e: seq<byte>, name: seq<byte>)
    requires ValidItem(d, it) && e == EntryBytes(it) && |e| == 32
    ensures !Terminator(e) && (Hit(e, name) <==> it.File? && it.name == name)
  {
    LowBits(e[11]);
    if it.File? {
      FileEntry(it, d, e);
      assert e[0] == it.name[0];
    }
  }

  /** The search finds each file that was written. */
  lemma {:induction false} SearchReads(dev: seq<byte>, d: Disk, items: seq<Item>, v: Volume, k: nat)
    requires Written(dev, d, items) && v == VolumeOf(dev, d) && k < |items| && items[k].File?
    ensures Sized(Directory(v)) && Search(Directory(v), items[k].name, 0)
      == Found(if items[k].chain == [] then 0 else items[k].chain[0], |items[k].data|)
  {
    var es, name := Directory(v), items[k].name;
    DirectorySized(v);
    forall l | 0 <= l <= k
      ensures l < |es| && es[l] == Some(EntryBytes(items[l])) && |EntryBytes(items[l])| == 32
      ensures !Terminator(es[l].value) && (Hit(es[l].value, name) <==> l == k)
    {
      EntryReads(dev, d, items, v, l);
      TableAt(v, PER_SECTOR * v.rootSectors, l);
      EntrySize(d, items[l]);
      HitExactly(items[l], d, EntryBytes(items[l]), name);
    }
    assert FirstHit(es, name, k);
    FoundExactlyWhen(es, name);
    EntrySize(d, items[k]);
    FileEntry(items[k], d, EntryBytes(items[k]));
  }

  /** A name that no file has is not found, if the entry behind the items is the terminator or there is none,
      whatever follows it. */
  lemma {:induction false} AbsentReads(dev: seq<byte>, d: Disk, items: seq<Item>, v: Volume, name: seq<byte>)
    requires Written(dev, d, items) && v == VolumeOf(dev, d)
    requires forall k :: 0 <= k < |items| && items[k].File? ==> items[k].name != name
    requires RootAt(d) + 32 * |items| == DataAt(d) || dev[RootAt(d) + 32 * |items|] == 0
    ensures Sized(Directory(v)) && Search(Directory(v), name, 0) == NotFound
  {
    var es, n := Directory(v), |items|;
    DirectorySized(v);
    forall l | 0 <= l < n ensures l < |es| && Passed(es[l], name) {
      EntryReads(dev, d, items, v, l);
      TableAt(v, PER_SECTOR * v.rootSectors, l);
      EntrySize(d, items[l]);
      HitExactly(items[l], d, EntryBytes(items[l]), name);
    }
    if n < |es| {
      TableAt(v, PER_SECTOR * v.rootSectors, n);
      assert n / 16 < v.rootSectors;
      assert es[n].Some? && Terminator(es[n].value);
    }
    var stop := SearchStops(es, name, 0);
  }

  // ---------------------------------------------------------------- the round trip

  /** A read has returned the bytes of the file from offset on, as many as there is room for. */
  ghost predicate ReadsBack(data: seq<byte>, offset: nat, buf: seq<byte>, r: Status, n: nat) {
    && r == Done
    && n == (if offset >= |data| then 0 else if |buf| < |data| - offset then |buf| else |data| - offset) <= |buf|
    && forall i :: 0 <= i < n ==> buf[i] == data[offset + i]
  }

  lemma {:induction false} ReadResultReads(dev: seq<byte>, d: Disk, items: seq<Item>, v: Volume, k: nat, start: nat,
    offset: nat, links: nat, buf: seq<byte>, r: Status, n: nat, bad: nat)
    requires Written(dev, d, items) && v == VolumeOf(dev, d) && k < |items| && items[k].File?
    requires start == if items[k].chain == [] then 0 else items[k].chain[0]
    requires ReadResult(v, start, offset, Wanted(|items[k].data|, offset, |buf|), links, buf, r, n, bad)
    ensures ReadsBack(items[k].data, offset, buf, r, n)
  {
    var data := items[k].data;
    var wanted := Wanted(|data|, offset, |buf|);
    forall pos | offset <= pos < offset + wanted ensures ChainByte(v, start, pos) == Ok(Some(data[pos])) {
      ByteReads(dev, d, items, v, k, pos);
    }
    forall i | 0 <= i < n && r == Done ensures buf[i] == data[offset + i] {
      assert ChainByte(v, start, offset + i) == Ok(Some(buf[i]));
    }
  }

  /** Mounting the volume, looking a file up and reading any part of it gives the file's bytes. */
  method ReadFile(dev: seq<byte>, start: nat, name: seq<byte>, offset: nat, buf: array<byte>, ghost d: Disk,
    ghost items: seq<Item>, ghost k: nat) returns (r: Status, n: nat)
    requires Written(dev, d, items) && start == d.start && k < |items| && items[k].File? && items[k].name == name
    modifies buf
    ensures ReadsBack(items[k].data, offset, buf[..], r, n)
    ensures forall i :: n <= i < buf.Length ==> buf[i] == old(buf[i])
  {
    LoadReads(dev, d, items);
    var v := Load(dev, start).value;
    SearchReads(dev, d, items, v, k);
    var found := FindRootFile(v, name);
    ghost var bad;
    r, n, bad := ReadAt(v, found.cluster, found.size, offset, buf, 0);
    ReadResultReads(dev, d, items, v, k, found.cluster, offset, 0, buf[..], r, n, bad);
  }

  /** The chain on the volume is the chain that was written, and ends where it ends. */
  lemma {:induction false} ChainReads(dev: seq<byte>, d: Disk, items: seq<Item>, v: Volume, k: nat, j: nat)
    requires Written(dev, d, items) && v == VolumeOf(dev, d) && k < |items| && j < |items[k].Chain()|
    ensures var n := |items[k].chain| - j; Whole(v, items[k].chain[j], n) && Ends(v, items[k].chain[j], n)
    decreases |items[k].Chain()| - j
  {
    LinkReads(dev, d, items, v, k, j);
    ClusterPlace(dev, d, v, items[k].chain[j]);
    assert ClusterFits(d, items[k].Chain()[j], |dev|);
    if j + 1 == |items[k].chain| {
    } else {
      ChainReads(dev, d, items, v, k, j + 1);
    }
  }
}
