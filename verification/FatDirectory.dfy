/** Looking a file up in the root directory: Microsoft FAT32 File System Specification 1.03, section
    "FAT Directory Structure". */
module FatDirectory {
  import opened Options
  import opened LittleEndian
  import opened Fat

  const ENTRY: nat := 32
  const PER_SECTOR: nat := 16

  datatype Lookup = Found(cluster: nat, size: nat) | NotFound | Unreadable

  /** Entry i of the directory, its sectors taken as one table. */
  function Entry(v: Volume, i: nat): (e: Option<seq<byte>>)
    ensures e.Some? ==> |e.value| == ENTRY
  {
    if SECTOR * (v.rootLba + i / PER_SECTOR) + SECTOR <= |v.dev|
    then var at := SECTOR * v.rootLba + ENTRY * i; Some(v.dev[at..at + ENTRY])
    else None
  }

  /** An ordinary file: not deleted, no long-name part, no volume label, no directory. */
  predicate Ordinary(e: seq<byte>)
    requires |e| == ENTRY
  {
    e[0] != 0xE5 && e[11] != 0x0F && e[11] / 8 % 2 == 0 && e[11] / 16 % 2 == 0
  }

  predicate Terminator(e: seq<byte>)
    requires |e| == ENTRY
  {
    e[0] == 0
  }

  predicate Hit(e: seq<byte>, name: seq<byte>)
    requires |e| == ENTRY
  {
    !Terminator(e) && Ordinary(e) && e[..11] == name
  }

  function FileOf(e: seq<byte>): Lookup
    requires |e| == ENTRY
  {
    Found(U16(e, 26), U16(e, 28) + 0x1_0000 * U16(e, 30))
  }

  /** Whether an entry settles the search, and how. */
  function Verdict(e: seq<byte>, name: seq<byte>): Option<Lookup>
    requires |e| == ENTRY
  {
    if Terminator(e) then Some(NotFound) else if Hit(e, name) then Some(FileOf(e)) else None
  }

  /** The first n entries of the directory; an entry is missing when its sector cannot be read. */
  function Table(v: Volume, n: nat): (es: seq<Option<seq<byte>>>)
    ensures |es| == n
  {
    if n == 0 then [] else Table(v, n - 1) + [Entry(v, n - 1)]
  }

  /** The root directory, its sectors flattened. */
  function Directory(v: Volume): (es: seq<Option<seq<byte>>>)
    ensures |es| == PER_SECTOR * v.rootSectors
  {
    Table(v, PER_SECTOR * v.rootSectors)
  }

  predicate Sized(es: seq<Option<seq<byte>>>) {
    forall i :: 0 <= i < |es| && es[i].Some? ==> |es[i].value| == ENTRY
  }

  lemma {:induction false} TableAt(v: Volume, n: nat, i: nat)
    requires i < n
    ensures Table(v, n)[i] == Entry(v, i)
    decreases n
  {
    if i >= n - 1 {
    } else {
      TableAt(v, n - 1, i);
    }
  }

  lemma {:induction false} DirectorySized(v: Volume)
    ensures Sized(Directory(v))
  {
    forall i | 0 <= i < |Directory(v)| && Directory(v)[i].Some? ensures |Directory(v)[i].value| == ENTRY {
      TableAt(v, PER_SECTOR * v.rootSectors, i);
    }
  }

  /** The search from entry i on. */
  function Search(es: seq<Option<seq<byte>>>, name: seq<byte>, i: nat): Lookup
    requires Sized(es) && i <= |es|
    decreases |es| - i
  {
    if i == |es| then NotFound
    else if es[i].None? then Unreadable
    else var r := Verdict(es[i].value, name); if r.Some? then r.value else Search(es, name, i + 1)
  }

  /** The search goes past an entry. */
  predicate Passed(e: Option<seq<byte>>, name: seq<byte>) {
    e.Some? && |e.value| == ENTRY && !Terminator(e.value) && !Hit(e.value, name)
  }

  /** The answer at an entry where the search stops. */
  function Answer(e: Option<seq<byte>>, name: seq<byte>): Lookup
    requires e.Some? ==> |e.value| == ENTRY
  {
    if e.None? then Unreadable else if Hit(e.value, name) then FileOf(e.value) else NotFound
  }

  /** The answer is that of the first entry that is not passed: the first ordinary file of that name, the
      terminator, or an unreadable sector; and not found when all are passed. */
  lemma {:induction false} SearchStops(es: seq<Option<seq<byte>>>, name: seq<byte>, i: nat) returns (k: nat)
    requires Sized(es) && i <= |es|
    ensures i <= k <= |es| && forall j :: i <= j < k ==> Passed(es[j], name)
    ensures k == |es| ==> Search(es, name, i) == NotFound
    ensures k < |es| ==> !Passed(es[k], name) && Search(es, name, i) == Answer(es[k], name)
    decreases |es| - i
  {
    k := i;
    if i == |es| || !Passed(es[i], name) {
    } else {
      k := SearchStops(es, name, i + 1);
    }
  }

  /** A file is found exactly when an entry of its name comes before the terminator and before any sector
      that cannot be read, and the first such entry is the one that counts. */
  lemma {:induction false} FoundExactlyWhen(es: seq<Option<seq<byte>>>, name: seq<byte>)
    requires Sized(es)
    ensures Search(es, name, 0).Found? <==> exists k :: FirstHit(es, name, k)
    ensures forall k :: FirstHit(es, name, k) ==> Search(es, name, 0) == FileOf(es[k].value)
  {
    var stop := SearchStops(es, name, 0);
    if Search(es, name, 0).Found? {
      assert FirstHit(es, name, stop);
    }
    forall k | FirstHit(es, name, k) ensures k == stop {
    }
  }

  ghost predicate FirstHit(es: seq<Option<seq<byte>>>, name: seq<byte>, k: int)
    requires Sized(es)
  {
    0 <= k < |es| && es[k].Some? && Hit(es[k].value, name) && forall j :: 0 <= j < k ==> Passed(es[j], name)
  }

  /** One entry of a sector. */
  method Examine(v: Volume, name: seq<byte>, index: nat, i: nat, sector: seq<byte>) returns (r: Option<Lookup>)
    requires index < v.rootSectors && i < PER_SECTOR && Sector(v.dev, v.rootLba + index) == Some(sector)
    ensures var e := Entry(v, PER_SECTOR * index + i); e.Some? && r == Verdict(e.value, name)
  {
    var e := sector[ENTRY * i..ENTRY * i + ENTRY];
    EntryInSector(v, index, i, sector);
    r := Verdict(e, name);
  }

  /** The inner loop of `find_root_file`: one sector. */
  method SearchSector(v: Volume, name: seq<byte>, index: nat, sector: seq<byte>, ghost es: seq<Option<seq<byte>>>)
    returns (r: Option<Lookup>)
    requires index < v.rootSectors && Sector(v.dev, v.rootLba + index) == Some(sector) && es == Directory(v)
      && Sized(es)
    ensures Search(es, name, PER_SECTOR * index) == if r.Some? then r.value
      else Search(es, name, PER_SECTOR * (index + 1))
  {
    var i := 0;
    while i < PER_SECTOR
      invariant i <= PER_SECTOR && Search(es, name, PER_SECTOR * index + i) == Search(es, name, PER_SECTOR * index)
    {
      TableAt(v, PER_SECTOR * v.rootSectors, PER_SECTOR * index + i);
      r := Examine(v, name, index, i, sector);
      if r.Some? {
        return;
      }
      i := i + 1;
    }
    return None;
  }

  /** `find_root_file`, past the conversion of the path. */
  method FindRootFile(v: Volume, name: seq<byte>) returns (r: Lookup)
    ensures Sized(Directory(v)) && r == Search(Directory(v), name, 0)
  {
    ghost var es := Directory(v);
    DirectorySized(v);
    var index := 0;
    while index < v.rootSectors
      invariant index <= v.rootSectors && Search(es, name, PER_SECTOR * index) == Search(es, name, 0)
    {
      var sector := Sector(v.dev, v.rootLba + index);
      if sector.None? {
        TableAt(v, PER_SECTOR * v.rootSectors, PER_SECTOR * index);
        assert Entry(v, PER_SECTOR * index).None?;
        return Unreadable;
      }
      var found := SearchSector(v, name, index, sector.value, es);
      if found.Some? {
        return found.value;
      }
      index := index + 1;
    }
    return NotFound;
  }

  lemma {:induction false} EntryInSector(v: Volume, index: nat, i: nat, s: seq<byte>)
    requires i < PER_SECTOR && Sector(v.dev, v.rootLba + index) == Some(s)
    ensures Entry(v, PER_SECTOR * index + i) == Some(s[ENTRY * i..ENTRY * i + ENTRY])
  {
    assert (PER_SECTOR * index + i) / PER_SECTOR == index;
    var base, at := SECTOR * (v.rootLba + index), SECTOR * v.rootLba + ENTRY * (PER_SECTOR * index + i);
    assert at == base + ENTRY * i;
    SliceOfSlice(v.dev, base, SECTOR, ENTRY * i, ENTRY);
  }

  lemma SliceOfSlice(d: seq<byte>, a: nat, n: nat, b: nat, m: nat)
    requires a + n <= |d| && b + m <= n
    ensures d[a..a + n][b..b + m] == d[a + b..a + b + m]
  {
    var x, y := d[a..a + n][b..b + m], d[a + b..a + b + m];
    assert forall k :: 0 <= k < m ==> x[k] == d[a..a + n][b + k] == y[k];
  }

  // ---------------------------------------------------------------- a file that cannot be read to an end

  /** One sector that is boot sector, allocation table and directory in one: 512 bytes to a sector, no
      sectors to a cluster, sixteen directory entries, and a file "F" of one byte in cluster 100, which is
      linked to itself. */
  function SectorByteAt(i: nat): byte {
    if i == 0 then 0x46
    else if i <= 10 then 0x20
    else if i == 12 then 2
    else if i == 17 then 16
    else if i == 26 || i == 200 then 100
    else if i == 28 then 1
    else 0
  }

  ghost predicate Sizeless(d: seq<byte>) {
    |d| == SECTOR && forall i :: 0 <= i < SECTOR ==> d[i] == SectorByteAt(i)
  }

  lemma SizelessExists() returns (d: seq<byte>)
    ensures Sizeless(d)
  {
    d := seq(SECTOR, i requires 0 <= i < SECTOR => SectorByteAt(i));
  }

  lemma {:induction false} SizelessLoads(d: seq<byte>)
    requires Sizeless(d)
    ensures Load(d, 0) == Ok(Volume(d, 0, 0, 0, 1, 1))
  {
    WholeSector(d);
    assert U16(d, 11) == SECTOR && U16(d, 14) == 0 && U16(d, 17) == 16 && U16(d, 22) == 0 && d[13] == 0 && d[16] == 0;
  }

  lemma WholeSector(d: seq<byte>)
    requires |d| == SECTOR
    ensures Sector(d, 0) == Some(d)
  {
    assert d[0..SECTOR] == d;
  }

  lemma {:induction false} SizelessEntry(d: seq<byte>, e: seq<byte>)
    requires Sizeless(d) && e == d[0..ENTRY]
    ensures Verdict(e, d[..11]) == Some(Found(100, 1))
  {
    assert forall i :: 0 <= i < ENTRY ==> e[i] == SectorByteAt(i);
    assert e[..11] == d[..11];
  }

  lemma {:induction false} SizelessFinds(d: seq<byte>, v: Volume)
    requires Sizeless(d) && v == Volume(d, 0, 0, 0, 1, 1)
    ensures Sized(Directory(v)) && Search(Directory(v), d[..11], 0) == Found(100, 1)
  {
    DirectorySized(v);
    TableAt(v, PER_SECTOR, 0);
    SizelessEntry(d, d[0..ENTRY]);
  }

  lemma {:induction false} SizelessLinked(d: seq<byte>, v: Volume)
    requires Sizeless(d) && v == Volume(d, 0, 0, 0, 1, 1)
    ensures Link(v, 100) == Ok(Some(100))
  {
    WholeSector(d);
    assert U16(d, 200) == 100;
  }

  /** A volume whose clusters have no size is loaded, a file on it is found, and a read of its one byte
      goes on for ever. */
  lemma {:induction false} EndlessRead(d: seq<byte>, v: Volume, k: nat)
    requires Sizeless(d) && v == Volume(d, 0, 0, 0, 1, 1)
    ensures Load(d, 0) == Ok(v) && Sized(Directory(v)) && Search(Directory(v), d[..11], 0) == Found(100, 1)
    ensures Wanted(1, 0, 1) == 1 && !ReadTurns(v, 100, BeginRead(100, 0, 1), k).Finished?
  {
    SizelessLoads(d);
    SizelessFinds(d, v);
    SizelessLinked(d, v);
    SelfLinked(v, 100, k);
    SizelessGoesOn(v, 100, 100, 0, 0, 1, k);
  }
}
