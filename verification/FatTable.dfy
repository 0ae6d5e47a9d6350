/** The file allocation tables of kernel/src/fs/fat.c on a disk of sectors: entries of 12, 16 or
    28 bits at byte offsets, in several copies (section "FAT Data Structure" of the Microsoft FAT32
    File System Specification, version 1.03). */
module FatTable {

  const SECTOR: nat := 512
  const TWO32: nat := 0x1_0000_0000

  type Byte = b: int | 0 <= b < 256 witness 0
  type Sector = s: seq<Byte> | |s| == SECTOR witness seq(SECTOR, _ => 0)
  type Disk = seq<Sector>

  datatype FatType = Fat12 | Fat16 | Fat32

  /** The geometry a mounted file system keeps: sector numbers are relative to the partition. */
  datatype Geometry = Geometry(ftype: FatType, sectorsPerCluster: nat, fatCount: nat, sectorsPerFat: nat,
                               firstFatSector: nat, firstDataSector: nat, clusterCount: nat) {

    function CopyBase(k: nat): nat { firstFatSector + k * sectorsPerFat }

    function EocValue(): nat {
      match ftype case Fat12 => 0xFFF case Fat16 => 0xFFFF case Fat32 => 0xFFF_FFFF
    }

    predicate IsEoc(v: nat) {
      match ftype case Fat12 => v >= 0xFF8 case Fat16 => v >= 0xFFF8 case Fat32 => v >= 0xFFF_FFF8
    }

    /** `fat_fat_entry_count`, in 32-bit arithmetic. */
    function EntryCount(): nat {
      var fatBytes := sectorsPerFat * SECTOR % TWO32;
      match ftype
      case Fat12 => fatBytes * 2 % TWO32 / 3
      case Fat16 => fatBytes / 2
      case Fat32 => fatBytes / 4
    }

    function MaxValidCluster(): nat {
      var byData := (clusterCount + 1) % TWO32;
      var entries := EntryCount();
      if entries <= 2 then 1 else if byData < entries - 1 then byData else entries - 1
    }

    function ClusterSector(c: nat): int { firstDataSector + (c - 2) * sectorsPerCluster }

    /** The tables, then the data area with room for every cluster. */
    ghost predicate Valid(sectors: nat) {
      && 0 < sectorsPerCluster < 256 && fatCount > 0 && sectorsPerFat > 0
      && CopyBase(fatCount) <= firstDataSector
      && firstDataSector + clusterCount * sectorsPerCluster <= sectors
      && clusterCount + 2 <= EntryCount()
      && clusterCount + 1 < EocValue() - 7
    }

    /** The bytes of a cluster's entry lie inside its table. */
    predicate InTable(c: nat) {
      Offset(ftype, c) + Width(ftype) <= sectorsPerFat * SECTOR
    }
  }

  // ----- Bytes of a table

  /** Byte `o` of the table that starts at sector `base`. */
  function ByteAt(d: Disk, base: nat, o: nat): Byte {
    if base + o / SECTOR < |d| then d[base + o / SECTOR][o % SECTOR] else 0
  }

  function PutByte(d: Disk, base: nat, o: nat, v: Byte): (d': Disk)
    requires base + o / SECTOR < |d|
    ensures |d'| == |d|
  {
    d[base + o / SECTOR := d[base + o / SECTOR][o % SECTOR := v]]
  }

  lemma PutByteReads(d: Disk, base: nat, o: nat, v: Byte, o': nat)
    requires base + o / SECTOR < |d|
    ensures ByteAt(PutByte(d, base, o, v), base, o') == if o' == o then v else ByteAt(d, base, o')
  {
  }

  // ----- Entries

  /** Where the entry of a cluster starts in a table, and how many bytes it shares or owns. */
  function Offset(t: FatType, c: nat): nat {
    match t case Fat12 => c + c / 2 case Fat16 => c * 2 case Fat32 => c * 4
  }

  function Width(t: FatType): nat {
    if t == Fat32 then 4 else 2
  }

  /** `rd16` */
  function Rd16(b0: Byte, b1: Byte): (w: nat)
    ensures w < 65536
  {
    (b0 as int) + 256 * (b1 as int)
  }

  function Word16(d: Disk, base: nat, o: nat): (w: nat)
    ensures w < 65536
  {
    Rd16(ByteAt(d, base, o), ByteAt(d, base, o + 1))
  }

  function Word32(d: Disk, base: nat, o: nat): (w: nat)
    ensures w < TWO32
  {
    Word16(d, base, o) + 65536 * Word16(d, base, o + 2)
  }

  /** The upper or lower twelve bits of two bytes. */
  function Take12(w: nat, odd: bool): nat {
    if odd then w / 16 else w % 0x1000
  }

  /** The value at an offset: the upper or lower twelve bits of two bytes, two bytes, or the lower
      28 bits of four. */
  function ValueAt(d: Disk, t: FatType, base: nat, o: nat, odd: bool): nat {
    match t
    case Fat12 => Take12(Word16(d, base, o), odd)
    case Fat16 => Word16(d, base, o)
    case Fat32 => Word32(d, base, o) % 0x1000_0000
  }

  function Entry(d: Disk, t: FatType, base: nat, c: nat): nat {
    ValueAt(d, t, base, Offset(t, c), c % 2 == 1)
  }

  /** The driver computes the offset in 32 bits and does not ask whether it lies in the table. */
  function Offset32(t: FatType, c: nat): nat {
    Offset(t, c) % TWO32
  }

  function Seen(d: Disk, t: FatType, base: nat, c: nat): nat {
    ValueAt(d, t, base, Offset32(t, c), c % 2 == 1)
  }

  /** The sectors that hold the entry of `c` in a table at `base` exist. */
  predicate OnDisk(sectors: nat, t: FatType, base: nat, c: nat) {
    base + (Offset32(t, c) + Width(t) - 1) / SECTOR < sectors
  }

  function Mask(t: FatType, v: nat): nat {
    match t case Fat12 => v % 0x1000 case Fat16 => v % 0x1_0000 case Fat32 => v % 0x1000_0000
  }

  function Put16(d: Disk, base: nat, o: nat, v: nat): (d': Disk)
    requires base + (o + 1) / SECTOR < |d| && v < 65536
    ensures |d'| == |d|
  {
    PutByte(PutByte(d, base, o, v % 256), base, o + 1, v / 256)
  }

  lemma Put16Reads(d: Disk, base: nat, o: nat, v: nat, o': nat)
    requires base + (o + 1) / SECTOR < |d| && v < 65536
    ensures ByteAt(Put16(d, base, o, v), base, o')
         == if o' == o then v % 256 else if o' == o + 1 then v / 256 else ByteAt(d, base, o')
  {
    var d1 := PutByte(d, base, o, v % 256);
    PutByteReads(d, base, o, v % 256, o');
    PutByteReads(d1, base, o + 1, v / 256, o');
  }

  /** Two bytes that hold a 12-bit entry, with the entry replaced and the neighbour's bits kept. */
  function Mix12(was: nat, odd: bool, v: nat): (nv: nat)
    requires was < 65536
    ensures nv < 65536
    ensures Take12(nv, odd) == v % 0x1000
  {
    if odd then was % 16 + v % 0x1000 * 16 else was / 0x1000 * 0x1000 + v % 0x1000
  }

  /** Four bytes with the lower 28 bits replaced. */
  function Mix32(was: nat, v: nat): (nv: nat)
    requires was < TWO32
    ensures nv < TWO32 && nv % 0x1000_0000 == v % 0x1000_0000
  {
    was / 0x1000_0000 * 0x1000_0000 + v % 0x1000_0000
  }

  function Put32(d: Disk, base: nat, o: nat, v: nat): (d': Disk)
    requires base + (o + 3) / SECTOR < |d| && v < TWO32
    ensures |d'| == |d|
  {
    Put16(Put16(d, base, o, v % 65536), base, o + 2, v / 65536)
  }

  /** The disk after the value at an offset is overwritten; neighbours share bytes and keep their bits. */
  function PutAt(d: Disk, t: FatType, base: nat, o: nat, odd: bool, v: nat): (d': Disk)
    requires base + (o + Width(t) - 1) / SECTOR < |d|
    ensures |d'| == |d|
  {
    match t
    case Fat12 => Put16(d, base, o, Mix12(Word16(d, base, o), odd, v))
    case Fat16 => Put16(d, base, o, v % 0x1_0000)
    case Fat32 => Put32(d, base, o, Mix32(Word32(d, base, o), v))
  }

  function PutEntry(d: Disk, t: FatType, base: nat, c: nat, v: nat): (d': Disk)
    requires base + (Offset(t, c) + Width(t) - 1) / SECTOR < |d|
    ensures |d'| == |d|
  {
    PutAt(d, t, base, Offset(t, c), c % 2 == 1, v)
  }

  function PutSeen(d: Disk, t: FatType, base: nat, c: nat, v: nat): (d': Disk)
    requires OnDisk(|d|, t, base, c)
    ensures |d'| == |d|
  {
    PutAt(d, t, base, Offset32(t, c), c % 2 == 1, v)
  }

  /** Writing an entry and reading one: the value where they are the same, the old one elsewhere. */
  lemma PutEntryReads(d: Disk, t: FatType, base: nat, c: nat, v: nat, e: nat)
    requires base + (Offset(t, c) + Width(t) - 1) / SECTOR < |d|
    ensures Entry(PutEntry(d, t, base, c, v), t, base, e) == if e == c then Mask(t, v) else Entry(d, t, base, e)
  {
    match t
    case Fat12 => Put12Reads(d, base, c, v, e);
    case Fat16 => Put16Both(d, base, c * 2, v % 0x1_0000, e * 2);
    case Fat32 => Put32Reads(d, base, c, v, e);
  }

  /** The two entries of a twelve-bit pair share their middle byte. */
  lemma Put12Reads(d: Disk, base: nat, c: nat, v: nat, e: nat)
    requires base + (Offset(Fat12, c) + 1) / SECTOR < |d|
    ensures Entry(PutEntry(d, Fat12, base, c, v), Fat12, base, e) == if e == c then v % 0x1000 else Entry(d, Fat12, base, e)
  {
    hide ByteAt, PutByte, Put16, Mix12, Take12;
    var o, o' := c + c / 2, e + e / 2;
    var was := Word16(d, base, o);
    var nv := Mix12(was, c % 2 == 1, v);
    Put16Reads(d, base, o, nv, o');
    Put16Reads(d, base, o, nv, o' + 1);
    Apart12(c, e);
    Apart12(e, c);
    if o' == o + 1 {
      SharedHigh(ByteAt(d, base, o), ByteAt(d, base, o + 1), v, ByteAt(d, base, o + 2));
    } else if o == o' + 1 {
      SharedLow(ByteAt(d, base, o), ByteAt(d, base, o + 1), v, ByteAt(d, base, o'));
    }
  }

  /** Entries of different clusters overlap only within an even-odd pair. */
  lemma Apart12(c: nat, e: nat)
    ensures c + c / 2 == e + e / 2 <==> c == e
    ensures c + c / 2 + 1 == e + e / 2 ==> c % 2 == 0 && e == c + 1
  {
  }

  lemma SharedHigh(b0: Byte, b1: Byte, v: nat, b2: Byte)
    ensures var nv := Mix12(b0 + 256 * b1, false, v);
            Take12(nv / 256 + 256 * b2, true) == Take12(b1 + 256 * b2, true)
  {
  }

  lemma SharedLow(b1: Byte, b2: Byte, v: nat, b0: Byte)
    ensures var nv := Mix12(b1 + 256 * b2, true, v);
            Take12(b0 + 256 * (nv % 256), false) == Take12(b0 + 256 * b1, false)
  {
  }

  lemma Put32Reads(d: Disk, base: nat, c: nat, v: nat, e: nat)
    requires base + (Offset(Fat32, c) + 3) / SECTOR < |d|
    ensures Entry(PutEntry(d, Fat32, base, c, v), Fat32, base, e) == if e == c then v % 0x1000_0000 else Entry(d, Fat32, base, e)
  {
    hide ByteAt, PutByte, Put16, Word16, Mix32;
    Put32Both(d, base, c * 4, Mix32(Word32(d, base, c * 4), v), e * 4);
  }

  lemma Put32Both(d: Disk, base: nat, o: nat, v: nat, o': nat)
    requires base + (o + 3) / SECTOR < |d| && v < TWO32
    ensures o' == o ==> Word32(Put32(d, base, o, v), base, o') == v
    ensures o' + 4 <= o || o + 4 <= o' ==> Word32(Put32(d, base, o, v), base, o') == Word32(d, base, o')
  {
    hide Put16, Word16;
    var d1 := Put16(d, base, o, v % 65536);
    Put16Both(d, base, o, v % 65536, o');
    Put16Both(d, base, o, v % 65536, o' + 2);
    Put16Both(d1, base, o + 2, v / 65536, o');
    Put16Both(d1, base, o + 2, v / 65536, o' + 2);
  }

  /** Reading 16 bits where 16 bits were put, or clear of them. */
  lemma Put16Both(d: Disk, base: nat, o: nat, v: nat, o': nat)
    requires base + (o + 1) / SECTOR < |d| && v < 65536
    ensures o' == o ==> Word16(Put16(d, base, o, v), base, o') == v
    ensures o' + 2 <= o || o + 2 <= o' ==> Word16(Put16(d, base, o, v), base, o') == Word16(d, base, o')
  {
    hide Put16;
    Put16Reads(d, base, o, v, o');
    Put16Reads(d, base, o, v, o' + 1);
  }

  // ----- The copies of the table

  /** Every cluster the driver may touch has its entry inside the table. */
  lemma ValidClusterInTable(g: Geometry, c: nat)
    requires 2 <= c <= g.MaxValidCluster()
    ensures g.InTable(c) && Offset32(g.ftype, c) == Offset(g.ftype, c)
  {
    var bytes := g.sectorsPerFat * SECTOR;
    var wrapped := bytes % TWO32;
    assert wrapped <= bytes;
    var entries := g.EntryCount();
    assert c <= entries - 1;
    if g.ftype == Fat12 {
      var twice := wrapped * 2 % TWO32;
      assert twice <= wrapped * 2;
      assert entries == twice / 3;
    }
  }

  lemma MaxIsCount(g: Geometry, sectors: nat)
    requires g.Valid(sectors)
    ensures g.MaxValidCluster() == g.clusterCount + 1
  {
  }

  /** An entry's bytes lie in the sectors of its table. */
  lemma PutEntrySectors(d: Disk, g: Geometry, base: nat, c: nat, v: nat, s: nat)
    requires base + g.sectorsPerFat <= |d| && g.InTable(c) && s < |d| && !(base <= s < base + g.sectorsPerFat)
    ensures base + (Offset(g.ftype, c) + Width(g.ftype) - 1) / SECTOR < |d|
    ensures PutEntry(d, g.ftype, base, c, v)[s] == d[s]
  {
    assert (Offset(g.ftype, c) + Width(g.ftype) - 1) / SECTOR < g.sectorsPerFat;
  }

  /** Writing an entry into the first `n` copies. */
  ghost function PutCopies(d: Disk, g: Geometry, c: nat, v: nat, n: nat): (d': Disk)
    requires n <= g.fatCount && g.Valid(|d|) && g.InTable(c)
    ensures |d'| == |d|
  {
    if n == 0 then d else
    CopyInside(g, |d|, n - 1);
    PutEntry(PutCopies(d, g, c, v, n - 1), g.ftype, g.CopyBase(n - 1), c, v)
  }

  lemma CopyInside(g: Geometry, sectors: nat, k: nat)
    requires g.Valid(sectors) && k < g.fatCount
    ensures g.firstFatSector <= g.CopyBase(k)
    ensures g.CopyBase(k) + g.sectorsPerFat == g.CopyBase(k + 1) <= g.CopyBase(g.fatCount) <= g.firstDataSector <= sectors
    ensures forall c: nat :: g.InTable(c) ==> g.CopyBase(k) + (Offset(g.ftype, c) + Width(g.ftype) - 1) / SECTOR < sectors
  {
    TablesBeforeData(g, sectors, k);
    forall c: nat | g.InTable(c)
      ensures (Offset(g.ftype, c) + Width(g.ftype) - 1) / SECTOR < g.sectorsPerFat
    {
    }
  }

  lemma TablesBeforeData(g: Geometry, sectors: nat, k: nat)
    requires g.Valid(sectors) && k < g.fatCount
    ensures g.firstFatSector <= g.CopyBase(k)
    ensures g.CopyBase(k) + g.sectorsPerFat == g.CopyBase(k + 1) <= g.CopyBase(g.fatCount) <= g.firstDataSector <= sectors
  {
    hide Geometry.EntryCount;
    assert (k + 1) * g.sectorsPerFat <= g.fatCount * g.sectorsPerFat;
    assert g.clusterCount * g.sectorsPerCluster >= 0;
  }

  lemma CopiesApart(g: Geometry, j: nat, k: nat)
    requires j < k
    ensures g.CopyBase(j) + g.sectorsPerFat <= g.CopyBase(k)
  {
    assert (j + 1) * g.sectorsPerFat <= k * g.sectorsPerFat;
  }

  /** Sectors outside the tables are untouched, and so are the copies not yet reached. */
  lemma {:induction false} PutCopiesSectors(d: Disk, g: Geometry, c: nat, v: nat, n: nat, s: nat)
    requires n <= g.fatCount && g.Valid(|d|) && g.InTable(c) && s < |d|
    requires s < g.firstFatSector || g.CopyBase(n) <= s
    ensures PutCopies(d, g, c, v, n)[s] == d[s]
  {
    if n > 0 {
      CopyInside(g, |d|, n - 1);
      PutCopiesSectors(d, g, c, v, n - 1, s);
      PutEntrySectors(PutCopies(d, g, c, v, n - 1), g, g.CopyBase(n - 1), c, v, s);
    }
  }

  lemma SameSectorsSameEntry(d: Disk, d': Disk, g: Geometry, base: nat, e: nat)
    requires |d'| == |d| && g.InTable(e) && base + g.sectorsPerFat <= |d|
    requires forall s :: base <= s < base + g.sectorsPerFat ==> d'[s] == d[s]
    ensures Entry(d', g.ftype, base, e) == Entry(d, g.ftype, base, e)
  {
    assert (Offset(g.ftype, e) + Width(g.ftype) - 1) / SECTOR < g.sectorsPerFat;
  }

  /** In every copy written the entry has the value and the others are as before. */
  lemma {:induction false} PutCopiesReads(d: Disk, g: Geometry, c: nat, v: nat, n: nat, k: nat, e: nat)
    requires k < n <= g.fatCount && g.Valid(|d|) && g.InTable(c) && g.InTable(e)
    ensures Entry(PutCopies(d, g, c, v, n), g.ftype, g.CopyBase(k), e)
         == if e == c then Mask(g.ftype, v) else Entry(d, g.ftype, g.CopyBase(k), e)
  {
    hide Entry, PutEntry, Offset, Mask;
    var before := PutCopies(d, g, c, v, n - 1);
    var after := PutCopies(d, g, c, v, n);
    var base := g.CopyBase(k);
    CopyInside(g, |d|, n - 1);
    CopyInside(g, |d|, k);
    if k == n - 1 {
      forall s: nat | base <= s < base + g.sectorsPerFat
        ensures before[s] == d[s]
      {
        PutCopiesSectors(d, g, c, v, n - 1, s);
      }
      SameSectorsSameEntry(d, before, g, base, e);
      PutEntryReads(before, g.ftype, base, c, v, e);
    } else {
      PutCopiesReads(d, g, c, v, n - 1, k, e);
      CopiesApart(g, k, n - 1);
      forall s: nat | base <= s < base + g.sectorsPerFat
        ensures after[s] == before[s]
      {
        PutEntrySectors(before, g, g.CopyBase(n - 1), c, v, s);
      }
      SameSectorsSameEntry(before, after, g, base, e);
    }
  }

  // ----- Equal copies

  /** The sectors of copy `k`. */
  function CopyOf(d: Disk, g: Geometry, k: nat): Disk
    requires g.CopyBase(k) + g.sectorsPerFat <= |d|
  {
    d[g.CopyBase(k)..g.CopyBase(k) + g.sectorsPerFat]
  }

  ghost predicate CopiesEqual(d: Disk, g: Geometry) {
    forall k: nat :: k < g.fatCount && g.CopyBase(k) + g.sectorsPerFat <= |d| && g.CopyBase(0) + g.sectorsPerFat <= |d| ==>
      CopyOf(d, g, k) == CopyOf(d, g, 0)
  }

  lemma PutByteLocal(d: Disk, base: nat, n: nat, o: nat, v: Byte)
    requires base + n <= |d| && o / SECTOR < n
    ensures PutByte(d, base, o, v)[base..base + n] == PutByte(d[base..base + n], 0, o, v)
    ensures ByteAt(d, base, o) == ByteAt(d[base..base + n], 0, o)
  {
  }

  lemma Put16Local(d: Disk, base: nat, n: nat, o: nat, v: nat)
    requires base + n <= |d| && (o + 1) / SECTOR < n && v < 65536
    ensures Put16(d, base, o, v)[base..base + n] == Put16(d[base..base + n], 0, o, v)
    ensures Word16(d, base, o) == Word16(d[base..base + n], 0, o)
  {
    PutByteLocal(d, base, n, o, v % 256);
    PutByteLocal(PutByte(d, base, o, v % 256), base, n, o + 1, v / 256);
    PutByteLocal(d, base, n, o + 1, v / 256);
  }

  /** Writing an entry works inside its table: the table's sectors alone decide the outcome. */
  lemma PutEntryLocal(d: Disk, g: Geometry, base: nat, c: nat, v: nat)
    requires base + g.sectorsPerFat <= |d| && g.InTable(c)
    ensures (Offset(g.ftype, c) + Width(g.ftype) - 1) / SECTOR < g.sectorsPerFat
    ensures PutEntry(d, g.ftype, base, c, v)[base..base + g.sectorsPerFat]
         == PutEntry(d[base..base + g.sectorsPerFat], g.ftype, 0, c, v)
  {
    hide ByteAt, PutByte, Put16, Put32, Word16, Word32, Mix12, Mix32, Offset;
    var n, o := g.sectorsPerFat, Offset(g.ftype, c);
    LastByteInside(o, Width(g.ftype), n);
    match g.ftype
    case Fat12 => Put16Local(d, base, n, o, Mix12(Word16(d, base, o), c % 2 == 1, v));
    case Fat16 => Put16Local(d, base, n, o, v % 0x1_0000);
    case Fat32 => Put32Local(d, base, n, o, Mix32(Word32(d, base, o), v));
  }

  lemma LastByteInside(o: nat, w: nat, n: nat)
    requires o + w <= n * SECTOR && w > 0
    ensures (o + w - 1) / SECTOR < n
  {
  }

  lemma Put32Local(d: Disk, base: nat, n: nat, o: nat, v: nat)
    requires base + n <= |d| && (o + 3) / SECTOR < n && v < TWO32
    ensures Put32(d, base, o, v)[base..base + n] == Put32(d[base..base + n], 0, o, v)
    ensures Word32(d, base, o) == Word32(d[base..base + n], 0, o)
  {
    hide ByteAt, PutByte, Put16, Word16;
    Put16Local(d, base, n, o, v % 65536);
    Put16Local(d, base, n, o + 2, 0);
    Put16Local(Put16(d, base, o, v % 65536), base, n, o + 2, v / 65536);
  }

  /** Each copy written changes as it would alone. */
  lemma {:induction false} PutCopiesCopy(d: Disk, g: Geometry, c: nat, v: nat, n: nat, k: nat)
    requires k < n <= g.fatCount && g.Valid(|d|) && g.InTable(c)
    ensures g.CopyBase(k) + g.sectorsPerFat <= |d|
    ensures (Offset(g.ftype, c) + Width(g.ftype) - 1) / SECTOR < g.sectorsPerFat
    ensures CopyOf(PutCopies(d, g, c, v, n), g, k) == PutEntry(CopyOf(d, g, k), g.ftype, 0, c, v)
  {
    hide PutEntry, Offset;
    var before, after := PutCopies(d, g, c, v, n - 1), PutCopies(d, g, c, v, n);
    CopyInside(g, |d|, n - 1);
    CopyInside(g, |d|, k);
    if k == n - 1 {
      forall s: nat | g.CopyBase(k) <= s < g.CopyBase(k) + g.sectorsPerFat
        ensures before[s] == d[s]
      {
        PutCopiesSectors(d, g, c, v, n - 1, s);
      }
      assert CopyOf(before, g, k) == CopyOf(d, g, k);
      PutEntryLocal(before, g, g.CopyBase(k), c, v);
    } else {
      PutCopiesCopy(d, g, c, v, n - 1, k);
      CopiesApart(g, k, n - 1);
      forall s: nat | g.CopyBase(k) <= s < g.CopyBase(k) + g.sectorsPerFat
        ensures after[s] == before[s]
      {
        PutEntrySectors(before, g, g.CopyBase(n - 1), c, v, s);
      }
      assert CopyOf(after, g, k) == CopyOf(before, g, k);
    }
  }

  /** Copies that are equal stay equal. */
  lemma CopiesStayEqual(d: Disk, g: Geometry, c: nat, v: nat)
    requires g.Valid(|d|) && g.InTable(c) && CopiesEqual(d, g)
    ensures CopiesEqual(PutCopies(d, g, c, v, g.fatCount), g)
  {
    hide PutEntry;
    forall k: nat | k < g.fatCount
      ensures g.CopyBase(k) + g.sectorsPerFat <= |d| && g.CopyBase(0) + g.sectorsPerFat <= |d|
      ensures CopyOf(PutCopies(d, g, c, v, g.fatCount), g, k) == CopyOf(PutCopies(d, g, c, v, g.fatCount), g, 0)
    {
      PutCopiesCopy(d, g, c, v, g.fatCount, k);
      PutCopiesCopy(d, g, c, v, g.fatCount, 0);
    }
  }
}
