/** Where things lie on a FAT volume, in sectors and bytes: the entries of the first table, the chains
    they form and the bytes of a file (sections "FAT Data Structure" and "FAT Type Determination" of the
    Microsoft FAT32 File System Specification, version 1.03). Nothing here uses the driver's own
    address computations; the lemmas say that these come to the same places. */
module FatPlaces {
  import opened FatTable
  import opened FatData

  // ----- Entries

  /** Byte `o` of the first table. */
  ghost function TableByte(d: Disk, g: Geometry, o: nat): nat {
    if g.firstFatSector + o / 512 < |d| then d[g.firstFatSector + o / 512][o % 512] else 0
  }

  /** The entry of cluster `c`: one and a half, two or four bytes, least significant first; in the half
      byte of FAT12 the even cluster has the low digits, and FAT32 ignores the top four bits. */
  ghost function EntryValue(d: Disk, g: Geometry, c: nat): nat {
    match g.ftype
    case Fat12 =>
      if c % 2 == 0 then TableByte(d, g, 3 * c / 2) + 256 * (TableByte(d, g, 3 * c / 2 + 1) % 16)
      else TableByte(d, g, 3 * c / 2) / 16 + 16 * TableByte(d, g, 3 * c / 2 + 1)
    case Fat16 => TableByte(d, g, 2 * c) + 256 * TableByte(d, g, 2 * c + 1)
    case Fat32 =>
      TableByte(d, g, 4 * c) + 256 * TableByte(d, g, 4 * c + 1) + 65536 * TableByte(d, g, 4 * c + 2)
      + 16777216 * (TableByte(d, g, 4 * c + 3) % 16)
  }

  /** How many values an entry can have. */
  function Values(t: FatType): nat {
    match t case Fat12 => 4096 case Fat16 => 65536 case Fat32 => 268435456
  }

  /** The driver reads exactly that value. */
  lemma EntryPlace(d: Disk, g: Geometry, c: nat)
    ensures Entry(d, g.ftype, g.firstFatSector, c) == EntryValue(d, g, c) < Values(g.ftype)
  {
    hide TableByte, ByteAt;
    match g.ftype
    case Fat12 => Place12(d, g, c);
    case Fat16 => TablePlace(d, g, 2 * c);
    case Fat32 => Place32(d, g, c);
  }

  lemma Place12(d: Disk, g: Geometry, c: nat)
    requires g.ftype == Fat12
    ensures Entry(d, Fat12, g.firstFatSector, c) == EntryValue(d, g, c) < 4096
  {
    hide TableByte, ByteAt;
    var o := 3 * c / 2;
    assert o == c + c / 2;
    TablePlace(d, g, o);
    Nibbles(TableByte(d, g, o), TableByte(d, g, o + 1));
  }

  lemma Place32(d: Disk, g: Geometry, c: nat)
    requires g.ftype == Fat32
    ensures Entry(d, Fat32, g.firstFatSector, c) == EntryValue(d, g, c) < 268435456
  {
    hide TableByte, Word16;
    var o := 4 * c;
    WordPlace(d, g, o);
    WordPlace(d, g, o + 2);
    assert c * 4 == o;
    LowDigits(TableByte(d, g, o), TableByte(d, g, o + 1), TableByte(d, g, o + 2), TableByte(d, g, o + 3));
  }

  lemma WordPlace(d: Disk, g: Geometry, o: nat)
    ensures Word16(d, g.firstFatSector, o) == TableByte(d, g, o) + 256 * TableByte(d, g, o + 1)
    ensures TableByte(d, g, o) < 256 && TableByte(d, g, o + 1) < 256
  {
    hide TableByte, ByteAt;
    TablePlace(d, g, o);
  }

  lemma TablePlace(d: Disk, g: Geometry, o: nat)
    ensures forall k :: o <= k < o + 4 ==> TableByte(d, g, k) == ByteAt(d, g.firstFatSector, k) < 256
  {
  }

  /** It takes the last eight values for the end of a chain and writes the very last one there. */
  lemma EndMarks(g: Geometry, v: nat)
    requires v < Values(g.ftype)
    ensures g.IsEoc(v) <==> v + 8 >= Values(g.ftype)
    ensures g.EocValue() == Values(g.ftype) - 1
  {
  }

  lemma Nibbles(b0: nat, b1: nat)
    requires b0 < 256 && b1 < 256
    ensures (b0 + 256 * b1) % 4096 == b0 + 256 * (b1 % 16) && (b0 + 256 * b1) / 16 == b0 / 16 + 16 * b1
  {
  }

  lemma LowDigits(b0: nat, b1: nat, b2: nat, b3: nat)
    requires b0 < 256 && b1 < 256 && b2 < 256 && b3 < 256
    ensures (b0 + 256 * b1 + 65536 * (b2 + 256 * b3)) % 268435456 == b0 + 256 * b1 + 65536 * b2 + 16777216 * (b3 % 16)
  {
    var low, h := b0 + 256 * b1 + 65536 * b2, b3 / 16;
    assert b3 == 16 * h + b3 % 16;
    assert low + 16777216 * b3 == 268435456 * h + (low + 16777216 * (b3 % 16));
  }

  /** Each cluster's entry names the next one, the last one's is an end mark, and none comes twice. */
  ghost predicate ChainOnDisk(d: Disk, g: Geometry, cs: seq<nat>) {
    && cs != [] && (forall i :: 0 <= i < |cs| ==> 2 <= cs[i] <= g.clusterCount + 1)
    && (forall i :: 0 <= i < |cs| - 1 ==> EntryValue(d, g, cs[i]) == cs[i + 1])
    && EntryValue(d, g, cs[|cs| - 1]) + 8 >= Values(g.ftype)
    && (forall i, j :: 0 <= i < j < |cs| ==> cs[i] != cs[j])
  }

  // ----- Clusters

  /** Cluster 2 starts the data area, every further one follows the one before. */
  lemma ClusterPlace(g: Geometry, c: nat)
    requires c >= 2
    ensures g.ClusterSector(2) == g.firstDataSector
    ensures g.ClusterSector(c + 1) == g.ClusterSector(c) + g.sectorsPerCluster
    ensures g.ClusterSector(c) == g.firstDataSector + (c - 2) * g.sectorsPerCluster
  {
  }

  /** Byte `x` of a file lies in sector `x % bytes / 512` of its cluster number `x / bytes`. */
  ghost function SectorOf(g: Geometry, cs: seq<nat>, x: nat): int {
    var n := g.sectorsPerCluster;
    if n == 0 then -1
    else
      var i, r := x / (n * 512), x % (n * 512);
      if 0 <= i < |cs| then g.firstDataSector + (cs[i] - 2) * n + r / 512 else -1
  }

  ghost predicate OnSectors(d: Disk, g: Geometry, cs: seq<nat>, out: seq<Byte>) {
    forall x: nat :: x < |out| ==> 0 <= SectorOf(g, cs, x) < |d| && out[x] == d[SectorOf(g, cs, x)][x % 512]
  }

  /** A byte sequence is the content of a file exactly when it lies in these places. */
  lemma ContentPlace(d: Disk, g: Geometry, cs: seq<nat>, out: seq<Byte>)
    requires g.Valid(|d|) && AllInRange(g, cs) && |out| <= |cs| * ClusterBytes(g)
    ensures out == Content(d, g, cs, |out|) <==> OnSectors(d, g, cs, out)
  {
    hide Geometry.Valid, FileByte, Range, SectorOf, AllInRange;
    forall x: nat | x < |out|
      ensures 0 <= SectorOf(g, cs, x) < |d| && FileByte(d, g, cs, x) == d[SectorOf(g, cs, x)][x % 512]
    {
      BytePlace(d, g, cs, x);
    }
    var c := Content(d, g, cs, |out|);
    if OnSectors(d, g, cs, out) { assert forall x :: 0 <= x < |out| ==> out[x] == c[x]; }
  }

  lemma BytePlace(d: Disk, g: Geometry, cs: seq<nat>, x: nat)
    requires g.Valid(|d|) && AllInRange(g, cs) && x < |cs| * ClusterBytes(g)
    ensures 0 <= SectorOf(g, cs, x) < |d| && FileByte(d, g, cs, x) == d[SectorOf(g, cs, x)][x % 512]
  {
    hide Geometry.Valid;
    var bytes := g.sectorsPerCluster * 512;
    SomeSectors(g, |d|);
    Position(x, |cs|, bytes);
    ClusterOnDisk(g, |d|, cs[x / bytes]);
    SectorIn(x, x / bytes, g.sectorsPerCluster);
  }

  lemma SomeSectors(g: Geometry, sectors: nat)
    requires g.Valid(sectors)
    ensures g.sectorsPerCluster > 0
  {
  }

  lemma SectorIn(x: nat, q: nat, n: nat)
    requires n > 0 && q == x / (n * 512)
    ensures x % (n * 512) / 512 < n && x % (n * 512) % 512 == x % 512
  {
    var r := x % (n * 512);
    assert x == q * (n * 512) + r;
    assert q * (n * 512) == q * n * 512;
    assert x == (q * n) * 512 + r;
  }

  /** A file on the disk: a chain of entries, and the bytes in its clusters. */
  ghost predicate FileOnDisk(d: Disk, g: Geometry, cs: seq<nat>, content: seq<Byte>) {
    ChainOnDisk(d, g, cs) && OnSectors(d, g, cs, content)
  }

  /** Whole reads: whatever chain starts at `first` and is long enough, its bytes are returned. */
  ghost predicate ReadsFile(d: Disk, g: Geometry, first: nat, size: nat, code: int, out: seq<Byte>) {
    forall cs :: ChainOnDisk(d, g, cs) && cs[0] == first && size <= |cs| * (g.sectorsPerCluster * 512) ==>
      code == 0 && |out| == size && OnSectors(d, g, cs, out)
  }

  /** The bytes of the file from `from` on. */
  ghost predicate OnSectorsFrom(d: Disk, g: Geometry, cs: seq<nat>, from: nat, out: seq<Byte>) {
    forall x: nat :: x < |out| ==> 0 <= SectorOf(g, cs, from + x) < |d| && out[x] == d[SectorOf(g, cs, from + x)][(from + x) % 512]
  }

  /** Range reads whose end does not wrap: the bytes asked for, up to the end of the file. */
  ghost predicate ReadsPart(d: Disk, g: Geometry, first: nat, size: nat, offset: nat, len: nat, code: int, out: seq<Byte>) {
    forall cs :: ChainOnDisk(d, g, cs) && cs[0] == first && offset < size <= |cs| * (g.sectorsPerCluster * 512) ==>
      code == 0 && |out| == (if offset + len < size then len else size - offset) && OnSectorsFrom(d, g, cs, offset, out)
  }
}
