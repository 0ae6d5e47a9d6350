/** The boot sector of a FAT volume by the offsets of its fields, and what a volume with such a boot
    sector mounts as (section "Boot Sector and BPB" of the Microsoft FAT32 File System Specification,
    version 1.03). */
module FatBoot {
  import opened FatTable

  /** The number in `n` bytes from `off`, lowest byte first. */
  function Num(b: seq<Byte>, off: nat, n: nat): nat
    requires off + n <= |b|
    decreases n
  {
    if n == 0 then 0 else b[off] as int + 256 * Num(b, off + 1, n - 1)
  }

  lemma NumTwo(b: seq<Byte>, off: nat)
    requires off + 2 <= |b|
    ensures Num(b, off, 2) == b[off] as int + 256 * (b[off + 1] as int)
  {
    assert Num(b, off + 1, 1) == b[off + 1] as int + 256 * Num(b, off + 2, 0);
  }

  lemma NumFour(b: seq<Byte>, off: nat)
    requires off + 4 <= |b|
    ensures Num(b, off, 4) == Num(b, off, 2) + 65536 * Num(b, off + 2, 2)
  {
    NumTwo(b, off);
    assert Num(b, off, 4) == b[off] as int + 256 * Num(b, off + 1, 3);
    assert Num(b, off + 1, 3) == b[off + 1] as int + 256 * Num(b, off + 2, 2);
  }

  /** The sectors of the volume: bytes 19 and 20, or bytes 32 to 35 if those are zero. */
  function Sectors(b: seq<Byte>): nat
    requires |b| == SECTOR
  {
    if Num(b, 19, 2) != 0 then Num(b, 19, 2) else Num(b, 32, 4)
  }

  /** The sectors of one table: bytes 22 and 23, or bytes 36 to 39 if those are zero. */
  function Table(b: seq<Byte>): nat
    requires |b| == SECTOR
  {
    if Num(b, 22, 2) != 0 then Num(b, 22, 2) else Num(b, 36, 4)
  }

  datatype Mounted = Mounted(g: Geometry, reserved: nat, rootEntries: nat, total: nat, rootCluster: nat)

  /** The number of clusters decides on the type. */
  function Kind(clusters: nat): FatType {
    if clusters >= 65525 then Fat32 else if clusters >= 4085 then Fat16 else Fat12
  }

  /** The sector after the tables and the fixed root directory, in 32 bits. */
  function DataAt(reserved: nat, copies: nat, table: nat, rootEntries: nat): nat {
    (reserved + copies * table + (32 * rootEntries + 511) / 512) % 0x1_0000_0000
  }

  /** How many entries a table of that many sectors has: they take 12, 16 or 32 bits. */
  function Entries(t: FatType, table: nat): nat {
    var bytes := 512 * table % 0x1_0000_0000;
    match t
    case Fat12 => 2 * bytes % 0x1_0000_0000 / 3
    case Fat16 => bytes / 2
    case Fat32 => bytes / 4
  }

  function Lower(a: nat, b: nat): nat {
    if a < b then a else b
  }

  /** The numbers of a boot sector that the driver accepts. */
  ghost predicate Sound(spc: nat, reserved: nat, copies: nat, table: nat, rootEntries: nat, total: nat, root: nat) {
    && spc > 0 && DataAt(reserved, copies, table, rootEntries) < total
    && var clusters := (total - DataAt(reserved, copies, table, rootEntries)) / spc;
       var entries := Entries(Kind(clusters), table);
       && clusters > 0 && entries > 2
       && (Kind(clusters) == Fat32 ==> 2 <= root <= Lower(clusters, entries - 2) + 1)
       && (Kind(clusters) != Fat32 ==> rootEntries > 0)
  }

  /** What they make: as many clusters as there is room and as the table has entries for. */
  ghost function MountedWith(spc: nat, reserved: nat, copies: nat, table: nat, rootEntries: nat, total: nat, root: nat): Mounted
    requires Sound(spc, reserved, copies, table, rootEntries, total, root)
  {
    var data := DataAt(reserved, copies, table, rootEntries);
    var t := Kind((total - data) / spc);
    var clusters := Lower((total - data) / spc, Entries(t, table) - 2);
    Mounted(Geometry(t, spc, copies, table, reserved, data, clusters), reserved, rootEntries, total, if t == Fat32 then root else 0)
  }

  ghost predicate Signed(b: seq<Byte>)
    requires |b| == SECTOR
  {
    b[510] == 0x55 && b[511] == 0xAA
  }

  /** The boot sectors that mount. */
  ghost predicate Mounts(b: seq<Byte>)
    requires |b| == SECTOR
  {
    && Signed(b) && Num(b, 11, 2) == 512 && b[13] in {1, 2, 4, 8, 16, 32, 64, 128}
    && Num(b, 14, 2) != 0 && b[16] != 0 && Table(b) != 0 && Sectors(b) != 0
    && Sound(b[13], Num(b, 14, 2), b[16], Table(b), Num(b, 17, 2), Sectors(b), Num(b, 44, 4))
  }

  ghost function MountedAs(b: seq<Byte>): Mounted
    requires |b| == SECTOR && Mounts(b)
  {
    MountedWith(b[13], Num(b, 14, 2), b[16], Table(b), Num(b, 17, 2), Sectors(b), Num(b, 44, 4))
  }

  // ----- The boot sector that formatting writes

  const OEM: seq<Byte> := [0x4E, 0x54, 0x55, 0x58, 0x46, 0x41, 0x54, 0x20]
  const LABEL: seq<Byte> := [0x4E, 0x54, 0x55, 0x58, 0x20, 0x4F, 0x53, 0x20, 0x20, 0x20, 0x20]

  ghost predicate Zero(b: seq<Byte>, from: nat, to: nat) {
    forall k :: from <= k < to && k < |b| ==> b[k] == 0
  }

  /** The 36 bytes that all types share. */
  ghost predicate Common(b: seq<Byte>, t: FatType, spc: nat, reserved: nat, rootEntries: nat, spf: nat, sectors: nat, lbaStart: nat) {
    && |b| == SECTOR && b[..3] == [0xEB, 0x3C, 0x90] && b[3..11] == OEM
    && Num(b, 11, 2) == 512 && b[13] == spc && Num(b, 14, 2) == reserved && b[16] == 2 && Num(b, 17, 2) == rootEntries
    && Num(b, 19, 2) == (if t == Fat32 || sectors >= 65536 then 0 else sectors)
    && b[21] == 0xF8 && Num(b, 22, 2) == (if t == Fat32 then 0 else spf)
    && Num(b, 24, 2) == 63 && Num(b, 26, 2) == 255 && Num(b, 28, 4) == lbaStart
    && Num(b, 32, 4) == if t == Fat32 || sectors >= 65536 then sectors else 0
  }

  /** The rest for FAT32: table size, root cluster 2, information sector 1, backup sector 6. */
  ghost predicate Rest32(b: seq<Byte>, spf: nat) {
    && |b| == SECTOR && Num(b, 36, 4) == spf && Zero(b, 40, 44) && Num(b, 44, 4) == 2 && Num(b, 48, 2) == 1 && Num(b, 50, 2) == 6
    && Zero(b, 52, 64) && b[64] == 0x80 && b[65] == 0 && b[66] == 0x29 && Num(b, 67, 4) == 0x1234_5678
    && b[71..82] == LABEL && b[82..90] == [0x46, 0x41, 0x54, 0x33, 0x32, 0x20, 0x20, 0x20] && Zero(b, 90, 510)
  }

  /** The rest for FAT12 and FAT16. */
  ghost predicate Rest16(b: seq<Byte>, t: FatType) {
    && |b| == SECTOR && b[36] == 0x80 && b[37] == 0 && b[38] == 0x29 && Num(b, 39, 4) == 0x1234_5678
    && b[43..54] == LABEL && b[54..62] == [0x46, 0x41, 0x54, 0x31, if t == Fat12 then 0x32 else 0x36, 0x20, 0x20, 0x20] && Zero(b, 62, 510)
  }

  /** All 512 bytes. */
  ghost predicate Image(b: seq<Byte>, t: FatType, spc: nat, reserved: nat, rootEntries: nat, spf: nat, sectors: nat, lbaStart: nat) {
    && Common(b, t, spc, reserved, rootEntries, spf, sectors, lbaStart)
    && (if t == Fat32 then Rest32(b, spf) else Rest16(b, t)) && b[510] == 0x55 && b[511] == 0xAA
  }

  lemma NumSame(a: seq<Byte>, b: seq<Byte>, off: nat, n: nat)
    requires |a| == |b| && off + n <= |a| && forall k :: off <= k < off + n ==> a[k] == b[k]
    ensures Num(a, off, n) == Num(b, off, n)
    decreases n
  {
    if n > 0 { NumSame(a, b, off + 1, n - 1); }
  }

  /** The common part only depends on its bytes. */
  lemma CommonSame(a: seq<Byte>, b: seq<Byte>, t: FatType, spc: nat, reserved: nat, rootEntries: nat, spf: nat, sectors: nat, lbaStart: nat)
    requires Common(a, t, spc, reserved, rootEntries, spf, sectors, lbaStart) && |b| == SECTOR && forall k :: 0 <= k < 36 ==> a[k] == b[k]
    ensures Common(b, t, spc, reserved, rootEntries, spf, sectors, lbaStart)
  {
    hide Num;
    NumSame(a, b, 11, 2);
    NumSame(a, b, 14, 2);
    NumSame(a, b, 17, 2);
    NumSame(a, b, 19, 2);
    NumSame(a, b, 22, 2);
    NumSame(a, b, 24, 2);
    NumSame(a, b, 26, 2);
    NumSame(a, b, 28, 4);
    NumSame(a, b, 32, 4);
    assert b[..3] == a[..3] && b[3..11] == a[3..11];
  }
}
