/** Cluster chains of kernel/src/fs/fat.c: allocation, freeing, and writing and reading file data. */
module FatFs {
  import opened FatTable
  import opened FatData
  import opened FatPlaces

  const TWO64: nat := 0x1_0000_0000_0000_0000

  /** The table entry of a cluster, as the driver reads it: from the first copy. */
  ghost function Next(d: Disk, g: Geometry, c: nat): nat {
    Entry(d, g.ftype, g.firstFatSector, c)
  }

  /** The tables of `d'` are those of `d` with the entries in `m` set. */
  ghost predicate EntriesSet(d: Disk, d': Disk, g: Geometry, m: map<nat, nat>) {
    forall e: nat :: g.InTable(e) ==> Next(d', g, e) == if e in m then m[e] else Next(d, g, e)
  }

  /** Sectors outside the tables are the same. */
  ghost predicate OutsideSame(d: Disk, d': Disk, g: Geometry) {
    |d'| == |d| && forall s: nat :: s < |d| && (s < g.firstFatSector || g.CopyBase(g.fatCount) <= s) ==> d'[s] == d[s]
  }

  /** The entry of a cluster in copy `k`. */
  ghost function CopyEntry(d: Disk, g: Geometry, k: nat, e: nat): nat {
    Entry(d, g.ftype, g.CopyBase(k), e)
  }

  /** The same in every copy, whether the copies were equal or not. */
  ghost predicate InCopies(d: Disk, d': Disk, g: Geometry, m: map<nat, nat>) {
    forall k: nat, e: nat :: k < g.fatCount && g.InTable(e) ==> CopyEntry(d', g, k, e) == if e in m then m[e] else CopyEntry(d, g, k, e)
  }

  /** A step that only changes tables, as the driver sees them. */
  ghost predicate SeenStep(d: Disk, d': Disk, g: Geometry, m: map<nat, nat>) {
    && OutsideSame(d, d', g) && EntriesSet(d, d', g, m)
    && (CopiesEqual(d, g) ==> CopiesEqual(d', g))
  }

  /** A step that only changes tables: the entries in `m`, in every copy alike. */
  ghost predicate TableStep(d: Disk, d': Disk, g: Geometry, m: map<nat, nat>) {
    SeenStep(d, d', g, m) && InCopies(d, d', g, m)
  }

  ghost function Cleared(cs: set<nat>): map<nat, nat> {
    map c | c in cs :: 0
  }

  /** What a failed allocation leaves: the table as it was. Only in copies that differed from the first
      one are entries changed: those of the clusters that were free are cleared there too. */
  ghost predicate Restored(d: Disk, d': Disk, g: Geometry) {
    SeenStep(d, d', g, map[]) && InCopies(d, d', g, Cleared(FreeSet(d, g)))
  }

  lemma EntryWritten(d: Disk, g: Geometry, c: nat, v: nat, d': Disk)
    requires g.Valid(|d|) && g.InTable(c) && Mask(g.ftype, v) == v
    requires d' == PutCopies(d, g, c, v, g.fatCount)
    ensures TableStep(d, d', g, map[c := v])
  {
    hide Entry, Mask, PutCopies;
    forall s: nat | s < |d| && (s < g.firstFatSector || g.CopyBase(g.fatCount) <= s)
      ensures d'[s] == d[s]
    {
      PutCopiesSectors(d, g, c, v, g.fatCount, s);
    }
    forall e: nat | g.InTable(e)
      ensures Next(d', g, e) == if e == c then v else Next(d, g, e)
    {
      PutCopiesReads(d, g, c, v, g.fatCount, 0, e);
      assert g.CopyBase(0) == g.firstFatSector;
    }
    forall k: nat, e: nat | k < g.fatCount && g.InTable(e)
      ensures CopyEntry(d', g, k, e) == if e == c then v else CopyEntry(d, g, k, e)
    {
      PutCopiesReads(d, g, c, v, g.fatCount, k, e);
    }
    if CopiesEqual(d, g) { CopiesStayEqual(d, g, c, v); }
  }

  lemma TableStepsCompose(d: Disk, d1: Disk, d2: Disk, g: Geometry, m1: map<nat, nat>, m2: map<nat, nat>)
    requires TableStep(d, d1, g, m1) && TableStep(d1, d2, g, m2)
    ensures TableStep(d, d2, g, m1 + m2)
  {
    hide CopiesEqual, Next, CopyEntry;
  }

  lemma TableStepNothing(d: Disk, g: Geometry)
    ensures TableStep(d, d, g, map[])
  {
  }

  // ----- Chains

  /** Clusters that follow one another in the table. */
  ghost predicate Linked(d: Disk, g: Geometry, cs: seq<nat>) {
    && (forall i :: 0 <= i < |cs| ==> InRange(g, cs[i]))
    && (forall i :: 0 <= i < |cs| - 1 ==> Next(d, g, cs[i]) == cs[i + 1])
  }

  /** A well-formed chain: linked, acyclic and ended. */
  ghost predicate Chain(d: Disk, g: Geometry, cs: seq<nat>) {
    cs != [] && Linked(d, g, cs) && Distinct(cs) && g.IsEoc(Next(d, g, cs[|cs| - 1]))
  }

  /** The driver's chains are those on the disk. */
  lemma ChainPlace(d: Disk, g: Geometry, cs: seq<nat>)
    ensures Chain(d, g, cs) <==> ChainOnDisk(d, g, cs)
  {
    hide Entry, EntryValue, Geometry.IsEoc, Values;
    forall c: nat
      ensures Next(d, g, c) == EntryValue(d, g, c) && (g.IsEoc(Next(d, g, c)) <==> EntryValue(d, g, c) + 8 >= Values(g.ftype))
    {
      EntryPlace(d, g, c);
      EndMarks(g, EntryValue(d, g, c));
    }
  }

  lemma FilePlace(d: Disk, g: Geometry, cs: seq<nat>, content: seq<Byte>)
    requires g.Valid(|d|) && |content| <= |cs| * ClusterBytes(g)
    ensures Chain(d, g, cs) && content == Content(d, g, cs, |content|) <==> FileOnDisk(d, g, cs, content)
  {
    hide Next, Geometry.IsEoc, EntryValue, Content, OnSectors, Geometry.Valid, ClusterBytes;
    ChainPlace(d, g, cs);
    if ChainOnDisk(d, g, cs) { ContentPlace(d, g, cs, content); }
  }

  ghost function FreeSet(d: Disk, g: Geometry): set<nat> {
    set c: nat | c <= g.clusterCount + 1 && InRange(g, c) && Next(d, g, c) == 0
  }

  /** The entries of a chain, as linking one cluster after the other leaves them. */
  ghost function LinkMap(cs: seq<nat>, eoc: nat): map<nat, nat> {
    if cs == [] then map[]
    else if |cs| == 1 then map[cs[0] := eoc]
    else LinkMap(cs[..|cs| - 1], eoc)[cs[|cs| - 1] := eoc][cs[|cs| - 2] := cs[|cs| - 1]]
  }

  lemma {:induction false} LinkMapEntries(cs: seq<nat>, eoc: nat)
    requires Distinct(cs)
    ensures forall c :: c in LinkMap(cs, eoc) <==> c in cs
    ensures forall i :: 0 <= i < |cs| ==> LinkMap(cs, eoc)[cs[i]] == if i + 1 < |cs| then cs[i + 1] else eoc
  {
    if |cs| >= 2 {
      var front := cs[..|cs| - 1];
      LinkMapEntries(front, eoc);
      assert cs == front + [cs[|cs| - 1]];
    }
  }

  /** Clusters of the table are all different, so a chain has no more than there are. */
  lemma {:induction false} ChainLength(g: Geometry, cs: seq<nat>)
    requires Distinct(cs) && forall i :: 0 <= i < |cs| ==> InRange(g, cs[i])
    ensures |cs| <= g.clusterCount
  {
    ClustersAre(g.clusterCount);
    DistinctSize(cs, Clusters(g.clusterCount));
  }

  ghost function Clusters(n: nat): set<nat> {
    if n == 0 then {} else Clusters(n - 1) + {n + 1}
  }

  lemma {:induction false} ClustersAre(n: nat)
    ensures forall c: nat :: c in Clusters(n) <==> 2 <= c <= n + 1
    ensures |Clusters(n)| == n
  {
    if n > 0 { ClustersAre(n - 1); }
  }

  lemma {:induction false} DistinctSize(cs: seq<nat>, all: set<nat>)
    requires Distinct(cs) && forall i :: 0 <= i < |cs| ==> cs[i] in all
    ensures |cs| <= |all|
  {
    if cs != [] {
      DistinctSize(cs[1..], all - {cs[0]});
    }
  }

  /** What reading follows from `first`: linked clusters, none of which points to itself. */
  ghost predicate Walk(d: Disk, g: Geometry, first: nat, ws: seq<nat>) {
    && ws != [] && ws[0] == first && Linked(d, g, ws)
    && forall i :: 0 <= i < |ws| - 1 ==> ws[i] != ws[i + 1]
  }

  lemma ChainIsWalk(d: Disk, g: Geometry, cs: seq<nat>)
    requires Chain(d, g, cs)
    ensures Walk(d, g, cs[0], cs) && |cs| <= g.clusterCount
  {
    ChainLength(g, cs);
  }

  /** A walk goes on as long as the next entry is another cluster. */
  lemma WalkOn(d: Disk, g: Geometry, first: nat, ws: seq<nat>, c: nat)
    requires InRange(g, c)
    requires if ws == [] then c == first else Walk(d, g, first, ws) && c == Next(d, g, ws[|ws| - 1]) && c != ws[|ws| - 1]
    ensures Walk(d, g, first, ws + [c])
  {
    hide Next;
  }

  lemma WalkStops(d: Disk, g: Geometry, first: nat, ws: seq<nat>, es: seq<nat>)
    requires Walk(d, g, first, es)
    requires if ws == [] then !InRange(g, first)
             else Walk(d, g, first, ws) && var n := Next(d, g, ws[|ws| - 1]); !InRange(g, n) || n == ws[|ws| - 1]
    ensures |es| <= |ws|
  {
    hide Next;
    if ws != [] && |es| > |ws| {
      SharedPrefix(d, g, ws, es, |ws|);
      assert es[|ws| - 1] == es[..|ws|][|ws| - 1] == ws[..|ws|][|ws| - 1];
      LinkedOn(d, g, es, |ws| - 1);
      assert false;
    }
  }

  /** No walk is long enough for `size` bytes. */
  ghost predicate TooShort(d: Disk, g: Geometry, first: nat, size: nat) {
    forall es :: Walk(d, g, first, es) && |es| <= g.clusterCount + 2 ==> |es| * ClusterBytes(g) < size
  }

  lemma StopIsTooShort(d: Disk, g: Geometry, first: nat, ws: seq<nat>, size: nat)
    requires |ws| * ClusterBytes(g) < size
    requires if ws == [] then !InRange(g, first)
             else Walk(d, g, first, ws) && (var n := Next(d, g, ws[|ws| - 1]); !InRange(g, n) || n == ws[|ws| - 1] || |ws| == g.clusterCount + 2)
    ensures TooShort(d, g, first, size)
  {
    hide Next, ClusterBytes, Walk;
    forall es | Walk(d, g, first, es) && |es| <= g.clusterCount + 2
      ensures |es| * ClusterBytes(g) < size
    {
      if ws == [] || |ws| < g.clusterCount + 2 { WalkStops(d, g, first, ws, es); }
      MulMono(|es|, |ws|, ClusterBytes(g));
    }
  }

  /** What freeing follows from `first`: linked clusters, each once, until the next one is none,
      not a cluster, or was seen before. */
  ghost predicate Trail(d: Disk, g: Geometry, first: nat, path: seq<nat>) {
    && Linked(d, g, path) && Distinct(path)
    && (if first < 2 then path == []
        else path != [] && path[0] == first
             && var n := Next(d, g, path[|path| - 1]); g.IsEoc(n) || !InRange(g, n) || n in path)
  }

  /** On a well-formed chain that is the chain. */
  lemma TrailIsChain(d: Disk, g: Geometry, cs: seq<nat>, path: seq<nat>, sectors: nat)
    requires g.Valid(sectors) && Chain(d, g, cs) && Trail(d, g, cs[0], path)
    ensures path == cs
  {
    hide Next, Geometry.EntryCount;
    EocIsNoCluster(g, sectors);
    if |path| < |cs| {
      SharedPrefix(d, g, cs, path, |path|);
      MoreToCome(d, g, cs, |path|);
    } else {
      SharedPrefix(d, g, cs, path, |cs|);
      assert path[|cs| - 1] == path[..|cs|][|cs| - 1] == cs[..|cs|][|cs| - 1];
      if |cs| < |path| { LinkedOn(d, g, path, |cs| - 1); }
      assert path == path[..|cs|] && cs == cs[..|cs|];
    }
  }

  /** In the middle of a chain the next cluster is new. */
  lemma MoreToCome(d: Disk, g: Geometry, cs: seq<nat>, n: nat)
    requires Linked(d, g, cs) && Distinct(cs) && 0 < n < |cs|
    ensures Next(d, g, cs[n - 1]) == cs[n] && InRange(g, cs[n]) && cs[n] !in cs[..n]
    ensures cs[n - 1] == cs[..n][|cs[..n]| - 1]
  {
  }

  lemma LinkedOn(d: Disk, g: Geometry, path: seq<nat>, i: nat)
    requires Linked(d, g, path) && i + 1 < |path|
    ensures Next(d, g, path[i]) == path[i + 1] && InRange(g, path[i + 1])
  {
    assert InRange(g, path[i + 1]);
  }

  lemma EocIsNoCluster(g: Geometry, sectors: nat)
    requires g.Valid(sectors)
    ensures forall v: nat :: g.IsEoc(v) ==> !InRange(g, v)
    ensures g.IsEoc(g.EocValue()) && Mask(g.ftype, g.EocValue()) == g.EocValue()
    ensures forall v: nat :: v <= g.clusterCount + 1 ==> Mask(g.ftype, v) == v
  {
    hide Geometry.Valid, Geometry.EntryCount, Geometry.CopyBase;
    BelowMarks(g, sectors);
    match g.ftype
    case Fat12 =>
    case Fat16 =>
    case Fat32 =>
  }

  lemma BelowMarks(g: Geometry, sectors: nat)
    requires g.Valid(sectors)
    ensures g.clusterCount + 1 < g.EocValue() - 7
  {
    hide Geometry.EntryCount, Geometry.CopyBase;
  }

  lemma {:induction false} SharedPrefix(d: Disk, g: Geometry, cs: seq<nat>, path: seq<nat>, n: nat)
    requires Linked(d, g, cs) && Linked(d, g, path) && n <= |cs| && n <= |path|
    requires cs != [] && path != [] && cs[0] == path[0]
    ensures cs[..n] == path[..n]
  {
    if n > 1 {
      SharedPrefix(d, g, cs, path, n - 1);
      assert cs[n - 2] == cs[..n - 1][n - 2] == path[..n - 1][n - 2] == path[n - 2];
    }
  }

  class FatFs {
    const disk: array<Sector>
    const g: Geometry
    var nextFree: nat

    constructor (disk: array<Sector>, g: Geometry)
      requires g.Valid(disk.Length)
      ensures this.disk == disk && this.g == g && nextFree == 2 && Valid()
    {
      this.disk := disk;
      this.g := g;
      nextFree := 2;
    }

    ghost predicate Valid() {
      g.Valid(disk.Length)
    }

    // ----- Table entries

    /** `fat_read_fat_entry`: a twelve-bit entry may need the first byte of the next sector. The number
        may be any; reading fails only behind the end of the disk. */
    method ReadEntry(c: nat) returns (ok: bool, v: nat)
      requires Valid()
      ensures ok <==> OnDisk(disk.Length, g.ftype, g.firstFatSector, c)
      ensures ok ==> v == Seen(disk[..], g.ftype, g.firstFatSector, c)
      ensures InRange(g, c) ==> ok && v == Next(disk[..], g, c)
    {
      hide ByteAt, Word16, Rd16, Geometry.EntryCount, Geometry.Valid, Offset, Take12;
      if InRange(g, c) { ClusterSeen(disk[..], g, c); }
      hide Offset32;
      var off := Offset32(g.ftype, c);
      OffsetAligned(g.ftype, c);
      NextByte(off);
      v := 0;
      var sector := g.firstFatSector + off / SECTOR;
      var o := off % SECTOR;
      if sector >= disk.Length { return false, v; }
      var sec := disk[sector];
      match g.ftype {
        case Fat12 =>
          if o == SECTOR - 1 && sector + 1 >= disk.Length { return false, v; }
          var b0 := sec[o];
          var b1 := if o == SECTOR - 1 then disk[sector + 1][0] else sec[o + 1];
          var w := Rd16(b0, b1);
          SameWord(disk[..], g.firstFatSector, off, w);
          v := Take12(w, c % 2 == 1);
        case Fat16 =>
          EvenOffset(off, 2);
          v := Rd16(sec[o], sec[o + 1]);
          SameWord(disk[..], g.firstFatSector, off, v);
        case Fat32 =>
          EvenOffset(off, 4);
          var lo, hi := Rd16(sec[o], sec[o + 1]), Rd16(sec[o + 2], sec[o + 3]);
          SameWord(disk[..], g.firstFatSector, off, lo);
          SameWord(disk[..], g.firstFatSector, off + 2, hi);
          v := (lo + 65536 * hi) % 0x1000_0000;
      }
      ok := true;
    }

    /** One copy's share of `fat_write_fat_entry`. */
    method WriteEntryAt(base: nat, c: nat, value: nat) returns (ok: bool)
      modifies disk
      ensures ok <==> OnDisk(disk.Length, g.ftype, base, c)
      ensures disk[..] == if ok then PutSeen(old(disk[..]), g.ftype, base, c, value) else old(disk[..])
    {
      hide ByteAt, Word16, Rd16, Mix12, Mix32, PutByte, Put16, Put32, Offset32;
      ghost var d := disk[..];
      var off := Offset32(g.ftype, c);
      OffsetAligned(g.ftype, c);
      NextByte(off);
      var sector := base + off / SECTOR;
      var o := off % SECTOR;
      if sector >= disk.Length { return false; }
      var sec := disk[sector];
      match g.ftype {
        case Fat12 =>
          var second := o == SECTOR - 1;
          if second && sector + 1 >= disk.Length { return false; }
          var b0 := sec[o];
          var b1 := if second then disk[sector + 1][0] else sec[o + 1];
          SameWord(d, base, off, Rd16(b0, b1));
          var nv := Mix12(Rd16(b0, b1), c % 2 == 1, value);
          if second {
            disk[sector] := sec[o := nv % 256];
            disk[sector + 1] := disk[sector + 1][0 := nv / 256];
          } else {
            disk[sector] := sec[o := nv % 256][o + 1 := nv / 256];
          }
          SamePut(d, base, off, nv, disk[..]);
        case Fat16 =>
          EvenOffset(off, 2);
          var nv := value % 0x1_0000;
          disk[sector] := sec[o := nv % 256][o + 1 := nv / 256];
          SamePut(d, base, off, nv, disk[..]);
        case Fat32 =>
          EvenOffset(off, 4);
          var lo, hi := Rd16(sec[o], sec[o + 1]), Rd16(sec[o + 2], sec[o + 3]);
          SameWord(d, base, off, lo);
          SameWord(d, base, off + 2, hi);
          var nv := Mix32(lo + 65536 * hi, value);
          disk[sector] := sec[o := nv % 65536 % 256][o + 1 := nv % 65536 / 256][o + 2 := nv / 65536 % 256][o + 3 := nv / 65536 / 256];
          SamePut32(d, base, off, nv, disk[..]);
      }
      ok := true;
    }

    /** `fat_write_fat_entry`: all copies, up to the first that cannot be read. For a cluster of the
        volume that changes its entry and nothing else; the number may be any, though. */
    method WriteEntry(c: nat, value: nat) returns (ok: bool)
      requires Valid()
      modifies disk
      ensures ok <==> OnDisk(disk.Length, g.ftype, g.CopyBase(g.fatCount - 1), c)
      ensures disk[..] == SeenCopies(old(disk[..]), g, c, value, g.fatCount)
      ensures InRange(g, c) && Mask(g.ftype, value) == value ==> ok && TableStep(old(disk[..]), disk[..], g, map[c := value])
    {
      hide Entry, PutSeen, TableStep, OnDisk, Geometry.CopyBase;
      ghost var d := disk[..];
      for fi := 0 to g.fatCount
        invariant disk[..] == SeenCopies(d, g, c, value, fi)
        invariant fi > 0 ==> OnDisk(disk.Length, g.ftype, g.CopyBase(fi - 1), c)
      {
        ok := WriteEntryAt(g.CopyBase(fi), c, value);
        if !ok {
          LaterCopies(d, g, c, value, fi, g.fatCount);
          if InRange(g, c) { ClusterSeen(d, g, c); }
          return;
        }
      }
      ok := true;
      if InRange(g, c) && Mask(g.ftype, value) == value {
        ClusterSeen(d, g, c);
        InsideStep(d, g, c, value);
      }
    }

    // ----- Allocation and freeing

    /** `fat_alloc_cluster`: the next free cluster from `nextFree` on, round the table once. */
    method AllocCluster() returns (c: nat)
      requires Valid()
      modifies this, disk
      ensures c == 0 <==> old(FreeSet(disk[..], g)) == {}
      ensures c == 0 ==> disk[..] == old(disk[..]) && nextFree == old(nextFree)
      ensures c != 0 ==> c in old(FreeSet(disk[..], g)) && TableStep(old(disk[..]), disk[..], g, map[c := g.EocValue()])
      ensures c != 0 ==> nextFree == if c + 1 <= g.MaxValidCluster() then c + 1 else 2
    {
      hide TableStep, Next, Geometry.EocValue, Mask, Seen, OnDisk, SeenCopies, Geometry.CopyBase, Geometry.MaxValidCluster, Geometry.InTable, Offset32, Geometry.EntryCount;
      ghost var d := disk[..];
      MaxIsCount(g, disk.Length);
      EocIsNoCluster(g, disk.Length);
      var max := g.MaxValidCluster();
      var none: nat := 0;
      if max < 2 { return none; }
      var start := nextFree;
      if start < 2 || start > max { start := 2; }
      var pass := 0;
      while pass < 2
        invariant 0 <= pass <= 2 && disk[..] == d && nextFree == old(nextFree)
        invariant pass >= 1 ==> forall e: nat :: start <= e <= max ==> Next(d, g, e) != 0
        invariant pass == 2 ==> forall e: nat :: 2 <= e <= max ==> Next(d, g, e) != 0
      {
        var begin := if pass == 0 then start else 2;
        var end := if pass == 0 then max else if start > 2 then start - 1 else 1;
        c := begin;
        while c <= end
          invariant begin <= c && disk[..] == d && nextFree == old(nextFree)
          invariant forall e: nat :: begin <= e < c ==> Next(d, g, e) != 0
        {
          ValidClusterInTable(g, c);
          var read, v := ReadEntry(c);
          if !read { return none; }
          if v == 0 {
            assert c in FreeSet(d, g);
            var written := WriteEntry(c, g.EocValue());
            if !written { return none; }
            nextFree := if c + 1 <= max then c + 1 else 2;
            return;
          }
          c := c + 1;
        }
        pass := pass + 1;
      }
      return 0;
    }

    /** `fat_free_chain`: clears entries along the table until the trail ends, on any table. It checks
        every cluster but the first; if that is none of the volume, what lies where its entry would be
        is cleared. */
    method FreeChain(first: nat) returns (ok: bool, ghost path: seq<nat>)
      requires Valid()
      modifies disk
      ensures first <= g.clusterCount + 1 ==>
        ok && Trail(old(disk[..]), g, first, path) && TableStep(old(disk[..]), disk[..], g, Zeroes(path))
      ensures first > g.clusterCount + 1 ==> StrayFreed(old(disk[..]), disk[..], g, first, ok, path)
    {
      hide TableStep, Next, Mask, Geometry.EntryCount, Geometry.IsEoc, Freeing, Trail, Zeroes, Clusters, Seen, OnDisk, SeenCopies, Geometry.CopyBase, FirstCleared, StrayFreed, Onward, Unvisited, Geometry.Valid, Geometry.MaxValidCluster, Geometry.InTable, Offset32, Distinct, Linked;
      ghost var d0 := disk[..];
      ghost var d, from, stray := d0, first, first > g.clusterCount + 1;
      MaxIsCount(g, disk.Length);
      EocIsNoCluster(g, disk.Length);
      FirstCopy(g, disk.Length);
      ZeroMask(g.ftype);
      ok, path := true, [];
      var c := first;
      var max := g.MaxValidCluster();
      if !stray { FreeingStart(d, g, first); }
      while c >= 2
        invariant stray ==> c == first && disk[..] == d == d0 && path == []
        invariant !stray ==> Freeing(d, disk[..], g, from, path, c)
        invariant if first <= g.clusterCount + 1 then !stray && d == d0 && from == first
                  else stray || FirstCleared(d0, d, g, first, from)
        decreases if stray then 1 else 0, Unvisited(g.clusterCount, path)
      {
        if !stray { FreeingCluster(d, disk[..], g, from, path, c); }
        ghost var d1, was := disk[..], path;
        var read, next := ReadEntry(c);
        if !read {
          StrayUnread(d0, g, first);
          return false, path;
        }
        var written := WriteEntry(c, 0);
        if !written {
          StrayUnwritten(d0, g, first);
          return false, path;
        }
        ghost var at := c;
        if stray {
          FirstIsCleared(d0, disk[..], g, first);
          d, from, stray := disk[..], Onward(g, next), false;
          at := from;
          FreeingStart(d, g, from);
        } else {
          ClusterSeen(d1, g, c);
          path := FreeingStep(d, d1, disk[..], g, from, was, c);
          if path != was { TrailGrows(g.clusterCount, was, c); }
          if InRange(g, next) && !g.IsEoc(next) { FreeingGoesOn(d, disk[..], g, from, path, next); }
        }
        if g.IsEoc(next) || next < 2 || next > max {
          FreeingEnds(d, disk[..], g, from, path, at);
          if first > g.clusterCount + 1 { StrayDone(d0, d, disk[..], g, first, from, path); }
          return true, path;
        }
        c := next;
      }
      FreeingEnds(d, disk[..], g, from, path, c);
      if first > g.clusterCount + 1 { StrayDone(d0, d, disk[..], g, first, from, path); }
    }

    // ----- Writing a file

    /** The allocating loop of `fat_write_file_payload`: links `needed` clusters, or undoes everything. */
    method AllocChain(needed: nat) returns (ok: bool, cs: seq<nat>)
      requires Valid() && needed > 0
      modifies this, disk
      ensures ok <==> needed <= |old(FreeSet(disk[..], g))|
      ensures ok ==> |cs| == needed && NewChain(old(disk[..]), disk[..], g, cs)
      ensures !ok ==> Restored(old(disk[..]), disk[..], g)
    {
      hide TableStep, Next, Mask, Geometry.EntryCount, FreeSet, Chain, Trail, NewChain, Restored;
      ghost var d := disk[..];
      NewChainStart(d, g);
      MaxIsCount(g, disk.Length);
      cs := [];
      var first, prev := 0, 0;
      for i := 0 to needed
        invariant |cs| == i && prev == (if i == 0 then 0 else cs[i - 1]) && first == (if i == 0 then 0 else cs[0])
        invariant NewChain(d, disk[..], g, cs)
      {
        ghost var d1 := disk[..];
        NewChainSize(d, d1, g, cs, disk.Length);
        var c := AllocCluster();
        if c == 0 {
          if i > 0 { NewChainEntry(d, d1, g, cs, 0, disk.Length); }
          if first >= 2 {
            NewChainIsChain(d, d1, g, cs, disk.Length);
            var freed;
            ghost var path;
            freed, path := FreeChain(first);
            TrailIsChain(d1, g, cs, path, disk.Length);
            RolledBack(d, d1, disk[..], g, cs, disk.Length);
          } else {
            NothingAllocated(d, d1, g, disk.Length);
          }
          return false, cs;
        }
        ghost var d2 := disk[..];
        NewChainNext(d, d1, d2, g, cs, c, disk.Length);
        if prev >= 2 {
          ValidClusterInTable(g, prev);
          EocIsNoCluster(g, disk.Length);
          var written := WriteEntry(prev, c);
        }
        NewChainLinked(d, d1, d2, disk[..], g, cs, c);
        cs := cs + [c];
        if i == 0 { first := c; }
        prev := c;
      }
      NewChainSize(d, disk[..], g, cs, disk.Length);
      NewChainLast(d, disk[..], g, cs, disk.Length);
      if prev >= 2 {
        ghost var d1 := disk[..];
        var written := WriteEntry(prev, g.EocValue());
        NewChainClosed(d, d1, disk[..], g, cs);
      }
      return true, cs;
    }

    /** Writes `buf` over the sectors of cluster `c`: `fat_write_sectors`. */
    method WriteCluster(c: nat, buf: seq<Byte>)
      requires Valid() && InRange(g, c) && |buf| == ClusterBytes(g)
      modifies disk
      ensures ClusterWritten(old(disk[..]), disk[..], g, c, buf)
    {
      ClusterOnDisk(g, disk.Length, c);
      hide Geometry.Valid, ByteOf;
      var first := g.ClusterSector(c);
      for s := 0 to g.sectorsPerCluster
        invariant forall x: nat :: x < disk.Length && !(first <= x < first + s) ==> disk[x] == old(disk[x])
        invariant forall x: nat :: x < s ==> disk[..][first + x] == Slice(buf, x)
      {
        disk[first + s] := Slice(buf, s);
      }
      SlicesAreBytes(disk[..], g, c, buf);
    }

    /** The writing loop of `fat_write_file_payload`: whole clusters, the last one padded with zeros. */
    method WriteData(data: seq<Byte>, cs: seq<nat>)
      requires Valid() && Distinct(cs) && AllInRange(g, cs)
      requires (|cs| - 1) * ClusterBytes(g) < |data| <= |cs| * ClusterBytes(g)
      modifies disk
      ensures Written(disk[..], g, cs, data, |cs|)
      ensures OnlyClusters(old(disk[..]), disk[..], g, cs)
    {
      hide Geometry.EntryCount, ByteOf, ClusterWritten, OnlyClusters, Written, Padded, ClusterBytes, Geometry.Valid;
      ghost var d := disk[..];
      var bytes := ClusterBytes(g);
      var src := data;
      ghost var at: nat := 0;
      OnlyNothing(d, g, cs[..0]);
      NothingWritten(d, g, cs, data);
      for i := 0 to |cs|
        invariant at == i * bytes && src == if at <= |data| then data[at..] else []
        invariant Written(disk[..], g, cs, data, i)
        invariant OnlyClusters(d, disk[..], g, cs[..i])
      {
        ghost var d1 := disk[..];
        EnoughLeft(|data|, |cs|, i, bytes);
        var buf := if |src| >= bytes then src[..bytes] else src + seq(bytes - |src|, _ => 0);
        PieceOf(data, at, bytes, buf);
        WriteCluster(cs[i], buf);
        WrittenNext(d, d1, disk[..], g, cs, data, i, buf);
        src := if |src| >= bytes then src[bytes..] else [];
        MulNext(i, bytes);
        at := at + bytes;
      }
      assert cs[..|cs|] == cs;
    }

    /** `fat_write_file_payload`: a chain of as many clusters as the data needs, all free before,
        holding the data; or no entry changed when there are not enough. The number of clusters is cut
        to 32 bits, so of longer data only the beginning is kept; 0 clusters are a failed `kmalloc`. */
    method WritePayload(data: seq<Byte>) returns (ok: bool, first: nat, ghost cs: seq<nat>)
      requires Valid() && |data| < TWO64
      modifies this, disk
      ensures data == [] ==> ok && first == 0 && disk[..] == old(disk[..])
      ensures data != [] ==> (ok <==> 0 < Rounded(g, |data|) <= |old(FreeSet(disk[..], g))|)
      ensures data != [] && ok ==> cs != [] && first == cs[0] && |cs| == Rounded(g, |data|)
      ensures data != [] && ok ==> Kept(g, |data|) <= |data| && Stored(old(disk[..]), disk[..], g, cs, data[..Kept(g, |data|)])
      ensures data != [] && ok ==> FileOnDisk(disk[..], g, cs, data[..Kept(g, |data|)])
      ensures !ok ==> if Rounded(g, |data|) == 0 then disk[..] == old(disk[..]) else Restored(old(disk[..]), disk[..], g)
    {
      hide TableStep, FreeSet, Geometry.Valid, Rounded, Kept, ClusterBytes, Stored, NewChain, Restored, FileOnDisk;
      cs, first := [], 0;
      if data == [] { return true, 0, cs; }
      SomeClusters(g, disk.Length, |data|);
      ghost var d := disk[..];
      var needed := Rounded(g, |data|);
      if needed == 0 { return false, 0, cs; }
      var clusters;
      ok, clusters := AllocChain(needed);
      if !ok { return false, 0, cs; }
      first := clusters[0];
      FillChain(d, data[..Kept(g, |data|)], clusters);
      cs := clusters;
      StoredPlace(d, disk[..], g, cs, data[..Kept(g, |data|)]);
    }

    /** The second half of `fat_write_file_payload`: the data goes into the chain just built. */
    method FillChain(ghost d: Disk, data: seq<Byte>, cs: seq<nat>)
      requires Valid() && cs != [] && NewChain(d, disk[..], g, cs)
      requires (|cs| - 1) * ClusterBytes(g) < |data| <= |cs| * ClusterBytes(g)
      modifies disk
      ensures Stored(d, disk[..], g, cs, data)
    {
      hide FreeSet, NewChain, Geometry.Valid, Written, OnlyClusters, ClusterBytes, Stored, Distinct, AllInRange;
      ghost var d1 := disk[..];
      NewChainInRange(d, d1, g, cs, disk.Length);
      WriteData(data, cs);
      PayloadStored(d, d1, disk[..], g, cs, data);
    }

    /** What a file is for: writing data and reading it back, whole or in part, while every other
        file keeps its chain and its content. The size in the directory entry has 32 bits: the data
        comes back if and only if its length fits them. */
    method WriteThenRead(data: seq<Byte>, offset: nat, len: nat, ghost other: seq<nat>, ghost n: nat)
      returns (ok: bool, whole: seq<Byte>, part: seq<Byte>)
      requires Valid() && |data| < TWO64 && offset < TWO64 && len < TWO64
      requires Chain(disk[..], g, other)
      modifies this, disk
      ensures ok <==> data == [] || 0 < Rounded(g, |data|) <= |old(FreeSet(disk[..], g))|
      ensures ok ==> (whole == data <==> |data| < TWO32)
      ensures ok && |data| % TWO32 <= Kept(g, |data|) ==> |data| % TWO32 <= |data| && whole == data[..|data| % TWO32]
      ensures ok && offset <= |data| < TWO32 && offset + len < TWO64 ==>
        part == data[offset..if offset + len < |data| then offset + len else |data|]
      ensures Chain(disk[..], g, other)
      ensures Content(disk[..], g, other, n) == Content(old(disk[..]), g, other, n)
    {
      hide TableStep, FreeSet, Geometry.Valid, Content, Chain, EntriesSet, OnlyTheirs, CopiesEqual, ClusterBytes, Rounded, Kept, FileOnDisk;
      ghost var d := disk[..];
      whole, part := [], [];
      var first;
      ghost var cs;
      ok, first, cs := WritePayload(data);
      if !ok {
        TableStepNothing(d, g);
        OtherKept(d, disk[..], g, other, n);
        return;
      }
      SomeClusters(g, disk.Length, |data|);
      if data != [] { OthersUntouched(d, disk[..], g, cs, data[..Kept(g, |data|)], other, n); }
      whole, part := ReadBack(data, first, offset, len, cs);
    }

    /** Reads what was written: whole, as long as the entry says, and a part. */
    method ReadBack(data: seq<Byte>, first: nat, offset: nat, len: nat, ghost cs: seq<nat>) returns (whole: seq<Byte>, part: seq<Byte>)
      requires Valid() && |data| < TWO64 && offset < TWO64 && len < TWO64
      requires data != [] ==> (
        && cs != [] && first == cs[0] && Chain(disk[..], g, cs) && Kept(g, |data|) <= |data| && Kept(g, |data|) <= |cs| * ClusterBytes(g)
        && Content(disk[..], g, cs, Kept(g, |data|)) == data[..Kept(g, |data|)])
      ensures whole == data <==> |data| < TWO32
      ensures |data| % TWO32 <= Kept(g, |data|) ==> |data| % TWO32 <= |data| && whole == data[..|data| % TWO32]
      ensures offset <= |data| < TWO32 && offset + len < TWO64 ==>
        part == data[offset..if offset + len < |data| then offset + len else |data|]
    {
      hide Geometry.Valid, Content, Chain, ClusterBytes, Rounded, Kept, ChainsRead, RangeRead, Skipped, ReadsFile, ReadsPart, Walk, TooShort;
      SomeClusters(g, disk.Length, |data|);
      var size := |data| % TWO32;
      var code;
      ghost var ws;
      code, whole, ws := ReadFileData(first, size, size);
      if data != [] { WholeRead(disk[..], g, cs, data, size, code == 0, ws, whole); }
      code, part, ws := ReadFileRange(first, size, offset, len);
      if data != [] && |data| < TWO32 { PartRead(disk[..], g, cs, data, offset, len, code, part); }
    }

    // ----- Reading a file

    /** The sector loop of the readers: at most `want` bytes of a cluster, from byte `skip` on, and
        what is left to skip. */
    method CopyCluster(c: nat, skip: nat, want: nat) returns (piece: seq<Byte>, left: nat)
      requires Valid() && InRange(g, c) && want > 0
      ensures left == if skip < ClusterBytes(g) then 0 else skip - ClusterBytes(g)
      ensures |piece| == if skip >= ClusterBytes(g) then 0 else if want < ClusterBytes(g) - skip then want else ClusterBytes(g) - skip
      ensures forall k: nat :: k < |piece| ==> piece[k] == ByteOf(disk[..], g, c, skip + k)
    {
      ClusterOnDisk(g, disk.Length, c);
      hide Geometry.EntryCount;
      var first := g.ClusterSector(c);
      var sk: nat, remaining: nat := skip, want;
      var s := 0;
      piece := [];
      while s < g.sectorsPerCluster && remaining > 0
        invariant s <= g.sectorsPerCluster && remaining == want - |piece|
        invariant if s * SECTOR <= skip then piece == [] && sk == skip - s * SECTOR
                  else sk == 0 && |piece| == if want < s * SECTOR - skip then want else s * SECTOR - skip
        invariant forall k: nat :: k < |piece| ==> piece[k] == ByteOf(disk[..], g, c, skip + k)
      {
        var sec := disk[first + s];
        if sk >= SECTOR {
          sk := sk - SECTOR;
        } else {
          var take := if remaining < SECTOR - sk then remaining else SECTOR - sk;
          SectorPiece(disk[..], g, c, s, sk, sec[sk..sk + take]);
          piece := piece + sec[sk..sk + take];
          remaining := remaining - take;
          sk := 0;
        }
        s := s + 1;
      }
      left := sk;
    }

    /** `fat_read_file_data`: total on every table. */
    method ReadFileData(first: nat, size: nat, cap: nat) returns (code: int, out: seq<Byte>, ghost ws: seq<nat>)
      requires Valid()
      ensures code == -1 <==> cap < size
      ensures size == 0 ==> code == 0
      ensures |out| <= size
      ensures code == 0 ==> out == Content(disk[..], g, ws, size)
      ensures code == 0 && size > 0 ==> Walk(disk[..], g, first, ws) && (|ws| - 1) * ClusterBytes(g) < size <= |ws| * ClusterBytes(g)
      ensures code != 0 && cap >= size ==> TooShort(disk[..], g, first, size)
      ensures 0 < size <= cap ==> ReadsFile(disk[..], g, first, size, code, out)
    {
      code, out, ws := WalkAndCopy(first, size, cap);
      if 0 < size <= cap { ReadPlace(disk[..], g, first, size, code, out, ws); }
    }

    /** Its loop. */
    method WalkAndCopy(first: nat, size: nat, cap: nat) returns (code: int, out: seq<Byte>, ghost ws: seq<nat>)
      requires Valid()
      ensures code == -1 <==> cap < size
      ensures size == 0 ==> code == 0
      ensures |out| <= size
      ensures code == 0 ==> out == Content(disk[..], g, ws, size)
      ensures code == 0 && size > 0 ==> Walk(disk[..], g, first, ws) && (|ws| - 1) * ClusterBytes(g) < size <= |ws| * ClusterBytes(g)
      ensures code != 0 && cap >= size ==> TooShort(disk[..], g, first, size)
    {
      hide Next, ClusterBytes, Range, ByteOf, Walk, Linked, TooShort, Geometry.Valid;
      ghost var d := disk[..];
      out, ws := [], [];
      if cap < size { return -1, out, ws; }
      if first < 2 && size == 0 { return 0, out, ws; }
      Bounds(g, disk.Length);
      var remaining: nat, cluster := size, first;
      var guard := g.clusterCount + 2;
      while remaining > 0 && cluster >= 2 && guard > 0
        invariant guard == g.clusterCount + 2 - |ws| >= 0 && remaining == size - |out| && out == Content(d, g, ws, |out|)
        invariant if remaining > 0 then |out| == |ws| * ClusterBytes(g) else size == 0
        invariant if ws == [] then cluster == first
                  else Walk(d, g, first, ws) && cluster == Next(d, g, ws[|ws| - 1]) && cluster != ws[|ws| - 1]
      {
        guard := guard - 1;
        if cluster > g.clusterCount + 1 {
          StopIsTooShort(d, g, first, ws, size);
          return -4, out, ws;
        }
        WalkOn(d, g, first, ws, cluster);
        ghost var was := ws;
        ws := ws + [cluster];
        PrefixContent(d, g, was, ws, |out|);
        var piece, left := CopyCluster(cluster, 0, remaining);
        RangeExtends(d, g, ws, 0, out, |was|, 0, piece);
        MulNext(|was|, ClusterBytes(g));
        out := out + piece;
        remaining := remaining - |piece|;
        if remaining == 0 { return 0, out, ws; }
        var read, next := ReadEntry(cluster);
        if !read || g.IsEoc(next) || next == cluster {
          StopIsTooShort(d, g, first, ws, size);
          return if read && g.IsEoc(next) then -4 else -3, out, ws;
        }
        cluster := next;
      }
      if remaining > 0 {
        StopIsTooShort(d, g, first, ws, size);
        return -4, out, ws;
      }
      return 0, out, ws;
    }

    /** The skipping loop of `fat_read_file_range_data`. It looks up any number as a cluster. */
    method SkipClusters(first: nat, offset: nat) returns (s: Skip)
      requires Valid()
      ensures s == Skipped(disk[..], g, first, offset, g.clusterCount + 2)
    {
      hide ClusterBytes, Seen, OnDisk, Geometry.Valid;
      var bytes := ClusterBytes(g);
      Bounds(g, disk.Length);
      var skip: nat, cluster: nat, guard: nat := offset, first, g.clusterCount + 2;
      while skip >= bytes && cluster >= 2 && guard > 0
        invariant Skipped(disk[..], g, cluster, skip, guard) == Skipped(disk[..], g, first, offset, g.clusterCount + 2)
        decreases guard
      {
        var read, next := ReadEntry(cluster);
        if !read { return Lost(-3); }
        if g.IsEoc(next) { return Lost(-4); }
        if next == cluster { return Lost(-3); }
        guard, skip, cluster := guard - 1, skip - bytes, next;
      }
      s := At(cluster, skip, if skip >= bytes && cluster >= 2 then TWO32 - 1 else guard);
    }

    /** The copying loop of `fat_read_file_range_data`. */
    method ReadFrom(first: nat, skip0: nat, want: nat, guard0: nat) returns (code: int, out: seq<Byte>, ghost ws: seq<nat>)
      requires Valid() && want > 0
      ensures RangeRead(disk[..], g, At(first, skip0, guard0), want, code, out, ws)
      ensures code in {0, -3, -4} && |out| <= want && (code == 0 <==> |out| == want)
    {
      hide Next, ClusterBytes, Geometry.Valid, Geometry.IsEoc, Reading, Copied, RangeRead;
      ghost var d := disk[..];
      Bounds(g, disk.Length);
      var cluster: nat, skip: nat, remaining: nat, guard := first, skip0, want, guard0;
      out, ws := [], [];
      ReadingStarts(d, g, first, skip0);
      while remaining > 0 && cluster >= 2 && guard > 0
        invariant guard == guard0 - |ws| >= 0 && remaining == want - |out| > 0
        invariant Reading(d, g, first, skip0, ws, cluster, skip, out)
        decreases guard
      {
        guard := guard - 1;
        if cluster > g.clusterCount + 1 {
          ReadingEnds(d, g, first, skip0, guard0, want, ws, cluster, skip, out);
          return -4, out, ws;
        }
        ghost var was, had, sk := ws, out, skip;
        ws := ws + [cluster];
        var piece;
        piece, skip := CopyCluster(cluster, skip, remaining);
        ReadingCopies(d, g, first, skip0, want, was, cluster, sk, had, piece, skip);
        out := out + piece;
        remaining := remaining - |piece|;
        if remaining == 0 {
          ReadingDone(d, g, first, skip0, guard0, want, ws, out);
          return 0, out, ws;
        }
        var read, next := ReadEntry(cluster);
        CopiedEnds(d, g, first, skip0, guard0, want, ws, skip, out);
        if !read { return -3, out, ws; }
        if g.IsEoc(next) { return -4, out, ws; }
        if next == cluster { return -3, out, ws; }
        CopiedGoesOn(d, g, first, skip0, ws, next, skip, out);
        cluster := next;
      }
      ReadingEnds(d, g, first, skip0, guard0, want, ws, cluster, skip, out);
      code := -4;
    }

    /** `fat_read_file_range_data`, on every table. Sizes are 64-bit: an `offset + len` that wraps is
        not clamped to the file. On a chain that holds the file the result is the slice asked for,
        if and only if the sum does not wrap. */
    method ReadFileRange(first: nat, size: nat, offset: nat, len: nat) returns (code: int, out: seq<Byte>, ghost ws: seq<nat>)
      requires Valid() && size < TWO32 && offset < TWO64 && len < TWO64
      ensures offset >= size || len == 0 ==> code == 0 && out == []
      ensures offset < size && len > 0 ==>
        var s := Skipped(disk[..], g, first, offset, g.clusterCount + 2);
        if s.Lost? then code == s.code && out == [] else RangeRead(disk[..], g, s, Clamped(size, offset, len), code, out, ws)
      ensures offset < size && len > 0 ==> ChainsRead(disk[..], g, first, size, offset, len, code, out)
      ensures len > 0 && offset + len < TWO64 ==> ReadsPart(disk[..], g, first, size, offset, len, code, out)
    {
      hide Chain, Geometry.Valid, Skipped, RangeRead, SliceRead, ClusterBytes, ChainOnDisk, OnSectorsFrom;
      out, ws := [], [];
      if offset >= size || len == 0 { return 0, out, ws; }
      var n := Clamped(size, offset, len);
      var s := SkipClusters(first, offset);
      match s {
        case Lost(c) =>
          code := c;
        case At(cluster, skip, guard) =>
          code, out, ws := ReadFrom(cluster, skip, n, guard);
      }
      forall cs | cs != [] && Chain(disk[..], g, cs) && first == cs[0] && size <= |cs| * ClusterBytes(g)
        ensures SliceRead(disk[..], g, cs, size, offset, len, code, out)
      {
        ChainSlice(disk[..], g, cs, size, offset, len, s, code, out, ws);
      }
      if offset + len < TWO64 { PartPlace(disk[..], g, first, size, offset, len, code, out); }
    }
  }

  // ----- What a range read does

  /** After skipping: the cluster to start from, the bytes still to skip and the guard, or an error. */
  datatype Skip = At(cluster: nat, skip: nat, guard: nat) | Lost(code: int)

  /** One entry for every whole cluster before the offset. The guard counts down once more when it has
      reached 0, and is 2^32 - 1 then. */
  ghost function Skipped(d: Disk, g: Geometry, c: nat, skip: nat, guard: nat): Skip
    decreases guard
  {
    if skip < ClusterBytes(g) || c < 2 then At(c, skip, guard)
    else if guard == 0 then At(c, skip, TWO32 - 1)
    else if !OnDisk(|d|, g.ftype, g.firstFatSector, c) then Lost(-3)
    else
      var n := Seen(d, g.ftype, g.firstFatSector, c);
      if g.IsEoc(n) then Lost(-4) else if n == c then Lost(-3) else Skipped(d, g, n, skip - ClusterBytes(g), guard - 1)
  }

  /** A walk that cannot go on. */
  ghost predicate Ends(d: Disk, g: Geometry, first: nat, ws: seq<nat>, limit: nat) {
    if ws == [] then !InRange(g, first) || limit == 0
    else |ws| == limit || !InRange(g, Next(d, g, ws[|ws| - 1])) || Next(d, g, ws[|ws| - 1]) == ws[|ws| - 1]
  }

  /** Reading `want` bytes from there: the walk's clusters `ws` hold them, or it ends before. */
  ghost predicate RangeRead(d: Disk, g: Geometry, s: Skip, want: nat, code: int, out: seq<Byte>, ws: seq<nat>) {
    && s.At? && |ws| <= s.guard && (ws == [] || Walk(d, g, s.cluster, ws)) && code in {0, -3, -4}
    && (code == 0 ==> ws != [] && s.skip + want <= |ws| * ClusterBytes(g) && out == Range(d, g, ws, s.skip, s.skip + want))
    && (code != 0 ==> |ws| * ClusterBytes(g) < s.skip + want && Ends(d, g, s.cluster, ws, s.guard)
                      && out == Range(d, g, ws, s.skip, if s.skip < |ws| * ClusterBytes(g) then |ws| * ClusterBytes(g) else s.skip))
    && (code == -3 ==> ws != [] && Next(d, g, ws[|ws| - 1]) == ws[|ws| - 1])
  }

  // ----- The copying loop

  /** After the clusters `ws`: their bytes behind the skipped ones are read. */
  ghost predicate Copied(d: Disk, g: Geometry, first: nat, skip0: nat, ws: seq<nat>, skip: nat, out: seq<Byte>) {
    && (ws == [] || Walk(d, g, first, ws))
    && out == Range(d, g, ws, skip0, skip0 + |out|)
    && if |ws| * ClusterBytes(g) <= skip0 then out == [] && skip == skip0 - |ws| * ClusterBytes(g)
       else skip == 0 && skip0 + |out| == |ws| * ClusterBytes(g)
  }

  /** The same with the next cluster, which is not yet checked. */
  ghost predicate Reading(d: Disk, g: Geometry, first: nat, skip0: nat, ws: seq<nat>, cluster: nat, skip: nat, out: seq<Byte>) {
    && Copied(d, g, first, skip0, ws, skip, out)
    && if ws == [] then cluster == first else cluster == Next(d, g, ws[|ws| - 1]) && cluster != ws[|ws| - 1]
  }

  lemma ReadingStarts(d: Disk, g: Geometry, first: nat, skip0: nat)
    ensures Reading(d, g, first, skip0, [], first, skip0, [])
  {
  }

  /** One cluster more: all that was wanted is there, or the cluster was read to its end. */
  lemma ReadingCopies(d: Disk, g: Geometry, first: nat, skip0: nat, want: nat, ws: seq<nat>, cluster: nat, skip: nat, out: seq<Byte>,
                      piece: seq<Byte>, left: nat)
    requires Reading(d, g, first, skip0, ws, cluster, skip, out) && InRange(g, cluster) && ClusterBytes(g) > 0 && |out| < want
    requires left == if skip < ClusterBytes(g) then 0 else skip - ClusterBytes(g)
    requires var most := want - |out|;
      |piece| == if skip >= ClusterBytes(g) then 0 else if most < ClusterBytes(g) - skip then most else ClusterBytes(g) - skip
    requires forall k: nat :: k < |piece| ==> piece[k] == ByteOf(d, g, cluster, skip + k)
    ensures Walk(d, g, first, ws + [cluster])
    ensures out + piece == Range(d, g, ws + [cluster], skip0, skip0 + |out + piece|)
    ensures |out + piece| < want ==> Copied(d, g, first, skip0, ws + [cluster], left, out + piece)
    ensures |out + piece| == want ==> skip0 + want <= |ws + [cluster]| * ClusterBytes(g)
    ensures |out + piece| <= want
  {
    hide Next, ClusterBytes, ByteOf, Range, Walk;
    var ws' := ws + [cluster];
    WalkOn(d, g, first, ws, cluster);
    MulNext(|ws|, ClusterBytes(g));
    PrefixRange(d, g, ws, ws', skip0, skip0 + |out|);
    if skip < ClusterBytes(g) { RangeExtends(d, g, ws', skip0, out, |ws|, skip, piece); }
  }

  lemma CopiedGoesOn(d: Disk, g: Geometry, first: nat, skip0: nat, ws: seq<nat>, next: nat, skip: nat, out: seq<Byte>)
    requires Copied(d, g, first, skip0, ws, skip, out) && ws != [] && next == Next(d, g, ws[|ws| - 1]) && next != ws[|ws| - 1]
    ensures Reading(d, g, first, skip0, ws, next, skip, out)
  {
  }

  lemma ReadingDone(d: Disk, g: Geometry, first: nat, skip0: nat, guard0: nat, want: nat, ws: seq<nat>, out: seq<Byte>)
    requires Walk(d, g, first, ws) && |ws| <= guard0 && skip0 + want <= |ws| * ClusterBytes(g)
    requires |out| == want && out == Range(d, g, ws, skip0, skip0 + want)
    ensures RangeRead(d, g, At(first, skip0, guard0), want, 0, out, ws)
  {
  }

  /** The walk ends at a number that is no cluster, or with the guard. */
  lemma ReadingEnds(d: Disk, g: Geometry, first: nat, skip0: nat, guard0: nat, want: nat, ws: seq<nat>, cluster: nat, skip: nat, out: seq<Byte>)
    requires Reading(d, g, first, skip0, ws, cluster, skip, out) && |out| < want && |ws| <= guard0
    requires !InRange(g, cluster) || |ws| == guard0
    ensures RangeRead(d, g, At(first, skip0, guard0), want, -4, out, ws)
  {
    hide Next, ClusterBytes, Range, Walk;
  }

  lemma CopiedEnds(d: Disk, g: Geometry, first: nat, skip0: nat, guard0: nat, want: nat, ws: seq<nat>, skip: nat, out: seq<Byte>)
    requires Copied(d, g, first, skip0, ws, skip, out) && |out| < want && ws != [] && |ws| <= guard0
    ensures !InRange(g, Next(d, g, ws[|ws| - 1])) ==> RangeRead(d, g, At(first, skip0, guard0), want, -4, out, ws)
    ensures Next(d, g, ws[|ws| - 1]) == ws[|ws| - 1] ==> RangeRead(d, g, At(first, skip0, guard0), want, -3, out, ws)
  {
    hide Next, ClusterBytes, Range, Walk;
  }

  /** The number of bytes asked for, cut to the end of the file unless the 64-bit sum wraps. */
  function Clamped(size: nat, offset: nat, len: nat): nat
    requires offset < size
  {
    if (offset + len) % TWO64 > size then size - offset else len
  }

  /** What a range read promises for a file of `size` bytes on the chain `cs`. */
  ghost predicate SliceRead(d: Disk, g: Geometry, cs: seq<nat>, size: nat, offset: nat, len: nat, code: int, out: seq<Byte>)
    requires offset < size
  {
    && (code == 0 <==> offset + len < TWO64)
    && (code == 0 ==> out == Content(d, g, cs, size)[offset..if offset + len < size then offset + len else size])
    && (code != 0 ==> code == -4 && offset <= |cs| * ClusterBytes(g) && out == Range(d, g, cs, offset, |cs| * ClusterBytes(g)))
  }

  /** It keeps the promise on every chain that holds the file. */
  ghost predicate ChainsRead(d: Disk, g: Geometry, first: nat, size: nat, offset: nat, len: nat, code: int, out: seq<Byte>)
    requires offset < size
  {
    forall cs :: cs != [] && Chain(d, g, cs) && first == cs[0] && size <= |cs| * ClusterBytes(g) ==>
      SliceRead(d, g, cs, size, offset, len, code, out)
  }

  /** On a chain the skipping loop stops in the cluster of the offset. */
  lemma {:induction false} SkipsAlong(d: Disk, g: Geometry, cs: seq<nat>, i: nat, skip: nat, guard: nat) returns (j: nat)
    requires g.Valid(|d|) && Chain(d, g, cs) && i < |cs| && i * ClusterBytes(g) + skip < |cs| * ClusterBytes(g) && guard >= |cs| - i
    ensures i <= j < |cs| && Skipped(d, g, cs[i], skip, guard).At?
    ensures var s := Skipped(d, g, cs[i], skip, guard);
      && s.cluster == cs[j] && i * ClusterBytes(g) + skip == j * ClusterBytes(g) + s.skip && s.skip < ClusterBytes(g)
      && s.guard == guard - (j - i) >= |cs| - j
    decreases guard
  {
    hide Next, ClusterBytes, Chain, Geometry.Valid, Geometry.IsEoc, Seen, OnDisk;
    j := i;
    var bytes := ClusterBytes(g);
    if skip >= bytes {
      ChainNext(d, g, cs, i, |d|);
      ClusterSeen(d, g, cs[i]);
      MulNext(i, bytes);
      MulMono(|cs|, i + 1, bytes);
      j := SkipsAlong(d, g, cs, i + 1, skip - bytes, guard - 1);
    }
  }

  /** What a walk that starts inside a chain follows is a piece of the chain. */
  lemma InsideChain(d: Disk, g: Geometry, cs: seq<nat>, j: nat, ws: seq<nat>)
    requires g.Valid(|d|) && Chain(d, g, cs) && j < |cs| && Walk(d, g, cs[j], ws)
    ensures |ws| <= |cs| - j && ws == cs[j..j + |ws|]
  {
    hide Next, Geometry.Valid, Geometry.IsEoc;
    var rest := cs[j..];
    forall i | 0 <= i < |rest| - 1
      ensures Next(d, g, rest[i]) == rest[i + 1]
    {
      assert Next(d, g, cs[j + i]) == cs[j + i + 1];
    }
    var n := if |ws| < |rest| then |ws| else |rest|;
    SharedPrefix(d, g, ws, rest, n);
    if |ws| > |rest| {
      assert ws[n - 1] == ws[..n][n - 1] == rest[..n][n - 1] == cs[|cs| - 1];
      LinkedOn(d, g, ws, n - 1);
      ChainNext(d, g, cs, |cs| - 1, |d|);
      Bounds(g, |d|);
      assert false;
    }
    assert ws == ws[..n] == rest[..n];
  }

  /** It ends only at the chain's end. */
  lemma EndsAtEnd(d: Disk, g: Geometry, cs: seq<nat>, j: nat, ws: seq<nat>, limit: nat)
    requires g.Valid(|d|) && Chain(d, g, cs) && j < |cs| && limit >= |cs| - j && |ws| <= limit
    requires ws == [] || Walk(d, g, cs[j], ws)
    requires Ends(d, g, cs[j], ws, limit)
    ensures ws == cs[j..] && Next(d, g, ws[|ws| - 1]) != ws[|ws| - 1]
  {
    hide Next, Geometry.Valid, Geometry.IsEoc, Chain, Walk;
    Bounds(g, |d|);
    ChainNext(d, g, cs, j, |d|);
    if ws != [] {
      InsideChain(d, g, cs, j, ws);
      var k := j + |ws| - 1;
      assert ws[|ws| - 1] == cs[k];
      ChainNext(d, g, cs, k, |d|);
      if k + 1 < |cs| { ChainNext(d, g, cs, k + 1, |d|); }
    }
  }

  lemma ChainSlice(d: Disk, g: Geometry, cs: seq<nat>, size: nat, offset: nat, len: nat, s: Skip, code: int, out: seq<Byte>, ws: seq<nat>)
    requires g.Valid(|d|) && Chain(d, g, cs) && offset < size <= |cs| * ClusterBytes(g) && size < TWO32 && 0 < len < TWO64
    requires s == Skipped(d, g, cs[0], offset, g.clusterCount + 2)
    requires s.At? ==> RangeRead(d, g, s, Clamped(size, offset, len), code, out, ws)
    ensures SliceRead(d, g, cs, size, offset, len, code, out)
  {
    hide Next, Geometry.Valid, Chain, Walk, Skipped, ClusterBytes, Ends, Clamped, Content, Range, SliceRead;
    ChainBounds(d, g, cs, |d|);
    var j := SkipsAlong(d, g, cs, 0, offset, g.clusterCount + 2);
    ClampedIs(size, offset, len, |cs| * ClusterBytes(g));
    if code == 0 {
      SliceWhole(d, g, cs, size, offset, len, s, j, out, ws);
    } else {
      SliceCut(d, g, cs, size, offset, len, s, j, code, out, ws);
    }
  }

  /** The skipping loop has come to cluster `j` of the chain. */
  ghost predicate SkippedTo(g: Geometry, cs: seq<nat>, offset: nat, s: Skip, j: nat) {
    && j < |cs| && s.At? && s.cluster == cs[j] && s.guard >= |cs| - j
    && offset == j * ClusterBytes(g) + s.skip && s.skip < ClusterBytes(g)
  }

  lemma SliceWhole(d: Disk, g: Geometry, cs: seq<nat>, size: nat, offset: nat, len: nat, s: Skip, j: nat, out: seq<Byte>, ws: seq<nat>)
    requires g.Valid(|d|) && Chain(d, g, cs) && offset < size <= |cs| * ClusterBytes(g) < TWO64 - TWO32 && size < TWO32 && 0 < len < TWO64
    requires SkippedTo(g, cs, offset, s, j) && RangeRead(d, g, s, Clamped(size, offset, len), 0, out, ws)
    ensures SliceRead(d, g, cs, size, offset, len, 0, out)
  {
    hide Next, Geometry.Valid, Chain, Walk, ClusterBytes, Ends, Clamped, Content, Range;
    var bytes, n := ClusterBytes(g), Clamped(size, offset, len);
    ClampedIs(size, offset, len, |cs| * bytes);
    MulSum(j, |cs| - j, bytes);
    MulMono(1, |cs| - j, bytes);
    InsideChain(d, g, cs, j, ws);
    MulMono(|ws|, |cs| - j, bytes);
    assert ws <= cs[j..];
    PrefixRange(d, g, ws, cs[j..], s.skip, s.skip + n);
    SuffixRange(d, g, cs, j, s.skip, s.skip + n);
    SliceOfContent(d, g, cs, size, offset, offset + n);
  }

  lemma SliceCut(d: Disk, g: Geometry, cs: seq<nat>, size: nat, offset: nat, len: nat, s: Skip, j: nat, code: int, out: seq<Byte>, ws: seq<nat>)
    requires g.Valid(|d|) && Chain(d, g, cs) && offset < size <= |cs| * ClusterBytes(g) < TWO64 - TWO32 && size < TWO32 && 0 < len < TWO64
    requires code != 0 && SkippedTo(g, cs, offset, s, j) && RangeRead(d, g, s, Clamped(size, offset, len), code, out, ws)
    ensures SliceRead(d, g, cs, size, offset, len, code, out)
  {
    hide Next, Geometry.Valid, Chain, Walk, ClusterBytes, Ends, Clamped, Content, Range;
    var bytes := ClusterBytes(g);
    ClampedIs(size, offset, len, |cs| * bytes);
    MulSum(j, |cs| - j, bytes);
    MulMono(1, |cs| - j, bytes);
    EndsAtEnd(d, g, cs, j, ws, s.guard);
    SuffixRange(d, g, cs, j, s.skip, (|cs| - j) * bytes);
  }

  /** Reading a file written as a whole: the size in its entry has 32 bits. */
  lemma WholeRead(d: Disk, g: Geometry, cs: seq<nat>, data: seq<Byte>, size: nat, ok: bool, ws: seq<nat>, whole: seq<Byte>)
    requires g.Valid(|d|) && Chain(d, g, cs) && Kept(g, |data|) <= |data| && Kept(g, |data|) <= |cs| * ClusterBytes(g)
    requires Content(d, g, cs, Kept(g, |data|)) == data[..Kept(g, |data|)] && size == |data| % TWO32
    requires |data| < TWO32 ==> Kept(g, |data|) == |data|
    requires |whole| <= size && (ok ==> whole == Content(d, g, ws, size)) && (size == 0 ==> ok)
    requires ok && size > 0 ==> Walk(d, g, cs[0], ws) && size <= |ws| * ClusterBytes(g)
    requires !ok ==> TooShort(d, g, cs[0], size)
    ensures whole == data <==> |data| < TWO32
    ensures size <= Kept(g, |data|) ==> whole == data[..size]
  {
    hide Chain, Walk, TooShort, ClusterBytes, Kept, Geometry.Valid, FileByte;
    if 0 < size <= Kept(g, |data|) {
      ReadIsContent(d, g, cs, size, ok, ws);
      SliceOfContent(d, g, cs, Kept(g, |data|), 0, size);
    }
  }

  lemma PartRead(d: Disk, g: Geometry, cs: seq<nat>, data: seq<Byte>, offset: nat, len: nat, code: int, part: seq<Byte>)
    requires cs != [] && Chain(d, g, cs) && |data| <= |cs| * ClusterBytes(g) && Content(d, g, cs, |data|) == data
    requires offset >= |data| || len == 0 ==> part == []
    requires offset < |data| && len > 0 ==> ChainsRead(d, g, cs[0], |data|, offset, len, code, part)
    ensures offset <= |data| && offset + len < TWO64 ==> part == data[offset..if offset + len < |data| then offset + len else |data|]
  {
    hide Chain, Content, ClusterBytes;
  }

  // ----- Data that is too long

  /** 2^41 + 1 bytes with clusters of 512: the number of clusters is 2^32 + 1 and is cut to 1, the size
      likewise. One free cluster is enough, and one byte is read back. */
  method WriteTooMuch(fs: FatFs, data: seq<Byte>) returns (ok: bool, whole: seq<Byte>)
    requires fs.Valid() && fs.g.sectorsPerCluster == 1 && |data| == 0x200_0000_0001 && FreeSet(fs.disk[..], fs.g) != {}
    modifies fs, fs.disk
    ensures ok && whole == data[..1]
  {
    hide FreeSet, Stored, Chain, Geometry.Valid, Rounded, Kept, Content;
    CutNumbers(fs.g);
    ok, whole := WriteAndReadBack(fs, data);
  }

  /** 2^32 bytes on a volume with room for them: the size is cut to 0. */
  method WriteAllForNothing(fs: FatFs, data: seq<Byte>) returns (ok: bool, whole: seq<Byte>)
    requires fs.Valid() && fs.g.sectorsPerCluster == 1 && |data| == TWO32 && |FreeSet(fs.disk[..], fs.g)| >= 0x80_0000
    modifies fs, fs.disk
    ensures ok && whole == []
  {
    hide FreeSet, Stored, Chain, Geometry.Valid, Rounded, Kept, Content;
    CutNumbers(fs.g);
    ok, whole := WriteAndReadBack(fs, data);
  }

  lemma CutNumbers(g: Geometry)
    requires g.sectorsPerCluster == 1
    ensures Rounded(g, 0x200_0000_0001) == 1 && Kept(g, 0x200_0000_0001) == 512
    ensures Rounded(g, TWO32) == 0x80_0000 && Kept(g, TWO32) == TWO32
  {
  }

  /** Writes a file and reads as many bytes as the 32-bit size says. */
  method WriteAndReadBack(fs: FatFs, data: seq<Byte>) returns (ok: bool, whole: seq<Byte>)
    requires fs.Valid() && 0 < |data| < TWO64
    modifies fs, fs.disk
    ensures ok <==> 0 < Rounded(fs.g, |data|) <= |old(FreeSet(fs.disk[..], fs.g))|
    ensures ok && |data| % TWO32 <= Kept(fs.g, |data|) ==> |data| % TWO32 <= |data| && whole == data[..|data| % TWO32]
  {
    hide FreeSet, Geometry.Valid, Rounded, Kept, Content, Chain, EntriesSet, OnlyTheirs, CopiesEqual, ClusterBytes;
    SomeClusters(fs.g, fs.disk.Length, |data|);
    whole := [];
    var first;
    ghost var cs;
    ok, first, cs := fs.WritePayload(data);
    if !ok { return; }
    var code;
    ghost var ws;
    code, whole, ws := fs.ReadFileData(first, |data| % TWO32, |data| % TWO32);
    WholeRead(fs.disk[..], fs.g, cs, data, |data| % TWO32, code == 0, ws, whole);
  }

  // ----- A range read that fails

  /** A floppy of four sectors: one table of twelve-bit entries and two clusters. */
  const FLOPPY := Geometry(Fat12, 1, 1, 1, 1, 2, 2)

  /** A file of two bytes is written to it, and the range from byte 1 to the largest length is asked
      for: the sum wraps to nothing, the length is not cut down to the file, and the read fails. */
  method WrappedRange() returns (code: int)
    ensures code == -4
  {
    hide Stored, Chain, SliceRead, RangeRead, Skipped, ClusterBytes, Geometry.Valid;
    var fs := EmptyFloppy();
    var ok, first, out;
    ghost var cs, ws, d := [], [], fs.disk[..];
    ok, first, cs := fs.WritePayload([7, 8]);
    TwoBytes(d, fs.disk[..], cs, [7, 8][..Kept(FLOPPY, 2)]);
    code, out, ws := fs.ReadFileRange(first, 2, 1, TWO64 - 1);
    WrapFails(fs.disk[..], cs, code, out);
  }

  method EmptyFloppy() returns (fs: FatFs)
    ensures fresh(fs) && fresh(fs.disk) && fs.Valid() && fs.g == FLOPPY && fs.disk.Length == 4
    ensures forall s :: 0 <= s < 4 ==> fs.disk[s] == seq(SECTOR, _ => 0)
    ensures Rounded(FLOPPY, 2) == 1 <= |FreeSet(fs.disk[..], FLOPPY)|
  {
    var empty: Sector := seq(SECTOR, _ => 0);
    var disk := new Sector[4](_ => empty);
    FloppyIsValid();
    FloppyIsFree(disk[..], empty);
    fs := new FatFs(disk, FLOPPY);
  }

  lemma TwoBytes(d: Disk, d': Disk, cs: seq<nat>, data: seq<Byte>)
    requires |d'| == 4 && Stored(d, d', FLOPPY, cs, data) && cs != []
    ensures Chain(d', FLOPPY, cs) && 2 <= |cs| * ClusterBytes(FLOPPY)
  {
    MulMono(1, |cs|, SECTOR);
  }

  lemma WrapFails(d: Disk, cs: seq<nat>, code: int, out: seq<Byte>)
    requires SliceRead(d, FLOPPY, cs, 2, 1, TWO64 - 1, code, out)
    ensures code == -4
  {
  }

  /** A file fills both clusters of the floppy, and a chain is freed from the corrupt number 341, which
      passes no check: the first byte of the file's cluster 2 is cleared. */
  method StrayFree() returns (before: Byte, after: Byte)
    ensures before == 7 && after == 0
  {
    hide Stored, Chain, StrayFreed, Geometry.Valid;
    var fs := EmptyFloppy();
    var ok, first;
    ghost var cs, d := [], fs.disk[..];
    var sevens: seq<Byte> := seq(1024, _ => 7);
    FloppyHolds(d);
    assert sevens[..1024] == sevens;
    ok, first, cs := fs.WritePayload(sevens);
    ghost var d1 := fs.disk[..];
    StoredFacts(d, d1, FLOPPY, cs, sevens);
    SevensEverywhere(d1, cs, sevens);
    before := fs.disk[2][0];
    ghost var path;
    ok, path := fs.FreeChain(341);
    StrayByte(d1, fs.disk[..], ok, path);
    after := fs.disk[2][0];
  }

  lemma FloppyHolds(d: Disk)
    requires |d| == 4 && forall s :: 0 <= s < 4 ==> d[s] == seq(SECTOR, _ => 0)
    ensures Rounded(FLOPPY, 1024) == 2 <= |FreeSet(d, FLOPPY)| && Kept(FLOPPY, 1024) == 1024
  {
    assert forall o: nat :: o < SECTOR ==> ByteAt(d, 1, o) == 0;
    assert Word16(d, 1, 3) == 0 && Word16(d, 1, 4) == 0;
    assert Next(d, FLOPPY, 2) == 0 && Next(d, FLOPPY, 3) == 0;
    assert {2, 3} <= FreeSet(d, FLOPPY);
    SetsBelow({2, 3}, FreeSet(d, FLOPPY));
  }

  lemma SetsBelow(a: set<nat>, b: set<nat>)
    requires a <= b
    ensures |a| <= |b|
  {
    assert b == a + (b - a);
  }

  lemma StoredFacts(d: Disk, d': Disk, g: Geometry, cs: seq<nat>, data: seq<Byte>)
    requires Stored(d, d', g, cs, data)
    ensures AllInRange(g, cs) && Distinct(cs) && Content(d', g, cs, |data|) == data && |d'| == |d|
  {
    hide Content, EntriesSet, FreeSet, CopiesEqual;
  }

  lemma SevensEverywhere(d: Disk, cs: seq<nat>, data: seq<Byte>)
    requires |d| == 4 && AllInRange(FLOPPY, cs) && Distinct(cs) && |cs| == 2
    requires |data| == 1024 && (forall x :: 0 <= x < 1024 ==> data[x] == 7) && Content(d, FLOPPY, cs, 1024) == data
    ensures d[2][0] == 7
  {
    hide FileByte, Content;
    var i: nat := if cs[0] == 2 then 0 else 1;
    assert InRange(FLOPPY, cs[0]) && InRange(FLOPPY, cs[1]);
    FileByteAt(d, FLOPPY, cs, i, 0);
    ContentAt(d, FLOPPY, cs, 1024, i * 512);
  }

  lemma ContentAt(d: Disk, g: Geometry, cs: seq<nat>, n: nat, x: nat)
    requires x < n
    ensures Content(d, g, cs, n)[x] == FileByte(d, g, cs, x)
  {
  }

  lemma StrayByte(d: Disk, d': Disk, ok: bool, path: seq<nat>)
    requires |d| == 4 && StrayFreed(d, d', FLOPPY, 341, ok, path)
    ensures |d'| == 4 && d'[2][0] == 0
  {
    hide Trail, PutSeen, Seen, SeenStep, InCopies;
    StrayOnFloppy(d);
    var d1 := SeenCopies(d, FLOPPY, 341, 0, 1);
    OneCopy(d);
    if ok { OutsideOf(d1, d', FLOPPY, Zeroes(path)); }
  }

  lemma OneCopy(d: Disk)
    requires |d| == 4 && OnDisk(4, Fat12, 1, 341)
    ensures SeenCopies(d, FLOPPY, 341, 0, 1) == PutSeen(d, Fat12, 1, 341, 0)
  {
    hide PutSeen, OnDisk;
    assert SeenCopies(d, FLOPPY, 341, 0, 0) == d;
    assert FLOPPY.CopyBase(0) == 1;
  }

  lemma StrayOnFloppy(d: Disk)
    requires |d| == 4
    ensures OnDisk(4, Fat12, 1, 341) && PutSeen(d, Fat12, 1, 341, 0)[2][0] == 0
  {
    hide Word16, Put16;
    assert Offset32(Fat12, 341) == 511;
    var v := Mix12(Word16(d, 1, 511), true, 0);
    assert v < 16;
    HighByte(d, v);
  }

  lemma HighByte(d: Disk, v: nat)
    requires |d| == 4 && v < 65536
    ensures Put16(d, 1, 511, v)[2][0] == v / 256
  {
  }

  lemma OutsideOf(d: Disk, d': Disk, g: Geometry, m: map<nat, nat>)
    requires TableStep(d, d', g, m)
    ensures OutsideSame(d, d', g)
  {
    hide InCopies;
  }

  lemma FloppyIsValid()
    ensures FLOPPY.Valid(4)
  {
  }

  lemma FloppyIsFree(d: Disk, empty: Sector)
    requires |d| == 4 && (forall k: nat :: k < SECTOR ==> empty[k] == 0) && forall s: nat :: s < 4 ==> d[s] == empty
    ensures Rounded(FLOPPY, 2) == 1 <= |FreeSet(d, FLOPPY)|
  {
    assert forall o: nat :: o < SECTOR ==> ByteAt(d, 1, o) == 0;
    assert Word16(d, 1, 3) == 0;
    assert Next(d, FLOPPY, 2) == 0;
    assert 2 in FreeSet(d, FLOPPY);
  }

  /** How many clusters the driver allocates for `len` bytes: sizes are 64-bit, the number 32-bit. */
  function Rounded(g: Geometry, len: nat): nat {
    RoundedTo(len, ClusterBytes(g))
  }

  function RoundedTo(len: nat, n: nat): nat {
    if n == 0 then 0 else Cut(Cut(len + n - 1, TWO64) / n, TWO32)
  }

  function Cut(x: nat, m: nat): nat
    requires m > 0
  {
    x % m
  }

  /** How many of the bytes these clusters hold. */
  function Kept(g: Geometry, len: nat): nat {
    if len < Rounded(g, len) * ClusterBytes(g) then len else Rounded(g, len) * ClusterBytes(g)
  }

  lemma SomeClusters(g: Geometry, sectors: nat, len: nat)
    requires g.Valid(sectors)
    ensures Kept(g, len) <= len && Kept(g, len) <= Rounded(g, len) * ClusterBytes(g)
    ensures len > 0 && Rounded(g, len) > 0 ==> (Rounded(g, len) - 1) * ClusterBytes(g) < Kept(g, len)
    ensures 0 < len < TWO32 ==> Rounded(g, len) > 0
    ensures len < TWO32 ==> Kept(g, len) == len
  {
    ClusterSize(g, sectors);
    hide ClusterBytes, Geometry.Valid;
    RoundedBelow(len, ClusterBytes(g));
    var r := Rounded(g, len);
    if r > 0 { MulNext(r - 1, ClusterBytes(g)); }
  }

  lemma ClusterSize(g: Geometry, sectors: nat)
    requires g.Valid(sectors)
    ensures g.sectorsPerCluster > 0 && 0 < ClusterBytes(g) < 0x2_0000
  {
  }

  /** Cutting the number of clusters makes it no larger, and leaves small ones alone. */
  lemma RoundedBelow(len: nat, n: nat)
    requires 0 < n < 0x2_0000
    ensures var r := RoundedTo(len, n);
      && (len > 0 && r > 0 ==> (r - 1) * n < len)
      && (len < TWO32 ==> len <= r * n && (len > 0 ==> r > 0))
  {
    hide Cut;
    var x := len + n - 1;
    var q, p := x / n, Cut(x, TWO64) / n;
    DivParts(x, n);
    CutDown(x, TWO64);
    DivUpTo(Cut(x, TWO64), q, n);
    CutDown(p, TWO32);
    var r := Cut(p, TWO32);
    if r > 0 {
      MulMono(r - 1, q - 1, n);
      MulNext(q - 1, n);
    }
    if len < TWO32 {
      MulMono(1, n, len);
      DivUpTo(x, len, n);
    }
  }

  lemma DivParts(x: nat, n: nat)
    requires n > 0
    ensures x / n * n <= x < x / n * n + n
  {
  }

  lemma CutDown(x: nat, m: nat)
    requires m > 0
    ensures Cut(x, m) <= x && (x < m ==> Cut(x, m) == x)
  {
  }

  lemma DivUpTo(x: nat, k: nat, n: nat)
    requires n > 0 && x < k * n + n
    ensures x / n <= k
  {
    var q := x / n;
    assert x == q * n + x % n;
    MulMono(k + 1, q, n);
    MulNext(k, n);
  }

  /** `cs` were free in `d`; in `d'` they are a chain that holds the data, and nothing else changed. */
  ghost predicate Stored(d: Disk, d': Disk, g: Geometry, cs: seq<nat>, data: seq<Byte>) {
    && (forall i :: 0 <= i < |cs| ==> cs[i] in FreeSet(d, g))
    && Chain(d', g, cs) && |data| <= |cs| * ClusterBytes(g) && Content(d', g, cs, |data|) == data
    && EntriesSet(d, d', g, LinkMap(cs, g.EocValue()))
    && OnlyTheirs(d, d', g, cs)
    && (CopiesEqual(d, g) ==> CopiesEqual(d', g))
  }

  lemma StoredPlace(d: Disk, d': Disk, g: Geometry, cs: seq<nat>, data: seq<Byte>)
    requires g.Valid(|d'|) && Stored(d, d', g, cs, data)
    ensures FileOnDisk(d', g, cs, data)
  {
    hide Chain, Content, EntriesSet, OnlyTheirs, CopiesEqual, FreeSet, FileOnDisk, Geometry.Valid, ClusterBytes;
    FilePlace(d', g, cs, data);
  }

  /** Sectors outside the tables and outside the clusters `cs` are the same. */
  ghost predicate OnlyTheirs(d: Disk, d': Disk, g: Geometry, cs: seq<nat>) {
    && |d'| == |d|
    && forall s: nat :: s < |d| && (s < g.firstFatSector || g.CopyBase(g.fatCount) <= s) && NotIn(g, cs, s) ==> d'[s] == d[s]
  }

  lemma PayloadStored(d: Disk, d1: Disk, d2: Disk, g: Geometry, cs: seq<nat>, data: seq<Byte>)
    requires g.Valid(|d1|) && NewChain(d, d1, g, cs) && cs != [] && |data| <= |cs| * ClusterBytes(g)
    requires Written(d2, g, cs, data, |cs|) && OnlyClusters(d1, d2, g, cs)
    ensures Stored(d, d2, g, cs, data)
  {
    hide Written, FreeSet, Geometry.EntryCount, Next, ByteOf, CopiesEqual, Distinct;
    NewChainInRange(d, d1, g, cs, |d1|);
    NewChainIsChain(d, d1, g, cs, |d1|);
    ContentWritten(d2, g, cs, data);
    DataKeepsTables(d1, d2, g, cs);
    ChainKept(d1, d2, g, cs, map[]);
    hide OnlyClusters, InRange, ClusterBytes, Content;
    TableThenData(d, d1, d2, g, cs);
  }

  lemma TableThenData(d: Disk, d1: Disk, d2: Disk, g: Geometry, cs: seq<nat>)
    requires OutsideSame(d, d1, g) && OnlyClusters(d1, d2, g, cs)
    ensures OnlyTheirs(d, d2, g, cs)
  {
  }

  /** Writing into clusters leaves every copy of the table as it was. */
  lemma DataKeepsTables(d: Disk, d': Disk, g: Geometry, cs: seq<nat>)
    requires g.Valid(|d|) && AllInRange(g, cs) && OnlyClusters(d, d', g, cs)
    ensures EntriesSet(d, d', g, map[])
    ensures CopiesEqual(d, g) ==> CopiesEqual(d', g)
  {
    hide Geometry.EntryCount;
    forall s: nat | s < g.CopyBase(g.fatCount)
      ensures s < |d| && d'[s] == d[s]
    {
      TableSectorNotIn(d, g, cs, s);
    }
    hide OnlyClusters, Entry, Geometry.CopyBase;
    TablesBeforeData(g, |d|, 0);
    forall e: nat | g.InTable(e)
      ensures Next(d', g, e) == Next(d, g, e)
    {
      SameSectorsSameEntry(d, d', g, g.CopyBase(0), e);
    }
    forall k: nat | k < g.fatCount
      ensures g.CopyBase(k) + g.sectorsPerFat <= |d| && CopyOf(d', g, k) == CopyOf(d, g, k)
    {
      TablesBeforeData(g, |d|, k);
    }
  }

  lemma TableSectorNotIn(d: Disk, g: Geometry, cs: seq<nat>, s: nat)
    requires g.Valid(|d|) && AllInRange(g, cs) && s < g.CopyBase(g.fatCount)
    ensures s < |d| && NotIn(g, cs, s)
  {
    hide Geometry.EntryCount;
    TablesBeforeData(g, |d|, g.fatCount - 1);
    forall i | 0 <= i < |cs|
      ensures !InCluster(g, cs[i], s)
    {
      ClusterOnDisk(g, |d|, cs[i]);
    }
  }

  /** A chain none of whose entries are set stays the same chain. */
  lemma ChainKept(d: Disk, d': Disk, g: Geometry, es: seq<nat>, m: map<nat, nat>)
    requires g.Valid(|d|) && EntriesSet(d, d', g, m) && Chain(d, g, es) && forall i :: 0 <= i < |es| ==> es[i] !in m
    ensures Chain(d', g, es)
  {
    hide Next;
    forall i | 0 <= i < |es|
      ensures Next(d', g, es[i]) == Next(d, g, es[i])
    {
      MaxIsCount(g, |d|);
      ValidClusterInTable(g, es[i]);
    }
  }

  /** Members of an existing chain are not free. */
  lemma ChainNotFree(d: Disk, g: Geometry, es: seq<nat>)
    requires g.Valid(|d|) && Chain(d, g, es)
    ensures forall i :: 0 <= i < |es| ==> es[i] !in FreeSet(d, g)
  {
    forall i | 0 <= i < |es|
      ensures Next(d, g, es[i]) != 0
    {
      ChainNext(d, g, es, i, |d|);
      hide Next;
      if i + 1 < |es| { assert InRange(g, es[i + 1]); }
    }
  }

  /** A table step that sets none of a file's entries keeps its chain and its content. */
  lemma OtherKept(d: Disk, d': Disk, g: Geometry, es: seq<nat>, n: nat)
    requires g.Valid(|d|) && Chain(d, g, es) && SeenStep(d, d', g, map[])
    ensures Chain(d', g, es) && Content(d', g, es, n) == Content(d, g, es, n)
  {
    hide Next, CopiesEqual, Geometry.EntryCount, Content;
    ChainKept(d, d', g, es, map[]);
    OnlyTheirsContent(d, d', g, [], es, n);
  }

  lemma OnlyTheirsContent(d: Disk, d': Disk, g: Geometry, cs: seq<nat>, es: seq<nat>, n: nat)
    requires g.Valid(|d|) && OnlyTheirs(d, d', g, cs) && AllInRange(g, es) && forall i :: 0 <= i < |es| ==> es[i] !in cs
    ensures Content(d', g, es, n) == Content(d, g, es, n)
  {
    hide ByteOf, OnlyTheirs, Geometry.EntryCount, Range, ClusterBytes;
    forall x: nat | x < n
      ensures FileByte(d', g, es, x) == FileByte(d, g, es, x)
    {
      Bounds(g, |d|);
      var bytes := ClusterBytes(g);
      if x / bytes < |es| { OnlyTheirsByte(d, d', g, cs, es[x / bytes], x % bytes); }
    }
  }

  lemma OnlyTheirsByte(d: Disk, d': Disk, g: Geometry, cs: seq<nat>, e: nat, k: nat)
    requires g.Valid(|d|) && OnlyTheirs(d, d', g, cs) && InRange(g, e) && e !in cs && k < ClusterBytes(g)
    ensures ByteOf(d', g, e, k) == ByteOf(d, g, e, k)
  {
    hide Geometry.EntryCount;
    var s := g.ClusterSector(e) + k / SECTOR;
    assert InCluster(g, e, s);
    ClusterOnDisk(g, |d|, e);
    forall i | 0 <= i < |cs|
      ensures !InCluster(g, cs[i], s)
    {
      ClustersDisjoint(g, e, cs[i], s);
    }
  }

  /** Every file that was there keeps its chain and its content when another one is stored. */
  lemma OthersUntouched(d: Disk, d': Disk, g: Geometry, cs: seq<nat>, data: seq<Byte>, es: seq<nat>, n: nat)
    requires g.Valid(|d|) && Stored(d, d', g, cs, data) && Chain(d, g, es)
    ensures Chain(d', g, es) && Content(d', g, es, n) == Content(d, g, es, n)
    ensures forall i :: 0 <= i < |es| ==> es[i] !in cs
  {
    hide Next, CopiesEqual, Geometry.EntryCount, FreeSet, Content, OnlyTheirs;
    ChainNotFree(d, g, es);
    LinkMapEntries(cs, g.EocValue());
    ChainKept(d, d', g, es, LinkMap(cs, g.EocValue()));
    OnlyTheirsContent(d, d', g, cs, es, n);
  }

  lemma PartPlace(d: Disk, g: Geometry, first: nat, size: nat, offset: nat, len: nat, code: int, out: seq<Byte>)
    requires g.Valid(|d|) && offset < size && offset + len < TWO64 && ChainsRead(d, g, first, size, offset, len, code, out)
    ensures ReadsPart(d, g, first, size, offset, len, code, out)
  {
    hide Chain, ChainOnDisk, Content, Geometry.Valid, Range, FileByte, SectorOf;
    forall cs | cs != [] && ChainOnDisk(d, g, cs) && cs[0] == first && size <= |cs| * (g.sectorsPerCluster * 512)
      ensures code == 0 && |out| == (if offset + len < size then len else size - offset) && OnSectorsFrom(d, g, cs, offset, out)
    {
      ChainPlace(d, g, cs);
      assert SliceRead(d, g, cs, size, offset, len, code, out);
      var whole := Content(d, g, cs, size);
      FilePlace(d, g, cs, whole);
      assert forall x :: 0 <= x < |out| ==> out[x] == whole[offset + x];
    }
  }

  lemma ReadPlace(d: Disk, g: Geometry, first: nat, size: nat, code: int, out: seq<Byte>, ws: seq<nat>)
    requires g.Valid(|d|) && size > 0
    requires code == 0 ==> out == Content(d, g, ws, size) && Walk(d, g, first, ws) && size <= |ws| * ClusterBytes(g)
    requires code != 0 ==> TooShort(d, g, first, size)
    ensures ReadsFile(d, g, first, size, code, out)
  {
    hide Chain, ChainOnDisk, Content, OnSectors, Walk, TooShort, Geometry.Valid, Range, FileByte;
    forall cs | cs != [] && ChainOnDisk(d, g, cs) && cs[0] == first && size <= |cs| * (g.sectorsPerCluster * 512)
      ensures code == 0 && |out| == size && OnSectors(d, g, cs, out)
    {
      ChainPlace(d, g, cs);
      ReadIsContent(d, g, cs, size, code == 0, ws);
      FilePlace(d, g, cs, Content(d, g, cs, size));
    }
  }

  /** Reading a well-formed chain long enough for the size succeeds with its content. */
  lemma ReadIsContent(d: Disk, g: Geometry, cs: seq<nat>, size: nat, ok: bool, ws: seq<nat>)
    requires g.Valid(|d|) && Chain(d, g, cs) && 0 < size <= |cs| * ClusterBytes(g)
    requires ok ==> Walk(d, g, cs[0], ws) && size <= |ws| * ClusterBytes(g)
    requires !ok ==> TooShort(d, g, cs[0], size)
    ensures ok && Content(d, g, ws, size) == Content(d, g, cs, size)
  {
    hide Next, ClusterBytes, Content, Geometry.Valid;
    Bounds(g, |d|);
    ChainIsWalk(d, g, cs);
    if ok {
      var n := if |ws| < |cs| then |ws| else |cs|;
      SharedPrefix(d, g, ws, cs, n);
      if |ws| <= |cs| {
        assert ws == cs[..|ws|];
        PrefixContent(d, g, ws, cs, size);
      } else {
        assert cs == ws[..|cs|];
        PrefixContent(d, g, cs, ws, size);
      }
    }
  }

  lemma NewChainInRange(d: Disk, d': Disk, g: Geometry, cs: seq<nat>, sectors: nat)
    requires g.Valid(sectors) && NewChain(d, d', g, cs)
    ensures AllInRange(g, cs) && Distinct(cs)
  {
    forall i | 0 <= i < |cs|
      ensures InRange(g, cs[i])
    {
      assert cs[i] in FreeSet(d, g);
    }
  }

  lemma Bounds(g: Geometry, sectors: nat)
    requires g.Valid(sectors)
    ensures ClusterBytes(g) > 0 && g.sectorsPerCluster > 0 && g.MaxValidCluster() == g.clusterCount + 1
    ensures forall v: nat :: g.IsEoc(v) ==> !InRange(g, v)
  {
    MaxIsCount(g, sectors);
    EocIsNoCluster(g, sectors);
  }

  /** The clamp of the range reader is right unless the sum wraps. */
  lemma ClampedIs(size: nat, offset: nat, len: nat, most: nat)
    requires offset < size <= most < TWO64 - TWO32 && size < TWO32 && 0 < len < TWO64
    ensures var n := Clamped(size, offset, len);
      && n > 0 && (offset + len < TWO64 <==> offset + n <= most)
      && (offset + len < TWO64 ==> offset + n == if offset + len < size then offset + len else size)
  {
    if offset + len >= TWO64 { assert (offset + len) % TWO64 == offset + len - TWO64; }
  }

  lemma SliceOfContent(d: Disk, g: Geometry, cs: seq<nat>, size: nat, from: nat, to: nat)
    requires from <= to <= size
    ensures Content(d, g, cs, size)[from..to] == Range(d, g, cs, from, to)
  {
    hide Range, FileByte;
  }

  lemma ChainBounds(d: Disk, g: Geometry, cs: seq<nat>, sectors: nat)
    requires g.Valid(sectors) && Chain(d, g, cs)
    ensures |cs| <= g.clusterCount && |cs| * ClusterBytes(g) < TWO64 - TWO32
  {
    ChainLength(g, cs);
    assert g.clusterCount < TWO32;
    hide Chain, Geometry.EntryCount;
    MulMono(|cs|, TWO32, ClusterBytes(g));
  }

  /** Along a chain each entry is the next cluster, and the last one ends it. */
  lemma ChainNext(d: Disk, g: Geometry, cs: seq<nat>, i: nat, sectors: nat)
    requires g.Valid(sectors) && Chain(d, g, cs) && i < |cs|
    ensures InRange(g, cs[i]) && g.InTable(cs[i])
    ensures g.IsEoc(Next(d, g, cs[i])) <==> i + 1 == |cs|
    ensures i + 1 < |cs| ==> Next(d, g, cs[i]) == cs[i + 1] != cs[i]
  {
    hide Next;
    Bounds(g, sectors);
    ValidClusterInTable(g, cs[i]);
    hide Geometry.Valid, Geometry.IsEoc;
    if i + 1 < |cs| { LinkedOn(d, g, cs, i); }
  }

  lemma SectorPiece(d: Disk, g: Geometry, c: nat, s: nat, sk: nat, piece: seq<Byte>)
    requires 0 <= g.ClusterSector(c) + s < |d| && sk + |piece| <= SECTOR
    requires piece == d[g.ClusterSector(c) + s][sk..sk + |piece|]
    ensures forall k: nat :: k < |piece| ==> piece[k] == ByteOf(d, g, c, s * SECTOR + sk + k)
  {
    forall k: nat | k < |piece|
      ensures piece[k] == ByteOf(d, g, c, s * SECTOR + sk + k)
    {
      DivMod(s, sk + k, SECTOR);
      assert s * SECTOR + (sk + k) == s * SECTOR + sk + k;
    }
  }

  // ----- A first cluster that is none of the volume

  /** Where freeing goes on after reading `next`: 0 is nowhere. */
  function Onward(g: Geometry, next: nat): nat {
    if InRange(g, next) && !g.IsEoc(next) then next else 0
  }

  /** The first step: what is found where the entry would be leads to `from`, and is cleared. */
  ghost predicate FirstCleared(d: Disk, d1: Disk, g: Geometry, first: nat, from: nat) {
    && g.fatCount > 0 && OnDisk(|d|, g.ftype, g.firstFatSector, first) && OnDisk(|d|, g.ftype, g.CopyBase(g.fatCount - 1), first)
    && d1 == SeenCopies(d, g, first, 0, g.fatCount) && from == Onward(g, Seen(d, g.ftype, g.firstFatSector, first))
  }

  /** Freeing from there: it fails behind the end of the disk; otherwise it goes on along the table. */
  ghost predicate StrayFreed(d: Disk, d': Disk, g: Geometry, first: nat, ok: bool, path: seq<nat>) {
    var d1 := SeenCopies(d, g, first, 0, g.fatCount);
    if !OnDisk(|d|, g.ftype, g.firstFatSector, first) then !ok && d' == d
    else if !(g.fatCount > 0 && OnDisk(|d|, g.ftype, g.CopyBase(g.fatCount - 1), first)) then !ok && d' == d1
    else ok && Trail(d1, g, Onward(g, Seen(d, g.ftype, g.firstFatSector, first)), path) && TableStep(d1, d', g, Zeroes(path))
  }

  lemma StrayUnread(d: Disk, g: Geometry, first: nat)
    requires !OnDisk(|d|, g.ftype, g.firstFatSector, first)
    ensures StrayFreed(d, d, g, first, false, [])
  {
  }

  lemma StrayUnwritten(d: Disk, g: Geometry, first: nat)
    requires OnDisk(|d|, g.ftype, g.firstFatSector, first) && g.fatCount > 0
    requires !OnDisk(|d|, g.ftype, g.CopyBase(g.fatCount - 1), first)
    ensures StrayFreed(d, SeenCopies(d, g, first, 0, g.fatCount), g, first, false, [])
  {
    hide SeenCopies;
  }

  lemma FirstIsCleared(d: Disk, d1: Disk, g: Geometry, first: nat)
    requires g.fatCount > 0 && OnDisk(|d|, g.ftype, g.firstFatSector, first) && OnDisk(|d|, g.ftype, g.CopyBase(g.fatCount - 1), first)
    requires d1 == SeenCopies(d, g, first, 0, g.fatCount)
    ensures FirstCleared(d, d1, g, first, Onward(g, Seen(d, g.ftype, g.firstFatSector, first)))
    ensures Onward(g, Seen(d, g.ftype, g.firstFatSector, first)) <= g.clusterCount + 1
    ensures var n := Seen(d, g.ftype, g.firstFatSector, first);
      Onward(g, n) == if InRange(g, n) && !g.IsEoc(n) then n else 0
  {
    hide SeenCopies;
  }

  lemma StrayDone(d: Disk, d1: Disk, d2: Disk, g: Geometry, first: nat, from: nat, path: seq<nat>)
    requires FirstCleared(d, d1, g, first, from) && Trail(d1, g, from, path) && TableStep(d1, d2, g, Zeroes(path))
    ensures StrayFreed(d, d2, g, first, true, path)
  {
    hide SeenCopies, Trail, TableStep;
  }

  lemma ZeroMask(t: FatType)
    ensures Mask(t, 0) == 0
  {
  }

  // ----- A trail being freed

  /** While a trail is freed: `path` is cleared and `c` is next on it. */
  ghost predicate Freeing(d: Disk, d': Disk, g: Geometry, first: nat, path: seq<nat>, c: nat) {
    && TableStep(d, d', g, Zeroes(path)) && Linked(d, g, path) && Distinct(path)
    && (if path == [] then c == first && first <= g.clusterCount + 1
        else InRange(g, c) && path[0] == first && first >= 2 && c == Next(d, g, path[|path| - 1]))
  }

  /** Between clearing a cluster and looking at what it pointed to. */
  ghost predicate Freed(d: Disk, d': Disk, g: Geometry, first: nat, path: seq<nat>, next: nat) {
    && TableStep(d, d', g, Zeroes(path)) && Linked(d, g, path) && Distinct(path)
    && path != [] && path[0] == first && first >= 2
    && (next == Next(d, g, path[|path| - 1]) || (next == 0 && Next(d, g, path[|path| - 1]) in path))
  }

  lemma FreeingStart(d: Disk, g: Geometry, first: nat)
    requires first <= g.clusterCount + 1
    ensures Freeing(d, d, g, first, [], first)
  {
    TableStepNothing(d, g);
    assert Zeroes([]) == map[];
  }

  lemma FreeingCluster(d: Disk, d': Disk, g: Geometry, first: nat, path: seq<nat>, c: nat)
    requires Freeing(d, d', g, first, path, c) && c >= 2
    ensures InRange(g, c)
  {
  }

  lemma FreeingStep(d: Disk, d1: Disk, d2: Disk, g: Geometry, first: nat, was: seq<nat>, c: nat) returns (path: seq<nat>)
    requires Freeing(d, d1, g, first, was, c) && c >= 2 && g.InTable(c) && TableStep(d1, d2, g, map[c := 0])
    ensures Freed(d, d2, g, first, path, Next(d1, g, c))
    ensures path != was ==> path == was + [c] && c !in was
    ensures path == was ==> Next(d1, g, c) == 0
  {
    ReadAfterStep(d, d1, g, Zeroes(was), c);
    LinkOneMore(d, g, was, c);
    ZeroesNext(was, c);
    TableStepsCompose(d, d1, d2, g, Zeroes(was), map[c := 0]);
    hide Next, TableStep, Linked, Distinct, Geometry.InTable;
    if c in was {
      path := was;
    } else {
      path := was + [c];
      assert |path| != |was|;
      hide Zeroes;
    }
  }

  lemma ReadAfterStep(d: Disk, d1: Disk, g: Geometry, m: map<nat, nat>, c: nat)
    requires TableStep(d, d1, g, m) && g.InTable(c)
    ensures Next(d1, g, c) == if c in m then m[c] else Next(d, g, c)
  {
  }

  lemma LinkOneMore(d: Disk, g: Geometry, path: seq<nat>, c: nat)
    requires Linked(d, g, path) && Distinct(path) && InRange(g, c)
    requires path != [] ==> c == Next(d, g, path[|path| - 1])
    ensures c !in path ==> Linked(d, g, path + [c]) && Distinct(path + [c])
  {
    hide Next;
  }

  lemma FreeingGoesOn(d: Disk, d': Disk, g: Geometry, first: nat, path: seq<nat>, next: nat)
    requires Freed(d, d', g, first, path, next) && InRange(g, next)
    ensures Freeing(d, d', g, first, path, next)
  {
  }

  lemma FreeingEnds(d: Disk, d': Disk, g: Geometry, first: nat, path: seq<nat>, c: nat)
    requires (Freeing(d, d', g, first, path, c) && c < 2)
          || exists next: nat :: Freed(d, d', g, first, path, next) && (g.IsEoc(next) || !InRange(g, next))
    ensures Trail(d, g, first, path) && TableStep(d, d', g, Zeroes(path))
  {
  }

  ghost function Zeroes(path: seq<nat>): map<nat, nat> {
    map c | c in path :: 0
  }

  lemma ZeroesNext(path: seq<nat>, c: nat)
    ensures Zeroes(path) + map[c := 0] == if c in path then Zeroes(path) else Zeroes(path + [c])
  {
  }

  /** How many of `n` clusters a trail has not come to. */
  ghost function Unvisited(n: nat, path: seq<nat>): nat {
    |Clusters(n) - (set x | x in path)|
  }

  lemma TrailGrows(n: nat, path: seq<nat>, c: nat)
    requires 2 <= c <= n + 1 && c !in path
    ensures Unvisited(n, path + [c]) < Unvisited(n, path)
  {
    ClustersAre(n);
    assert Clusters(n) - (set x | x in path + [c]) == (Clusters(n) - (set x | x in path)) - {c};
  }

  // ----- Words across sectors

  lemma OffsetAligned(t: FatType, c: nat)
    ensures t == Fat16 ==> Offset32(t, c) % 2 == 0
    ensures t == Fat32 ==> Offset32(t, c) % 4 == 0
  {
    match t
    case Fat12 =>
    case Fat16 => CutAligned(c * 2, 2);
    case Fat32 => CutAligned(c * 4, 4);
  }

  lemma CutAligned(x: nat, w: nat)
    requires w == 2 || w == 4
    ensures x % w == 0 ==> x % TWO32 % w == 0
  {
    var q, r := x / TWO32, x % TWO32;
    assert x == q * TWO32 + r;
    SumAligned(x, q * 0x4000_0000, r, w);
  }

  lemma SumAligned(x: nat, k: nat, r: nat, w: nat)
    requires w == 2 || w == 4
    requires x == 4 * k + r
    ensures x % w == r % w
  {
  }

  /** For a cluster of the volume the driver reads the entry of the table. */
  lemma ClusterSeen(d: Disk, g: Geometry, c: nat)
    requires g.Valid(|d|) && InRange(g, c)
    ensures g.InTable(c) && Offset32(g.ftype, c) == Offset(g.ftype, c)
    ensures Seen(d, g.ftype, g.firstFatSector, c) == Next(d, g, c)
    ensures forall k: nat :: k < g.fatCount ==> OnDisk(|d|, g.ftype, g.CopyBase(k), c)
    ensures OnDisk(|d|, g.ftype, g.firstFatSector, c)
  {
    hide Geometry.Valid, Geometry.EntryCount, Geometry.CopyBase, ValueAt;
    MaxIsCount(g, |d|);
    ValidClusterInTable(g, c);
    hide Offset32, Offset;
    forall k: nat | k < g.fatCount
      ensures OnDisk(|d|, g.ftype, g.CopyBase(k), c)
    {
      CopyInside(g, |d|, k);
    }
    FirstCopy(g, |d|);
  }

  lemma FirstCopy(g: Geometry, sectors: nat)
    requires g.Valid(sectors)
    ensures g.fatCount > 0 && g.CopyBase(0) == g.firstFatSector
  {
  }

  // ----- Entries of numbers that are no clusters

  /** The first `n` copies after the driver has written an entry into them, as far as they are on the disk. */
  ghost function SeenCopies(d: Disk, g: Geometry, c: nat, v: nat, n: nat): (d': Disk)
    ensures |d'| == |d|
  {
    if n == 0 then d
    else if OnDisk(|d|, g.ftype, g.CopyBase(n - 1), c) then PutSeen(SeenCopies(d, g, c, v, n - 1), g.ftype, g.CopyBase(n - 1), c, v)
    else SeenCopies(d, g, c, v, n - 1)
  }

  /** Behind a copy that is not on the disk there is none. */
  lemma {:induction false} LaterCopies(d: Disk, g: Geometry, c: nat, v: nat, k: nat, n: nat)
    requires k < n && !OnDisk(|d|, g.ftype, g.CopyBase(k), c)
    ensures SeenCopies(d, g, c, v, n) == SeenCopies(d, g, c, v, k)
    ensures !OnDisk(|d|, g.ftype, g.CopyBase(n - 1), c)
    decreases n
  {
    hide PutSeen;
    if k + 1 < n {
      LaterCopies(d, g, c, v, k, n - 1);
      BaseMono(g, k, n - 1);
    }
  }

  lemma BaseMono(g: Geometry, j: nat, k: nat)
    requires j <= k
    ensures g.CopyBase(j) <= g.CopyBase(k)
  {
    MulMono(j, k, g.sectorsPerFat);
  }

  /** The entry of a number lies in the table, as the driver computes its place. */
  ghost predicate InsideTable(g: Geometry, c: nat) {
    g.InTable(c) && Offset32(g.ftype, c) == Offset(g.ftype, c)
  }

  lemma {:induction false} SeenIsPut(d: Disk, g: Geometry, c: nat, v: nat, n: nat)
    requires g.Valid(|d|) && InsideTable(g, c) && n <= g.fatCount
    ensures SeenCopies(d, g, c, v, n) == PutCopies(d, g, c, v, n)
    ensures n > 0 ==> OnDisk(|d|, g.ftype, g.CopyBase(n - 1), c)
  {
    hide PutAt, Offset, Offset32, Geometry.Valid, Geometry.EntryCount, Geometry.CopyBase;
    if n > 0 {
      SeenIsPut(d, g, c, v, n - 1);
      CopyInside(g, |d|, n - 1);
    }
  }

  /** Writing an entry changes that entry in every copy and nothing else when its place is in the table. */
  lemma InsideStep(d: Disk, g: Geometry, c: nat, v: nat)
    requires g.Valid(|d|) && InsideTable(g, c) && Mask(g.ftype, v) == v
    ensures TableStep(d, SeenCopies(d, g, c, v, g.fatCount), g, map[c := v])
  {
    hide TableStep, Geometry.Valid, SeenCopies, PutCopies, Offset32, Offset;
    SeenIsPut(d, g, c, v, g.fatCount);
    EntryWritten(d, g, c, v, SeenCopies(d, g, c, v, g.fatCount));
  }

  /** Aligned entries do not straddle sectors. */
  lemma EvenOffset(off: nat, w: nat)
    requires (w == 2 || w == 4) && off % w == 0
    ensures off % SECTOR + w <= SECTOR
    ensures w == 4 ==> (off + 2) / SECTOR == off / SECTOR && (off + 2) % SECTOR == off % SECTOR + 2
  {
    assert off == off / SECTOR * SECTOR + off % SECTOR;
    if w == 4 {
      NextByte(off);
      NextByte(off + 1);
    }
  }

  lemma SameWord(d: Disk, base: nat, off: nat, w: nat)
    requires base + (off + 1) / SECTOR < |d|
    requires off % SECTOR == SECTOR - 1 ==> base + off / SECTOR + 1 < |d| && w == Rd16(d[base + off / SECTOR][off % SECTOR], d[base + off / SECTOR + 1][0])
    requires off % SECTOR != SECTOR - 1 ==> base + off / SECTOR < |d| && w == Rd16(d[base + off / SECTOR][off % SECTOR], d[base + off / SECTOR][off % SECTOR + 1])
    ensures w == Word16(d, base, off)
  {
    NextByte(off);
  }

  lemma NextByte(off: nat)
    ensures off % SECTOR == SECTOR - 1 ==> (off + 1) / SECTOR == off / SECTOR + 1 && (off + 1) % SECTOR == 0
    ensures off % SECTOR != SECTOR - 1 ==> (off + 1) / SECTOR == off / SECTOR && (off + 1) % SECTOR == off % SECTOR + 1
  {
  }

  lemma SamePut(d: Disk, base: nat, off: nat, nv: nat, d': Disk)
    requires base + (off + 1) / SECTOR < |d| && nv < 65536
    requires var s, o := base + off / SECTOR, off % SECTOR;
             d' == if o == SECTOR - 1 then d[s := d[s][o := nv % 256]][s + 1 := d[s + 1][0 := nv / 256]]
                   else d[s := d[s][o := nv % 256][o + 1 := nv / 256]]
    ensures d' == Put16(d, base, off, nv)
  {
    hide Word16, Rd16;
    NextByte(off);
  }

  lemma SamePut32(d: Disk, base: nat, off: nat, nv: nat, d': Disk)
    requires base + (off + 3) / SECTOR < |d| && nv < TWO32 && off % 4 == 0 && off % SECTOR + 4 <= SECTOR
    requires var s, o := base + off / SECTOR, off % SECTOR;
             d' == d[s := d[s][o := nv % 65536 % 256][o + 1 := nv % 65536 / 256][o + 2 := nv / 65536 % 256][o + 3 := nv / 65536 / 256]]
    ensures d' == Put32(d, base, off, nv)
  {
    NextByte(off);
    NextByte(off + 1);
    NextByte(off + 2);
  }

  // ----- A chain under construction

  /** `cs` are clusters that were free in `d`, and `d'` is `d` with them linked to a chain. */
  ghost predicate NewChain(d: Disk, d': Disk, g: Geometry, cs: seq<nat>) {
    && Distinct(cs) && (forall i :: 0 <= i < |cs| ==> cs[i] in FreeSet(d, g))
    && TableStep(d, d', g, LinkMap(cs, g.EocValue()))
  }

  lemma NewChainStart(d: Disk, g: Geometry)
    ensures NewChain(d, d, g, [])
  {
    TableStepNothing(d, g);
  }

  ghost function Elems(cs: seq<nat>): set<nat> {
    set c | c in cs
  }

  /** A member of the new chain: free before, linked after. */
  lemma NewChainEntry(d: Disk, d': Disk, g: Geometry, cs: seq<nat>, i: nat, sectors: nat)
    requires g.Valid(sectors) && NewChain(d, d', g, cs) && i < |cs|
    ensures InRange(g, cs[i]) && g.InTable(cs[i]) && Next(d, g, cs[i]) == 0
    ensures Next(d', g, cs[i]) == if i + 1 < |cs| then cs[i + 1] else g.EocValue()
  {
    hide Entry, Geometry.EntryCount, OutsideSame;
    assert cs[i] in FreeSet(d, g);
    MaxIsCount(g, sectors);
    ValidClusterInTable(g, cs[i]);
    LinkMapEntries(cs, g.EocValue());
    assert cs[i] in LinkMap(cs, g.EocValue());
    ReadAfterStep(d, d', g, LinkMap(cs, g.EocValue()), cs[i]);
  }

  lemma OtherEntry(d: Disk, d': Disk, g: Geometry, cs: seq<nat>, e: nat)
    requires NewChain(d, d', g, cs) && e !in cs && g.InTable(e)
    ensures Next(d', g, e) == Next(d, g, e)
  {
    LinkMapEntries(cs, g.EocValue());
    ReadAfterStep(d, d', g, LinkMap(cs, g.EocValue()), e);
  }

  /** The clusters free after linking are those that were free, without the chain. */
  lemma FreeAfter(d: Disk, d': Disk, g: Geometry, cs: seq<nat>, sectors: nat)
    requires g.Valid(sectors) && NewChain(d, d', g, cs)
    ensures FreeSet(d', g) == FreeSet(d, g) - Elems(cs)
  {
    MaxIsCount(g, sectors);
    hide Next, TableStep, Geometry.EntryCount;
    forall e: nat | InRange(g, e)
      ensures Next(d', g, e) == 0 <==> Next(d, g, e) == 0 && e !in cs
    {
      ValidClusterInTable(g, e);
      if e in cs {
        var i :| 0 <= i < |cs| && cs[i] == e;
        NewChainEntry(d, d', g, cs, i, sectors);
        if i + 1 < |cs| { NewChainEntry(d, d', g, cs, i + 1, sectors); }
      } else {
        OtherEntry(d, d', g, cs, e);
      }
    }
    assert forall c <- cs :: InRange(g, c) by {
      forall c | c in cs
        ensures InRange(g, c)
      {
        var i :| 0 <= i < |cs| && cs[i] == c;
        NewChainEntry(d, d', g, cs, i, sectors);
      }
    }
  }

  lemma {:induction false} SetOf(cs: seq<nat>)
    requires Distinct(cs)
    ensures |Elems(cs)| == |cs|
  {
    if cs != [] {
      SetOf(cs[1..]);
      assert Elems(cs) == Elems(cs[1..]) + {cs[0]};
      assert cs[0] !in cs[1..];
    }
  }

  lemma NewChainSize(d: Disk, d': Disk, g: Geometry, cs: seq<nat>, sectors: nat)
    requires g.Valid(sectors) && NewChain(d, d', g, cs)
    ensures |FreeSet(d', g)| == |FreeSet(d, g)| - |cs|
  {
    FreeAfter(d, d', g, cs, sectors);
    SetOf(cs);
    hide FreeSet, TableStep;
    assert Elems(cs) <= FreeSet(d, g);
  }

  lemma NewChainIsChain(d: Disk, d': Disk, g: Geometry, cs: seq<nat>, sectors: nat)
    requires g.Valid(sectors) && NewChain(d, d', g, cs) && cs != []
    ensures Chain(d', g, cs)
  {
    hide Next, TableStep, FreeSet, Geometry.EntryCount;
    EocIsNoCluster(g, sectors);
    forall i | 0 <= i < |cs|
      ensures InRange(g, cs[i]) && Next(d', g, cs[i]) == if i + 1 < |cs| then cs[i + 1] else g.EocValue()
    {
      NewChainEntry(d, d', g, cs, i, sectors);
    }
    NewChainEntry(d, d', g, cs, |cs| - 1, sectors);
  }

  lemma RolledBack(d: Disk, d1: Disk, d2: Disk, g: Geometry, cs: seq<nat>, sectors: nat)
    requires g.Valid(sectors) && NewChain(d, d1, g, cs) && TableStep(d1, d2, g, Zeroes(cs)) && FreeSet(d1, g) == {}
    ensures Restored(d, d2, g)
  {
    hide TableStep, Restored, FreeSet, LinkMap, Zeroes, Geometry.Valid, Geometry.EocValue, Elems;
    var m := LinkMap(cs, g.EocValue());
    LinkMapEntries(cs, g.EocValue());
    TableStepsCompose(d, d1, d2, g, m, Zeroes(cs));
    FreeAfter(d, d1, g, cs, sectors);
    TakenWere(d, d1, g, cs);
    AllZeroed(m, cs, FreeSet(d, g));
    ClearedWereFree(d, d2, g);
  }

  lemma AllZeroed(m: map<nat, nat>, cs: seq<nat>, free: set<nat>)
    requires forall c :: c in m <==> c in cs
    requires forall c :: c in cs <==> c in free
    ensures m + Zeroes(cs) == Cleared(free)
  {
  }

  /** The chain took all that was free. */
  lemma TakenWere(d: Disk, d1: Disk, g: Geometry, cs: seq<nat>)
    requires NewChain(d, d1, g, cs) && FreeSet(d, g) - Elems(cs) == {}
    ensures forall c :: c in cs <==> c in FreeSet(d, g)
  {
    hide FreeSet, TableStep;
    forall c | c in FreeSet(d, g)
      ensures c in cs
    {
      assert c !in FreeSet(d, g) - Elems(cs);
    }
  }

  lemma ClearedWereFree(d: Disk, d': Disk, g: Geometry)
    requires TableStep(d, d', g, Cleared(FreeSet(d, g)))
    ensures Restored(d, d', g)
  {
    hide Next, CopyEntry, Geometry.EntryCount, CopiesEqual;
    assert forall c :: c in FreeSet(d, g) ==> Next(d, g, c) == 0;
  }

  lemma NothingAllocated(d: Disk, d': Disk, g: Geometry, sectors: nat)
    requires g.Valid(sectors) && NewChain(d, d', g, []) && FreeSet(d', g) == {}
    ensures Restored(d, d', g)
  {
    FreeAfter(d, d', g, [], sectors);
    hide FreeSet;
    assert FreeSet(d, g) - Elems([]) == FreeSet(d, g);
    assert Cleared(FreeSet(d, g)) == map[];
  }

  lemma NewChainNext(d: Disk, d1: Disk, d2: Disk, g: Geometry, cs: seq<nat>, c: nat, sectors: nat)
    requires g.Valid(sectors) && NewChain(d, d1, g, cs) && c in FreeSet(d1, g)
    ensures c !in cs && c in FreeSet(d, g) && InRange(g, c)
    ensures cs != [] ==> InRange(g, cs[|cs| - 1])
  {
    FreeAfter(d, d1, g, cs, sectors);
    if cs != [] { assert cs[|cs| - 1] in FreeSet(d, g); }
  }

  lemma NewChainLinked(d: Disk, d1: Disk, d2: Disk, d3: Disk, g: Geometry, cs: seq<nat>, c: nat)
    requires NewChain(d, d1, g, cs) && c !in cs && c in FreeSet(d, g) && TableStep(d1, d2, g, map[c := g.EocValue()])
    requires if cs == [] then d3 == d2 else TableStep(d2, d3, g, map[cs[|cs| - 1] := c])
    ensures NewChain(d, d3, g, cs + [c])
  {
    hide TableStep, FreeSet, Geometry.EocValue;
    var eoc := g.EocValue();
    var t := cs + [c];
    assert t[..|t| - 1] == cs;
    TableStepsCompose(d, d1, d2, g, LinkMap(cs, eoc), map[c := eoc]);
    if cs != [] {
      TableStepsCompose(d, d2, d3, g, LinkMap(cs, eoc) + map[c := eoc], map[cs[|cs| - 1] := c]);
      assert LinkMap(t, eoc) == LinkMap(cs, eoc) + map[c := eoc] + map[cs[|cs| - 1] := c];
    } else {
      assert LinkMap(t, eoc) == LinkMap(cs, eoc) + map[c := eoc];
    }
  }

  lemma NewChainLast(d: Disk, d': Disk, g: Geometry, cs: seq<nat>, sectors: nat)
    requires g.Valid(sectors) && NewChain(d, d', g, cs) && cs != []
    ensures InRange(g, cs[|cs| - 1]) && g.InTable(cs[|cs| - 1]) && Mask(g.ftype, g.EocValue()) == g.EocValue()
  {
    assert cs[|cs| - 1] in FreeSet(d, g);
    MaxIsCount(g, sectors);
    ValidClusterInTable(g, cs[|cs| - 1]);
    EocIsNoCluster(g, sectors);
  }

  lemma NewChainClosed(d: Disk, d1: Disk, d2: Disk, g: Geometry, cs: seq<nat>)
    requires NewChain(d, d1, g, cs) && cs != [] && TableStep(d1, d2, g, map[cs[|cs| - 1] := g.EocValue()])
    ensures NewChain(d, d2, g, cs)
  {
    hide TableStep, FreeSet, Geometry.EocValue;
    var eoc := g.EocValue();
    TableStepsCompose(d, d1, d2, g, LinkMap(cs, eoc), map[cs[|cs| - 1] := eoc]);
    LinkMapEntries(cs, eoc);
    assert LinkMap(cs, eoc) + map[cs[|cs| - 1] := eoc] == LinkMap(cs, eoc);
  }
}
