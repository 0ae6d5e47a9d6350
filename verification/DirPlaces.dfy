/** Directories of kernel/src/fs/ext2.c read from the bytes alone: where the fields of a record lie,
    which bytes start a record, and what a lookup, a free slot and a double name are in those terms. */
module DirPlaces {
  import opened Ext2Layout
  import opened DirRecords
  import opened Ext2Dir

  /** The 32-bit inode number in the first four bytes of a record, lowest byte first. */
  function InodeAt(b: Block, off: nat): nat
    requires off + 8 <= |b|
  {
    b[off] as int + 0x100 * (b[off + 1] as int) + 0x1_0000 * (b[off + 2] as int) + 0x100_0000 * (b[off + 3] as int)
  }

  /** The 16-bit length in its next two bytes. */
  function LengthAt(b: Block, off: nat): nat
    requires off + 8 <= |b|
  {
    b[off + 4] as int + 0x100 * (b[off + 5] as int)
  }

  /** The name: byte 6 counts its bytes, which start at byte 8. */
  ghost predicate NameAt(b: Block, off: nat, name: seq<Byte>) {
    off + 8 + |name| <= |b| && b[off + 6] as int == |name| && forall k :: 0 <= k < |name| ==> b[off + 8 + k] == name[k]
  }

  /** A record of the model is these bytes. */
  lemma RecordPlace(b: Block, off: nat, r: Rec)
    ensures IsRec(b, off, r) <==> (
      && off + r.len <= |b| && 8 + |r.name| <= r.len && r.len % 4 == 0
      && NameAt(b, off, r.name) && InodeAt(b, off) == r.inode && LengthAt(b, off) == r.len && b[off + 7] == r.ftype)
  {
    if off + 8 + |r.name| <= |b| {
      assert NameAt(b, off, r.name) ==> b[off + 8..off + 8 + |r.name|] == r.name;
      assert IsRec(b, off, r) ==> r.name == b[off + 8..off + 8 + |r.name|];
    }
  }

  /** `offs` are the offsets that the walk over a block visits, and the end of the block. */
  ghost predicate Starts(b: Block, off: nat, offs: seq<nat>) {
    && |offs| > 0 && offs[0] == off && offs[|offs| - 1] == |b|
    && forall k :: 0 <= k < |offs| - 1 ==> offs[k] + 8 <= |b| && offs[k + 1] == offs[k] + LengthAt(b, offs[k])
  }

  lemma {:induction false} StartsAre(b: Block, off: nat, rs: seq<Rec>, offs: seq<nat>)
    requires Tiles(b, off, rs, |b|) && Starts(b, off, offs)
    ensures |offs| == |rs| + 1 && forall k :: 0 <= k < |rs| ==> IsRec(b, offs[k], rs[k])
    decreases |rs|
  {
    hide IsRec;
    if rs != [] {
      RecordPlace(b, off, rs[0]);
      assert |offs| > 1;
      assert offs[1] == offs[0] + LengthAt(b, offs[0]);
      assert Starts(b, off + rs[0].len, offs[1..]);
      StartsAre(b, off + rs[0].len, rs[1..], offs[1..]);
      forall k | 0 <= k < |rs|
        ensures IsRec(b, offs[k], rs[k])
      {
        assert k > 0 ==> offs[k] == offs[1..][k - 1] && rs[k] == rs[1..][k - 1];
      }
    }
  }

  // ----- The walk over the blocks

  /** The offsets visited in each of the 12 direct blocks. */
  ghost predicate Walk(d: seq<Block>, p: seq<nat>, offss: seq<seq<nat>>) {
    && |p| == 15 && |offss| == 12
    && forall i :: 0 <= i < 12 ==> if p[i] == 0 then offss[i] == [] else p[i] < |d| && Starts(d[p[i]], 0, offss[i])
  }

  /** The `k`th record of block `i` is in use and has that name. */
  ghost predicate Named(d: seq<Block>, p: seq<nat>, offss: seq<seq<nat>>, i: nat, k: nat, name: seq<Byte>)
    requires Walk(d, p, offss)
  {
    i < 12 && p[i] != 0 && k + 1 < |offss[i]| && name != [] && NamedAt(d[p[i]], offss[i], k, name)
  }

  ghost predicate NamedAt(b: Block, offs: seq<nat>, k: nat, name: seq<Byte>)
    requires Starts(b, 0, offs) && k + 1 < |offs|
  {
    InodeAt(b, offs[k]) != 0 && NameAt(b, offs[k], name)
  }

  lemma NamedIs(b: Block, rs: seq<Rec>, offs: seq<nat>, k: nat, name: seq<Byte>)
    requires Tiles(b, 0, rs, |b|) && Starts(b, 0, offs) && k + 1 < |offs|
    ensures k < |rs|
    ensures name != [] && NamedAt(b, offs, k, name) <==> rs[k].Live() && rs[k].name == name
    ensures Entry(rs[k].inode, rs[k].ftype) == Entry(InodeAt(b, offs[k]), b[offs[k] + 7])
  {
    StartsAre(b, 0, rs, offs);
    var r := rs[k];
    hide Tiles, Starts, IsRec, InodeAt, LengthAt;
    RecordPlace(b, offs[k], r);
    assert NameAt(b, offs[k], name) ==> forall j :: 0 <= j < |name| ==> name[j] == b[offs[k] + 8 + j] == r.name[j];
    assert NameAt(b, offs[k], name) ==> name == r.name;
  }

  lemma NotFound(rs: seq<Rec>, name: seq<Byte>)
    requires forall k :: 0 <= k < |rs| ==> !(rs[k].Live() && rs[k].name == name)
    ensures Lookup(rs, name) == []
  {
    LookupNone(rs, name);
  }

  lemma FoundAt(rs: seq<Rec>, k: nat, name: seq<Byte>)
    requires k < |rs| && rs[k].Live() && rs[k].name == name
    ensures Lookup(rs, name) != []
    ensures (forall j :: 0 <= j < k ==> !(rs[j].Live() && rs[j].name == name)) ==> Lookup(rs, name) == [Entry(rs[k].inode, rs[k].ftype)]
  {
    assert rs == rs[..k] + rs[k..] && rs[k..] == [rs[k]] + rs[k + 1..];
    LookupConcat(rs[..k], rs[k..], name);
    LookupConcat([rs[k]], rs[k + 1..], name);
    OneRec(rs[k], name);
    if forall j :: 0 <= j < k ==> !(rs[j].Live() && rs[j].name == name) { NotFound(rs[..k], name); }
  }

  /** Nothing before the `k`th record of block `i` has that name. */
  ghost predicate NoneBefore(d: seq<Block>, p: seq<nat>, offss: seq<seq<nat>>, i: nat, k: nat, name: seq<Byte>)
    requires Walk(d, p, offss)
  {
    forall j, m :: 0 <= m && 0 <= j && (j < i || (j == i && m < k)) ==> !Named(d, p, offss, j, m, name)
  }

  lemma BlockMissing(d: seq<Block>, p: seq<nat>, rss: seq<seq<Rec>>, offss: seq<seq<nat>>, i: nat, name: seq<Byte>)
    requires Dir(d, p, rss) && Walk(d, p, offss) && i < 12 && forall m :: 0 <= m ==> !Named(d, p, offss, i, m, name)
    ensures Lookup(rss[i], name) == []
  {
    hide Tiles, Starts, NamedAt, Lookup;
    DirBlock(d, p, rss, i);
    if p[i] != 0 {
      StartsAre(d[p[i]], 0, rss[i], offss[i]);
      forall k | 0 <= k < |rss[i]|
        ensures !(rss[i][k].Live() && rss[i][k].name == name)
      {
        NamedIs(d[p[i]], rss[i], offss[i], k, name);
        assert !Named(d, p, offss, i, k, name);
      }
    }
    NotFound(rss[i], name);
  }

  lemma {:induction false} MissingBefore(d: seq<Block>, p: seq<nat>, rss: seq<seq<Rec>>, offss: seq<seq<nat>>, n: nat, name: seq<Byte>)
    requires Dir(d, p, rss) && Walk(d, p, offss) && n <= 12 && NoneBefore(d, p, offss, n, 0, name)
    ensures Lookup(Flatten(rss[..n]), name) == []
  {
    hide Dir, Walk, Named, Flatten, Lookup;
    if n == 0 {
      assert rss[..0] == [];
      NoFlatten();
      ScanStart([], name);
    } else {
      MissingBefore(d, p, rss, offss, n - 1, name);
      BlockMissing(d, p, rss, offss, n - 1, name);
      DirBlock(d, p, rss, n - 1);
      FlattenNext(rss, n - 1);
      LookupConcat(Flatten(rss[..n - 1]), rss[n - 1], name);
    }
  }

  /** A lookup fails when no record in use has the name. */
  lemma LookupMisses(d: seq<Block>, p: seq<nat>, rss: seq<seq<Rec>>, offss: seq<seq<nat>>, name: seq<Byte>)
    requires Dir(d, p, rss) && Walk(d, p, offss) && forall i, k :: 0 <= i && 0 <= k ==> !Named(d, p, offss, i, k, name)
    ensures Lookup(Flatten(rss), name) == []
  {
    hide Walk, Named, Flatten, Lookup, Tiles;
    MissingBefore(d, p, rss, offss, 12, name);
    assert rss[..12] == rss;
  }

  /** Otherwise it gives the inode and the type that the first such record holds. */
  lemma LookupFinds(d: seq<Block>, p: seq<nat>, rss: seq<seq<Rec>>, offss: seq<seq<nat>>, i: nat, k: nat, name: seq<Byte>)
    requires Dir(d, p, rss) && Walk(d, p, offss) && Named(d, p, offss, i, k, name)
    ensures Lookup(Flatten(rss), name) != []
    ensures NoneBefore(d, p, offss, i, k, name) ==>
      Lookup(Flatten(rss), name) == [Entry(InodeAt(d[p[i]], offss[i][k]), d[p[i]][offss[i][k] + 7])]
  {
    hide Flatten, Lookup, Tiles, InodeAt, NamedAt;
    var b, rs, offs := d[p[i]], rss[i], offss[i];
    DirBlock(d, p, rss, i);
    NamedIs(b, rs, offs, k, name);
    FoundAt(rs, k, name);
    FlattenSplit(rss, i);
    LookupConcat(Flatten(rss[..i]) + rs, Flatten(rss[i + 1..]), name);
    LookupConcat(Flatten(rss[..i]), rs, name);
    if NoneBefore(d, p, offss, i, k, name) {
      MissingBefore(d, p, rss, offss, i, name);
      forall j | 0 <= j < k
        ensures !(rs[j].Live() && rs[j].name == name)
      {
        NamedIs(b, rs, offs, j, name);
        assert !Named(d, p, offss, i, j, name);
      }
    }
  }

  /** A block that records tile has its walk. */
  lemma {:induction false} WalkOf(b: Block, off: nat, rs: seq<Rec>) returns (offs: seq<nat>)
    requires Tiles(b, off, rs, |b|)
    ensures Starts(b, off, offs)
    decreases |rs|
  {
    hide IsRec;
    offs := [off];
    if rs != [] {
      RecordPlace(b, off, rs[0]);
      var more := WalkOf(b, off + rs[0].len, rs[1..]);
      offs := [off] + more;
      assert offs[|offs| - 1] == more[|more| - 1];
      forall k | 0 <= k < |offs| - 1
        ensures offs[k] + 8 <= |b| && offs[k + 1] == offs[k] + LengthAt(b, offs[k])
      {
        assert k > 0 ==> offs[k] == more[k - 1] && offs[k + 1] == more[k - 1 + 1];
      }
    }
  }

  /** So has every directory. */
  lemma DirWalk(d: seq<Block>, p: seq<nat>, rss: seq<seq<Rec>>) returns (offss: seq<seq<nat>>)
    requires Dir(d, p, rss)
    ensures Walk(d, p, offss)
  {
    hide Tiles, Starts;
    offss := [];
    while |offss| < 12
      invariant |offss| <= 12
      invariant forall i :: 0 <= i < |offss| ==> if p[i] == 0 then offss[i] == [] else p[i] < |d| && Starts(d[p[i]], 0, offss[i])
    {
      var i := |offss|;
      DirBlock(d, p, rss, i);
      var offs := [];
      if p[i] != 0 { offs := WalkOf(d[p[i]], 0, rss[i]); }
      offss := offss + [offs];
    }
  }

  // ----- Names that are there twice

  predicate Is(r: Rec, name: seq<Byte>) {
    r.Live() && r.name == name
  }

  lemma OccursSplit(rs: seq<Rec>, k: nat, name: seq<Byte>)
    requires k < |rs|
    ensures Occurs(rs, name) == Occurs(rs[..k], name) + (if Is(rs[k], name) then 1 else 0) + Occurs(rs[k + 1..], name)
  {
    assert rs == rs[..k] + [rs[k]] + rs[k + 1..];
    ThreeParts(rs[..k], [rs[k]], rs[k + 1..], name);
    OneRec(rs[k], name);
  }

  lemma {:induction false} OccursOnce(rs: seq<Rec>, name: seq<Byte>)
    requires forall j, k :: 0 <= j < k < |rs| ==> !(Is(rs[j], name) && Is(rs[k], name))
    ensures Occurs(rs, name) <= 1
  {
    if rs != [] {
      OccursOnce(rs[1..], name);
      if Is(rs[0], name) {
        forall k | 0 <= k < |rs[1..]|
          ensures !(rs[1..][k].Live() && rs[1..][k].name == name)
        {
          assert !(Is(rs[0], name) && Is(rs[k + 1], name));
        }
        NotFound(rs[1..], name);
        LookupNone(rs[1..], name);
      }
    }
  }

  /** No name is at two places. */
  ghost predicate NamedOnce(d: seq<Block>, p: seq<nat>, offss: seq<seq<nat>>, name: seq<Byte>)
    requires Walk(d, p, offss)
  {
    forall i, k, j, m :: 0 <= i && 0 <= k && 0 <= j && 0 <= m && Named(d, p, offss, i, k, name) && Named(d, p, offss, j, m, name) ==> i == j && k == m
  }

  lemma PlacesOnce(d: seq<Block>, p: seq<nat>, rss: seq<seq<Rec>>, offss: seq<seq<nat>>, i: nat, k: nat, j: nat, m: nat, name: seq<Byte>)
    requires Dir(d, p, rss) && Walk(d, p, offss) && Occurs(Flatten(rss), name) <= 1
    requires Named(d, p, offss, i, k, name) && Named(d, p, offss, j, m, name) && (i < j || (i == j && k <= m))
    ensures i == j && k == m
  {
    hide Flatten, Lookup, Tiles, InodeAt, NamedAt, Occurs;
    DirBlock(d, p, rss, i);
    DirBlock(d, p, rss, j);
    NamedIs(d[p[i]], rss[i], offss[i], k, name);
    NamedIs(d[p[j]], rss[j], offss[j], m, name);
    FlattenSplit(rss, i);
    ThreeParts(Flatten(rss[..i]), rss[i], Flatten(rss[i + 1..]), name);
    OccursSplit(rss[i], k, name);
    if i < j {
      assert rss[i + 1..][j - i - 1] == rss[j];
      FlattenSplit(rss[i + 1..], j - i - 1);
      ThreeParts(Flatten(rss[i + 1..][..j - i - 1]), rss[j], Flatten(rss[i + 1..][j - i - 1 + 1..]), name);
      OccursSplit(rss[j], m, name);
    } else if k < m {
      assert rss[i][k + 1..][m - k - 1] == rss[i][m];
      OccursSplit(rss[i][k + 1..], m - k - 1, name);
    }
  }

  lemma BlockOnce(d: seq<Block>, p: seq<nat>, rss: seq<seq<Rec>>, offss: seq<seq<nat>>, i: nat, name: seq<Byte>)
    requires Dir(d, p, rss) && Walk(d, p, offss) && NamedOnce(d, p, offss, name) && i < 12
    ensures Occurs(rss[i], name) <= 1
  {
    hide Tiles, NamedAt, Occurs, Starts;
    DirBlock(d, p, rss, i);
    forall k, m | 0 <= k < m < |rss[i]|
      ensures !(Is(rss[i][k], name) && Is(rss[i][m], name))
    {
      if p[i] != 0 {
        StartsAre(d[p[i]], 0, rss[i], offss[i]);
        NamedIs(d[p[i]], rss[i], offss[i], k, name);
        NamedIs(d[p[i]], rss[i], offss[i], m, name);
        assert !(Named(d, p, offss, i, k, name) && Named(d, p, offss, i, m, name));
      }
    }
    OccursOnce(rss[i], name);
  }

  lemma {:induction false} PrefixOnce(d: seq<Block>, p: seq<nat>, rss: seq<seq<Rec>>, offss: seq<seq<nat>>, n: nat, name: seq<Byte>)
    requires Dir(d, p, rss) && Walk(d, p, offss) && NamedOnce(d, p, offss, name) && n <= 12
    ensures Occurs(Flatten(rss[..n]), name) <= 1
  {
    hide Dir, Walk, Named, Flatten, Lookup, Occurs;
    if n == 0 {
      assert rss[..0] == [];
      NoFlatten();
      ScanStart([], name);
      LookupNone([], name);
    } else {
      PrefixOnce(d, p, rss, offss, n - 1, name);
      BlockOnce(d, p, rss, offss, n - 1, name);
      DirBlock(d, p, rss, n - 1);
      FlattenNext(rss, n - 1);
      OccursConcat(Flatten(rss[..n - 1]), rss[n - 1], name);
      LookupNone(Flatten(rss[..n - 1]), name);
      LookupNone(rss[n - 1], name);
      if Lookup(rss[n - 1], name) != [] {
        BlockNames(d, p, rss, offss, n - 1, name);
        MissingBefore(d, p, rss, offss, n - 1, name);
      }
    }
  }

  lemma BlockNames(d: seq<Block>, p: seq<nat>, rss: seq<seq<Rec>>, offss: seq<seq<nat>>, i: nat, name: seq<Byte>)
    requires Dir(d, p, rss) && Walk(d, p, offss) && NamedOnce(d, p, offss, name) && i < 12 && Lookup(rss[i], name) != []
    ensures NoneBefore(d, p, offss, i, 0, name)
  {
    hide Dir, Walk, Named, Lookup;
    if forall m :: 0 <= m ==> !Named(d, p, offss, i, m, name) {
      BlockMissing(d, p, rss, offss, i, name);
    }
  }

  /** The names of a directory are different when no two records in use, of any of its blocks, have
      the same one. */
  lemma UniqueIs(d: seq<Block>, p: seq<nat>, rss: seq<seq<Rec>>, offss: seq<seq<nat>>)
    requires Dir(d, p, rss) && Walk(d, p, offss)
    ensures Unique(Flatten(rss)) <==> forall name :: NamedOnce(d, p, offss, name)
  {
    hide Dir, Walk, Flatten, Occurs, Named;
    assert rss[..12] == rss by { DirBlock(d, p, rss, 0); }
    forall name | NamedOnce(d, p, offss, name)
      ensures Occurs(Flatten(rss), name) <= 1
    {
      PrefixOnce(d, p, rss, offss, 12, name);
    }
    forall name | Occurs(Flatten(rss), name) <= 1
      ensures NamedOnce(d, p, offss, name)
    {
      forall i, k, j, m | 0 <= i && 0 <= k && 0 <= j && 0 <= m && Named(d, p, offss, i, k, name) && Named(d, p, offss, j, m, name)
        ensures i == j && k == m
      {
        if i < j || (i == j && k <= m) { PlacesOnce(d, p, rss, offss, i, k, j, m, name); }
        else { PlacesOnce(d, p, rss, offss, j, m, i, k, name); }
      }
    }
  }

  // ----- Room

  /** The record at `off` can take in `need` more bytes: all of it when its inode number is 0, and
      what lies beyond its own name, rounded up to four bytes. */
  ghost predicate RoomAt(b: Block, off: nat, need: nat) {
    && off + 8 <= |b|
    && ((InodeAt(b, off) == 0 && need <= LengthAt(b, off))
        || exists own: nat :: own % 4 == 0 && own < 8 + b[off + 6] as int + 4 && 8 + b[off + 6] as int <= own && own + need <= LengthAt(b, off))
  }

  lemma RoomIs(b: Block, off: nat, r: Rec, need: nat)
    requires IsRec(b, off, r)
    ensures HasRoom(r, need) <==> RoomAt(b, off, need)
  {
    RecordPlace(b, off, r);
    var own := Align4(8 + |r.name|);
    hide InodeAt, LengthAt;
  }

  /** An addition fails for want of room exactly when no record of any block has it. */
  lemma NoRoomIs(d: seq<Block>, p: seq<nat>, rss: seq<seq<Rec>>, offss: seq<seq<nat>>, need: nat)
    requires Dir(d, p, rss) && Walk(d, p, offss)
    ensures NoRoom(Flatten(rss), need) <==>
      forall i, k :: 0 <= i < 12 && 0 <= k && p[i] != 0 && k + 1 < |offss[i]| ==> !RoomAt(d[p[i]], offss[i][k], need)
  {
    hide HasRoom, RoomAt, Flatten, Tiles, Starts;
    forall i, k | 0 <= i < 12 && 0 <= k && p[i] != 0 && k + 1 < |offss[i]|
      ensures NoRoom(Flatten(rss), need) ==> !RoomAt(d[p[i]], offss[i][k], need)
    {
      DirBlock(d, p, rss, i);
      StartsAre(d[p[i]], 0, rss[i], offss[i]);
      RoomIs(d[p[i]], offss[i][k], rss[i][k], need);
      FlattenSplit(rss, i);
      assert rss[i][k] in Flatten(rss[..i]) + rss[i] + Flatten(rss[i + 1..]);
    }
    if forall i, k :: 0 <= i < 12 && 0 <= k && p[i] != 0 && k + 1 < |offss[i]| ==> !RoomAt(d[p[i]], offss[i][k], need) {
      PrefixNoRoom(d, p, rss, offss, 12, need);
      assert rss[..12] == rss;
    }
  }

  lemma {:induction false} PrefixNoRoom(d: seq<Block>, p: seq<nat>, rss: seq<seq<Rec>>, offss: seq<seq<nat>>, n: nat, need: nat)
    requires Dir(d, p, rss) && Walk(d, p, offss) && n <= 12
    requires forall i, k :: 0 <= i < 12 && 0 <= k && p[i] != 0 && k + 1 < |offss[i]| ==> !RoomAt(d[p[i]], offss[i][k], need)
    ensures NoRoom(Flatten(rss[..n]), need)
  {
    hide HasRoom, RoomAt, Flatten, Tiles, Starts;
    if n == 0 {
      assert rss[..0] == [];
      NoFlatten();
    } else {
      PrefixNoRoom(d, p, rss, offss, n - 1, need);
      FlattenNext(rss, n - 1);
      DirBlock(d, p, rss, n - 1);
      var rs := rss[n - 1];
      forall k | 0 <= k < |rs|
        ensures !HasRoom(rs[k], need)
      {
        StartsAre(d[p[n - 1]], 0, rs, offss[n - 1]);
        RoomIs(d[p[n - 1]], offss[n - 1][k], rs[k], need);
      }
    }
  }
}
