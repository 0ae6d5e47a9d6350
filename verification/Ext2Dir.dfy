/** Directories of kernel/src/fs/ext2.c: finding, adding and removing a name. */
module Ext2Dir {
  import opened Ext2Layout
  import opened DirRecords
  import Ext2

  // ----- The blocks of a directory

  function Flatten(rss: seq<seq<Rec>>): seq<Rec> {
    if rss == [] then [] else Flatten(rss[..|rss| - 1]) + rss[|rss| - 1]
  }

  lemma {:induction false} FlattenSplit(rss: seq<seq<Rec>>, i: nat)
    requires i < |rss|
    ensures Flatten(rss) == Flatten(rss[..i]) + rss[i] + Flatten(rss[i + 1..])
  {
    var front := rss[..|rss| - 1];
    if i == |rss| - 1 {
      assert rss[i + 1..] == [];
    } else {
      FlattenSplit(front, i);
      assert front[..i] == rss[..i] && front[i + 1..] == rss[i + 1..][..|rss[i + 1..]| - 1];
    }
  }

  lemma FlattenNext(rss: seq<seq<Rec>>, i: nat)
    requires i < |rss|
    ensures Flatten(rss[..i + 1]) == Flatten(rss[..i]) + rss[i]
  {
    assert rss[..i + 1][..i] == rss[..i];
  }

  /** Block `p` holds the records `rs`; pointer 0 is no block. */
  ghost predicate Holds(d: seq<Block>, p: nat, rs: seq<Rec>) {
    if p == 0 then rs == [] else p < |d| && Tiles(d[p], 0, rs, |d[p]|)
  }

  /** The first 12 pointers lead to different blocks tiled by records. */
  ghost predicate Dir(d: seq<Block>, p: seq<nat>, rss: seq<seq<Rec>>) {
    && |p| == 15 && |rss| == 12
    && (forall i :: 0 <= i < 12 ==> Holds(d, p[i], rss[i]))
    && (forall i, j :: 0 <= i < j < 12 && p[i] != 0 ==> p[i] != p[j])
  }

  lemma DirChanged(d: seq<Block>, d': seq<Block>, p: seq<nat>, rss: seq<seq<Rec>>, i: nat, rs: seq<Rec>)
    requires Dir(d, p, rss) && i < 12 && p[i] != 0 && |d'| == |d| && Holds(d', p[i], rs)
    requires forall b: nat :: b < |d| && b != p[i] ==> d'[b] == d[b]
    ensures Dir(d', p, rss[i := rs])
  {
    hide Tiles;
    forall j | 0 <= j < 12
      ensures Holds(d', p[j], rss[i := rs][j])
    {
      assert Holds(d, p[j], rss[j]);
    }
  }

  lemma FlattenChanged(rss: seq<seq<Rec>>, i: nat, rs: seq<Rec>)
    requires i < |rss|
    ensures Flatten(rss[i := rs]) == Flatten(rss[..i]) + rs + Flatten(rss[i + 1..])
  {
    FlattenSplit(rss[i := rs], i);
    assert rss[i := rs][..i] == rss[..i] && rss[i := rs][i + 1..] == rss[i + 1..];
  }

  // ----- Finding

  const NO_PREVIOUS: nat := 0xFFFF

  /** The walk over one block in `ext2_dir_find` and `ext2_dir_find_slot`. */
  method Scan(b: Block, name: seq<Byte>, ghost rs: seq<Rec>) returns (found: bool, off: nat, prev: nat, ghost k: nat)
    requires Tiles(b, 0, rs, |b|) && |b| <= 4096
    ensures !found ==> Lookup(rs, name) == []
    ensures found ==> k < |rs| && rs[k].Live() && rs[k].name == name && Lookup(rs, name) == [Entry(rs[k].inode, rs[k].ftype)]
    ensures found ==> off == Length(rs[..k]) && IsRec(b, off, rs[k])
    ensures found ==> if k == 0 then prev == NO_PREVIOUS else prev == Length(rs[..k - 1]) && prev != NO_PREVIOUS
  {
    hide Lookup, RecAt, Length;
    off, prev, k := 0, NO_PREVIOUS, 0;
    ScanStart(rs, name);
    while off + 8 <= |b|
      invariant k <= |rs| && off == Length(rs[..k]) && Tiles(b, off, rs[k..], |b|) && Lookup(rs[..k], name) == []
      invariant if k == 0 then prev == NO_PREVIOUS else prev == Length(rs[..k - 1]) && prev != NO_PREVIOUS
      decreases |b| - off
    {
      ScanNext(b, off, rs, k, name);
      var r := RecAt(b, off);
      if r.len < 8 { break; }
      if r.inode != 0 && |r.name| > 0 && name == r.name { return true, off, prev, k; }
      prev := off;
      off := off + r.len;
      k := k + 1;
    }
    ScanEnd(b, off, rs, k);
    found := false;
  }

  lemma ScanStart(rs: seq<Rec>, name: seq<Byte>)
    ensures Length(rs[..0]) == 0 && rs[0..] == rs && Lookup(rs[..0], name) == []
  {
  }

  lemma ScanNext(b: Block, off: nat, rs: seq<Rec>, k: nat, name: seq<Byte>)
    requires k <= |rs| && off == Length(rs[..k]) && Tiles(b, off, rs[k..], |b|) && Lookup(rs[..k], name) == [] && off + 8 <= |b|
    ensures k < |rs| && IsRec(b, off, rs[k]) && rs[k].len >= 8 && Length(rs[..k + 1]) == off + rs[k].len <= |b|
    ensures Tiles(b, off + rs[k].len, rs[k + 1..], |b|)
    ensures if rs[k].Live() && rs[k].name == name then Lookup(rs, name) == [Entry(rs[k].inode, rs[k].ftype)]
            else Lookup(rs[..k + 1], name) == []
  {
    assert rs[..k + 1] == rs[..k] + [rs[k]];
    LengthConcat(rs[..k], [rs[k]]);
    LengthOne(rs[k]);
    OneRec(rs[k], name);
    LookupConcat(rs[..k], [rs[k]], name);
    LookupConcat(rs[..k + 1], rs[k + 1..], name);
    assert rs == rs[..k + 1] + rs[k + 1..] && rs[k..][1..] == rs[k + 1..];
  }

  lemma ScanEnd(b: Block, off: nat, rs: seq<Rec>, k: nat)
    requires k <= |rs| && Tiles(b, off, rs[k..], |b|) && off + 8 > |b|
    ensures rs[..k] == rs
  {
    assert k == |rs|;
  }

  lemma {:induction false} LengthConcat(xs: seq<Rec>, ys: seq<Rec>)
    ensures Length(xs + ys) == Length(xs) + Length(ys)
  {
    if xs == [] {
      assert xs + ys == ys;
    } else {
      LengthConcat(xs[1..], ys);
      assert (xs + ys)[1..] == xs[1..] + ys;
    }
  }

  /** `ext2_dir_find` */
  method Find(fs: Ext2.Ext2, dir: Ext2.Inode, name: seq<Byte>, ghost rss: seq<seq<Rec>>) returns (found: bool, e: Entry)
    requires fs.Valid() && Dir(fs.disk[..], dir.block, rss)
    ensures found <==> Lookup(Flatten(rss), name) != []
    ensures found ==> Lookup(Flatten(rss), name) == [e]
  {
    hide Lookup, Tiles, RecAt, Length, FreeOf, Accounted;
    e := Entry(0, 0);
    ScanStart([], name);
    assert rss[..0] == [];
    for i := 0 to 12
      invariant Lookup(Flatten(rss[..i]), name) == []
    {
      FlattenNext(rss, i);
      LookupConcat(Flatten(rss[..i]), rss[i], name);
      assert Holds(fs.disk[..], dir.block[i], rss[i]);
      if dir.block[i] == 0 { continue; }
      var b := fs.disk[dir.block[i]];
      var off, prev;
      ghost var k;
      found, off, prev, k := Scan(b, name, rss[i]);
      if found {
        FlattenSplit(rss, i);
        LookupConcat(Flatten(rss[..i]) + rss[i], Flatten(rss[i + 1..]), name);
        var r := RecAt(b, off);
        return true, Entry(r.inode, r.ftype);
      }
    }
    assert rss[..12] == rss;
    found := false;
  }

  // ----- Removing

  /** `ext2_dir_remove_entry`: the record goes to the one before it in its block, or only loses its
      inode when it is the first. */
  method Remove(fs: Ext2.Ext2, dir: Ext2.Inode, name: seq<Byte>, ghost rss: seq<seq<Rec>>)
    returns (found: bool, e: Entry, ghost rss': seq<seq<Rec>>)
    requires fs.Valid() && Dir(fs.disk[..], dir.block, rss) && Unique(Flatten(rss))
    modifies fs.disk
    ensures fs.Valid() && Dir(fs.disk[..], dir.block, rss') && Unique(Flatten(rss'))
    ensures found <==> name in Bindings(Flatten(rss))
    ensures found ==> e == Bindings(Flatten(rss))[name]
    ensures Bindings(Flatten(rss')) == Bindings(Flatten(rss)) - {name}
    ensures forall b: nat :: b < fs.disk.Length && b !in dir.block[..12] ==> fs.disk[b] == old(fs.disk[b])
  {
    hide Lookup, Tiles, RecAt, Length, FreeOf, Accounted, Bindings, Unique, Flatten, MapsSized;
    rss', e := rss, Entry(0, 0);
    BindingsAre(Flatten(rss), name);
    ScanStart([], name);
    assert rss[..0] == [];
    NoFlatten();
    for i := 0 to 12
      invariant Lookup(Flatten(rss[..i]), name) == [] && fs.disk[..] == old(fs.disk[..])
    {
      FlattenNext(rss, i);
      LookupConcat(Flatten(rss[..i]), rss[i], name);
      assert Holds(fs.disk[..], dir.block[i], rss[i]);
      if dir.block[i] == 0 { continue; }
      var b := fs.disk[dir.block[i]];
      var off, prev;
      ghost var k;
      found, off, prev, k := Scan(b, name, rss[i]);
      if found {
        FlattenSplit(rss, i);
        LookupConcat(Flatten(rss[..i]) + rss[i], Flatten(rss[i + 1..]), name);
        e := EntryAt(b, off, rss[i][k]);
        BindingsRemoved(rss, i, k, name);
        rss' := rss[i := RecsWithout(rss[i], k)];
        TakeOut(fs, dir, rss, i, off, prev, k);
        return;
      }
    }
    assert rss[..12] == rss;
    NotBound(Flatten(rss), name);
    found := false;
  }

  lemma NoFlatten()
    ensures Flatten([]) == []
  {
  }

  lemma NotBound(rs: seq<Rec>, name: seq<Byte>)
    requires Lookup(rs, name) == []
    ensures Bindings(rs) - {name} == Bindings(rs)
  {
    BindingsAre(rs, name);
  }

  /** The records of a block after record `k` was removed. */
  ghost function RecsWithout(rs: seq<Rec>, k: nat): seq<Rec>
    requires k < |rs|
  {
    if k == 0 then [rs[0].(inode := 0)] + rs[1..]
    else rs[..k - 1] + [rs[k - 1].(len := rs[k - 1].len + rs[k].len)] + rs[k + 1..]
  }

  function EntryAt(b: Block, off: nat, ghost r: Rec): (e: Entry)
    requires IsRec(b, off, r)
    ensures e == Entry(r.inode, r.ftype)
  {
    Entry(U32(b, off), b[off + 7])
  }

  /** The write of `ext2_dir_remove_entry`. */
  method TakeOut(fs: Ext2.Ext2, dir: Ext2.Inode, ghost rss: seq<seq<Rec>>, i: nat, off: nat, prev: nat, ghost k: nat)
    requires fs.Valid() && Dir(fs.disk[..], dir.block, rss) && i < 12 && dir.block[i] != 0 && k < |rss[i]|
    requires off == Length(rss[i][..k]) && if k == 0 then prev == NO_PREVIOUS else prev == Length(rss[i][..k - 1]) && prev != NO_PREVIOUS
    modifies fs.disk
    ensures fs.Valid() && Dir(fs.disk[..], dir.block, rss[i := RecsWithout(rss[i], k)])
    ensures forall b: nat :: b < fs.disk.Length && b != dir.block[i] ==> fs.disk[b] == old(fs.disk[b])
  {
    hide Tiles, RecAt, Length, FreeOf, Accounted, MapsSized, RecsWithout, Put, SetLen, U16, Bytes4;
    ghost var d := fs.disk[..];
    assert Holds(d, dir.block[i], rss[i]);
    var b := fs.disk[dir.block[i]];
    if prev == NO_PREVIOUS {
      FirstRemoved(b, rss[i]);
      fs.disk[dir.block[i]] := Put(b, off, Bytes4(0));
    } else {
      LaterRemoved(b, rss[i], k);
      fs.disk[dir.block[i]] := SetLen(b, prev, U16(b, prev + 4) + U16(b, off + 4));
    }
    DirChanged(d, fs.disk[..], dir.block, rss, i, RecsWithout(rss[i], k));
  }

  lemma FirstRemoved(b: Block, rs: seq<Rec>)
    requires Tiles(b, 0, rs, |b|) && rs != []
    ensures Length(rs[..0]) == 0 && 8 <= |b| && Tiles(Put(b, 0, Bytes4(0)), 0, RecsWithout(rs, 0), |b|)
  {
    hide Tiles, Put, Bytes4;
    assert rs == [rs[0]] + rs[1..];
    Unused(b, rs[0], rs[1..]);
  }

  lemma LaterRemoved(b: Block, rs: seq<Rec>, k: nat)
    requires Tiles(b, 0, rs, |b|) && |b| <= 4096 && 0 < k < |rs|
    ensures var off, prev := Length(rs[..k]), Length(rs[..k - 1]);
      && off + 8 <= |b| && prev + 8 <= |b| && U16(b, prev + 4) + U16(b, off + 4) < 0x1_0000
      && Tiles(SetLen(b, prev, U16(b, prev + 4) + U16(b, off + 4)), 0, RecsWithout(rs, k), |b|)
  {
    hide SetLen, Tiles, Length, U16;
    var p, r := rs[k - 1], rs[k];
    assert rs == rs[..k - 1] + [p, r] + rs[k + 1..];
    PairAt(b, rs[..k - 1], p, r, rs[k + 1..]);
    assert rs[..k] == rs[..k - 1] + [p];
    LengthConcat(rs[..k - 1], [p]);
    LengthOne(p);
    MergedInto(b, rs[..k - 1], p, r, rs[k + 1..]);
  }

  lemma PairAt(b: Block, pre: seq<Rec>, p: Rec, r: Rec, post: seq<Rec>)
    requires Tiles(b, 0, pre + [p, r] + post, |b|)
    ensures var prev, off := Length(pre), Length(pre) + p.len;
      prev + 8 <= |b| && off + 8 <= |b| && U16(b, prev + 4) == p.len && U16(b, off + 4) == r.len && p.len + r.len <= |b|
  {
    hide Tiles, IsRec, Length, U16;
    TilesThree(b, pre, [p, r], post);
    TilesTwo(b, Length(pre), p, r);
    LengthAt(b, Length(pre), p);
    LengthAt(b, Length(pre) + p.len, r);
  }

  lemma LengthAt(b: Block, off: nat, r: Rec)
    requires IsRec(b, off, r)
    ensures off + 8 <= |b| && U16(b, off + 4) == r.len && off + r.len <= |b|
  {
  }

  lemma BindingsRemoved(rss: seq<seq<Rec>>, i: nat, k: nat, name: seq<Byte>)
    requires i < |rss| && Unique(Flatten(rss)) && k < |rss[i]| && rss[i][k].Live() && rss[i][k].name == name
    ensures Unique(Flatten(rss[i := RecsWithout(rss[i], k)]))
    ensures Bindings(Flatten(rss[i := RecsWithout(rss[i], k)])) == Bindings(Flatten(rss)) - {name}
  {
    hide Unique, Bindings, Flatten;
    FlattenSplit(rss, i);
    FlattenChanged(rss, i, RecsWithout(rss[i], k));
    RecsRemoved(Flatten(rss[..i]), rss[i], Flatten(rss[i + 1..]), k, name);
  }

  lemma RecsRemoved(pre: seq<Rec>, rs: seq<Rec>, post: seq<Rec>, k: nat, name: seq<Byte>)
    requires Unique(pre + rs + post) && k < |rs| && rs[k].Live() && rs[k].name == name
    ensures Unique(pre + RecsWithout(rs, k) + post)
    ensures Bindings(pre + RecsWithout(rs, k) + post) == Bindings(pre + rs + post) - {name}
  {
    hide Unique, Bindings;
    if k == 0 {
      assert pre + rs + post == pre + [rs[0]] + (rs[1..] + post);
      assert pre + RecsWithout(rs, k) + post == pre + [rs[0].(inode := 0)] + (rs[1..] + post);
      UnuseUnbinds(rs[0]);
      Unbound(pre, [rs[0]], [rs[0].(inode := 0)], rs[1..] + post, name);
    } else {
      var p, r := rs[k - 1], rs[k];
      var p' := p.(len := p.len + r.len);
      assert pre + rs + post == (pre + rs[..k - 1]) + [p, r] + (rs[k + 1..] + post);
      assert pre + RecsWithout(rs, k) + post == (pre + rs[..k - 1]) + [p'] + (rs[k + 1..] + post);
      MergeUnbinds(p, p.len + r.len, r);
      Unbound(pre + rs[..k - 1], [p, r], [p'], rs[k + 1..] + post, name);
    }
  }

  // ----- Adding

  /** A record that takes `need` more bytes: it is dead and long enough, or has them to spare. */
  predicate HasRoom(r: Rec, need: nat) {
    (r.inode == 0 && r.len >= need) || r.len >= Align4(8 + |r.name|) + need
  }

  predicate NoRoom(rs: seq<Rec>, need: nat) {
    forall r :: r in rs ==> !HasRoom(r, need)
  }

  /** The walk of `ext2_dir_add_entry` over one block. */
  method AddIn(b: Block, name: seq<Byte>, inode: nat, ftype: Byte, ghost rs: seq<Rec>)
    returns (done: bool, b': Block, ghost k: nat, ghost mid: seq<Rec>)
    requires Tiles(b, 0, rs, |b|) && |b| <= 4096 && 0 < |name| < 256 && 0 < inode < 0x1_0000_0000
    ensures done <==> !NoRoom(rs, Align4(8 + |name|))
    ensures done ==> |b'| == |b| && k < |rs| && Binds([rs[k]], mid, name, Entry(inode, ftype))
    ensures done ==> Tiles(b', 0, rs[..k] + mid + rs[k + 1..], |b|)
  {
    hide Tiles, RecAt, Length, Lookup, SetLen, SetEntry, Binds, IsRec;
    var need := Align4(8 + |name|);
    var off := 0;
    b', k, mid := b, 0, [];
    ScanStart(rs, name);
    while off + 8 <= |b|
      invariant k <= |rs| && off == Length(rs[..k]) && Tiles(b, off, rs[k..], |b|) && NoRoom(rs[..k], need)
      decreases |b| - off
    {
      WalkNext(b, off, rs, k);
      ghost var r := rs[k];
      assert rs == rs[..k] + [r] + rs[k + 1..];
      var len := U16(b, off + 4);
      if len < 8 { break; }
      if U32(b, off) == 0 && len >= need {
        assert HasRoom(r, need) && r in rs;
        Reused(b, rs[..k], r, rs[k + 1..], inode, ftype, name);
        mid := [Rec(inode, r.len, ftype, name)];
        ReuseBinds(r, mid[0]);
        b' := SetEntry(b, off, inode, ftype, name);
        return true, b', k, mid;
      }
      var used := Align4(8 + b[off + 6] as int);
      if len >= used + need {
        assert HasRoom(r, need) && r in rs;
        SplitUp(b, rs[..k], r, rs[k + 1..], used, inode, ftype, name);
        mid := [r.(len := used), Rec(inode, r.len - used, ftype, name)];
        SplitBinds(r, used, mid[1]);
        b' := SetEntry(SetLen(SetLen(b, off, used), off + used, len - used), off + used, inode, ftype, name);
        return true, b', k, mid;
      }
      off := off + len;
      k := k + 1;
    }
    WalkEnd(b, off, rs, k);
    done := false;
  }

  lemma WalkNext(b: Block, off: nat, rs: seq<Rec>, k: nat)
    requires k <= |rs| && off == Length(rs[..k]) && Tiles(b, off, rs[k..], |b|) && off + 8 <= |b|
    ensures k < |rs| && IsRec(b, off, rs[k]) && rs[k].len >= 8 && Length(rs[..k + 1]) == off + rs[k].len <= |b|
    ensures Tiles(b, off + rs[k].len, rs[k + 1..], |b|) && rs[..k + 1] == rs[..k] + [rs[k]]
    ensures U16(b, off + 4) == rs[k].len && U32(b, off) == rs[k].inode && b[off + 6] as int == |rs[k].name|
    ensures 8 + |rs[k].name| <= rs[k].len && rs[k].len % 4 == 0
  {
    assert rs[..k + 1] == rs[..k] + [rs[k]];
    LengthConcat(rs[..k], [rs[k]]);
    LengthOne(rs[k]);
    assert rs[k..][1..] == rs[k + 1..];
  }

  lemma WalkEnd(b: Block, off: nat, rs: seq<Rec>, k: nat)
    requires k <= |rs| && Tiles(b, off, rs[k..], |b|) && off + 8 > |b|
    ensures rs[..k] == rs
  {
    assert k == |rs|;
  }

  /** `ext2_dir_add_entry`. It does not look for the name; if there is a record of that name already,
      the directory has two afterwards. */
  method Add(fs: Ext2.Ext2, dir: Ext2.Inode, name: seq<Byte>, inode: nat, ftype: Byte, ghost rss: seq<seq<Rec>>)
    returns (ok: bool, ghost rss': seq<seq<Rec>>)
    requires fs.Valid() && Dir(fs.disk[..], dir.block, rss)
    requires 0 < inode < 0x1_0000_0000 && forall i :: 0 <= i < 12 ==> dir.block[i] !in fs.Free()
    modifies fs, fs.disk, dir
    ensures fs.Valid() && Dir(fs.disk[..], dir.block, rss')
    ensures ok <==> 0 < |name| < 256 && (!NoRoom(Flatten(rss), Align4(8 + |name|)) || (0 in old(dir.block[..12]) && old(fs.Free()) != {}))
    ensures if ok && NoRoom(Flatten(rss), Align4(8 + |name|)) then
        && Extended(old(dir.block), dir.block, old(fs.Free()))
        && dir.size == (old(dir.size) + fs.g.blockSize) % TWO32 && dir.blocks == (old(dir.blocks) + fs.g.blockSize / 512) % TWO32
      else unchanged(dir)
    ensures if ok then Binds(Flatten(rss), Flatten(rss'), name, Entry(inode, ftype)) else rss' == rss
    ensures ok && Unique(Flatten(rss)) ==> (Unique(Flatten(rss')) <==> name !in Bindings(Flatten(rss)))
    ensures ok && Unique(Flatten(rss)) && name !in Bindings(Flatten(rss)) ==>
      Bindings(Flatten(rss')) == Bindings(Flatten(rss))[name := Entry(inode, ftype)]
    ensures forall b: nat :: b < fs.disk.Length && b !in dir.block[..12] ==> fs.disk[b] == old(fs.disk[b])
    ensures fs.Free() == old(fs.Free()) - (set b | b in dir.block[..12]) && fs.Beyond() == old(fs.Beyond())
  {
    hide Lookup, Tiles, RecAt, Length, FreeOf, Accounted, MapsSized, Bindings, Unique, Flatten, NoRoom, Dir, Binds;
    rss' := rss;
    DirBlock(fs.disk[..], dir.block, rss, 0);
    DirBlocksUsed(dir.block, fs.Free());
    if |name| == 0 || |name| > 255 { return false, rss; }
    var need := Align4(8 + |name|);
    NoFlatten();
    assert rss[..0] == [];
    RoomStart(need);
    for i := 0 to 12
      invariant fs.disk[..] == old(fs.disk[..]) && unchanged(fs) && unchanged(dir) && NoRoom(Flatten(rss[..i]), need)
    {
      FlattenNext(rss, i);
      FlattenSplit(rss, i);
      RoomConcat(Flatten(rss[..i]), rss[i], Flatten(rss[i + 1..]), need);
      DirBlock(fs.disk[..], dir.block, rss, i);
      if dir.block[i] == 0 { continue; }
      var b := fs.disk[dir.block[i]];
      var done, b';
      ghost var k, mid;
      done, b', k, mid := AddIn(b, name, inode, ftype, rss[i]);
      if done {
        RecordAdded(rss, i, k, mid, name, Entry(inode, ftype));
        ghost var rs' := rss[i][..k] + mid + rss[i][k + 1..];
        fs.disk[dir.block[i]] := b';
        rss' := rss[i := rs'];
        DirChanged(old(fs.disk[..]), fs.disk[..], dir.block, rss, i, rs');
        AddedName(Flatten(rss), Flatten(rss'), name, Entry(inode, ftype));
        return true, rss';
      }
    }
    assert rss[..12] == rss;
    ok, rss' := AddBlock(fs, dir, name, inode, ftype, rss);
    if ok { AddedName(Flatten(rss), Flatten(rss'), name, Entry(inode, ftype)); }
  }

  lemma AddedName(was: seq<Rec>, now: seq<Rec>, name: seq<Byte>, e: Entry)
    requires Binds(was, now, name, e)
    ensures Unique(was) ==> (Unique(now) <==> name !in Bindings(was))
    ensures Unique(was) && name !in Bindings(was) ==> Bindings(now) == Bindings(was)[name := e]
  {
    hide Unique, Bindings, Binds;
    if Unique(was) { Bound(was, now, name, e); }
  }

  lemma DirBlocksUsed(p: seq<nat>, free: set<nat>)
    requires |p| >= 12 && forall i :: 0 <= i < 12 ==> p[i] !in free
    ensures free - (set b | b in p[..12]) == free
  {
  }

  lemma RoomStart(need: nat)
    ensures NoRoom([], need)
  {
  }

  lemma RoomConcat(xs: seq<Rec>, ys: seq<Rec>, zs: seq<Rec>, need: nat)
    ensures NoRoom(xs + ys, need) <==> NoRoom(xs, need) && NoRoom(ys, need)
    ensures !NoRoom(ys, need) ==> !NoRoom(xs + ys + zs, need)
    ensures ys == [] ==> NoRoom(ys, need)
  {
    hide HasRoom;
    assert forall r :: r in xs + ys <==> r in xs || r in ys;
    assert forall r :: r in xs + ys + zs <==> r in xs || r in ys || r in zs;
  }

  lemma DirBlock(d: seq<Block>, p: seq<nat>, rss: seq<seq<Rec>>, i: nat)
    requires Dir(d, p, rss) && i < 12
    ensures |p| == 15 && |rss| == 12 && (p[i] == 0 ==> rss[i] == [])
    ensures p[i] != 0 ==> p[i] < |d| && Tiles(d[p[i]], 0, rss[i], |d[p[i]]|)
  {
    assert Holds(d, p[i], rss[i]);
  }

  lemma RecordAdded(rss: seq<seq<Rec>>, i: nat, k: nat, mid: seq<Rec>, name: seq<Byte>, e: Entry)
    requires i < |rss| && k < |rss[i]| && Binds([rss[i][k]], mid, name, e)
    ensures Binds(Flatten(rss), Flatten(rss[i := rss[i][..k] + mid + rss[i][k + 1..]]), name, e)
  {
    hide Flatten, Binds;
    var rs := rss[i];
    var rs' := rs[..k] + mid + rs[k + 1..];
    var pre, post := Flatten(rss[..i]), Flatten(rss[i + 1..]);
    FlattenSplit(rss, i);
    FlattenChanged(rss, i, rs');
    assert pre + rs + post == (pre + rs[..k]) + [rs[k]] + (rs[k + 1..] + post);
    assert pre + rs' + post == (pre + rs[..k]) + mid + (rs[k + 1..] + post);
    BindsWithin(pre + rs[..k], [rs[k]], mid, rs[k + 1..] + post, name, e);
  }

  /** The first of the 12 pointers that was no block now leads to a block from `free`. */
  ghost predicate Extended(was: seq<nat>, now: seq<nat>, free: set<nat>) {
    |was| == 15 && exists i :: 0 <= i < 12 && ExtendedAt(was, now, free, i)
  }

  ghost predicate ExtendedAt(was: seq<nat>, now: seq<nat>, free: set<nat>, i: int)
    requires |was| == 15 && 0 <= i < 12
  {
    0 !in was[..i] && was[i] == 0 && |now| == 15 && now == was[i := now[i]] && now[i] in free
  }

  /** The second loop of `ext2_dir_add_entry`: a new block of one record. */
  method AddBlock(fs: Ext2.Ext2, dir: Ext2.Inode, name: seq<Byte>, inode: nat, ftype: Byte, ghost rss: seq<seq<Rec>>)
    returns (ok: bool, ghost rss': seq<seq<Rec>>)
    requires fs.Valid() && Dir(fs.disk[..], dir.block, rss)
    requires 0 < |name| < 256 && 0 < inode < 0x1_0000_0000 && forall i :: 0 <= i < 12 ==> dir.block[i] !in fs.Free()
    modifies fs, fs.disk, dir
    ensures fs.Valid() && Dir(fs.disk[..], dir.block, rss')
    ensures ok <==> 0 in old(dir.block[..12]) && old(fs.Free()) != {}
    ensures ok ==> Extended(old(dir.block), dir.block, old(fs.Free()))
    ensures ok ==> dir.size == (old(dir.size) + fs.g.blockSize) % TWO32 && dir.blocks == (old(dir.blocks) + fs.g.blockSize / 512) % TWO32
    ensures !ok ==> unchanged(dir)
    ensures if ok then Binds(Flatten(rss), Flatten(rss'), name, Entry(inode, ftype)) else rss' == rss
    ensures forall b: nat :: b < fs.disk.Length && b !in dir.block[..12] ==> fs.disk[b] == old(fs.disk[b])
    ensures fs.Free() == old(fs.Free()) - (set b | b in dir.block[..12]) && fs.Beyond() == old(fs.Beyond())
  {
    hide Lookup, Tiles, RecAt, Length, FreeOf, Accounted, MapsSized, Binds, Flatten, SetLen, SetEntry;
    rss' := rss;
    DirBlock(fs.disk[..], dir.block, rss, 0);
    DirBlocksUsed(dir.block, fs.Free());
    for i := 0 to 12
      invariant 0 !in dir.block[..i] && fs.disk[..] == old(fs.disk[..]) && unchanged(fs) && unchanged(dir)
    {
      if dir.block[i] != 0 { continue; }
      assert dir.block[i] in dir.block[..12];
      ghost var was, free := dir.block, fs.Free();
      ok, rss' := ExtendAt(fs, dir, name, inode, ftype, rss, i);
      assert ok ==> ExtendedAt(was, dir.block, free, i);
      return;
    }
    ok := false;
  }

  /** Allocates the new block and writes its record. */
  method ExtendAt(fs: Ext2.Ext2, dir: Ext2.Inode, name: seq<Byte>, inode: nat, ftype: Byte, ghost rss: seq<seq<Rec>>, i: nat)
    returns (ok: bool, ghost rss': seq<seq<Rec>>)
    requires fs.Valid() && Dir(fs.disk[..], dir.block, rss)
    requires 0 < |name| < 256 && 0 < inode < 0x1_0000_0000 && forall i :: 0 <= i < 12 ==> dir.block[i] !in fs.Free()
    requires i < 12 && dir.block[i] == 0
    modifies fs, fs.disk, dir
    ensures fs.Valid() && Dir(fs.disk[..], dir.block, rss')
    ensures ok <==> old(fs.Free()) != {}
    ensures if ok then Binds(Flatten(rss), Flatten(rss'), name, Entry(inode, ftype)) else rss' == rss
    ensures !ok ==> unchanged(dir) && fs.disk[..] == old(fs.disk[..]) && fs.Free() == old(fs.Free())
    ensures ok ==> dir.size == (old(dir.size) + fs.g.blockSize) % TWO32 && dir.blocks == (old(dir.blocks) + fs.g.blockSize / 512) % TWO32
    ensures ok ==> dir.block == old(dir.block)[i := dir.block[i]] && dir.block[i] in old(fs.Free()) && fs.Free() == old(fs.Free()) - {dir.block[i]}
    ensures fs.Beyond() == old(fs.Beyond())
    ensures forall b: nat :: b < fs.disk.Length && b != dir.block[i] ==> fs.disk[b] == old(fs.disk[b])
  {
    hide Lookup, Tiles, RecAt, Length, FreeOf, Accounted, MapsSized, Binds, Flatten, SetLen, SetEntry;
    rss' := rss;
    ghost var d := fs.disk[..];
    DirBlock(d, dir.block, rss, i);
    var nb;
    ok, nb := fs.AllocBlock();
    if !ok { return; }
    FreeInRange(fs.g, old(fs.maps), nb);
    NewBlock(fs.g.blockSize, inode, ftype, name);
    BlockAdded(rss, i, Rec(inode, fs.g.blockSize, ftype, name));
    rss' := rss[i := [Rec(inode, fs.g.blockSize, ftype, name)]];
    fs.disk[nb] := SetEntry(SetLen(Zeros(fs.g.blockSize), 0, fs.g.blockSize), 0, inode, ftype, name);
    dir.size := (dir.size + fs.g.blockSize) % TWO32;
    dir.blocks := (dir.blocks + fs.g.blockSize / 512) % TWO32;
    dir.block := dir.block[i := nb];
    DirExtended(d, fs.disk[..], old(dir.block), rss, i, nb, rss'[i]);
  }

  lemma NewBlock(n: nat, inode: nat, ftype: Byte, name: seq<Byte>)
    requires 1024 <= n <= 4096 && n % 512 == 0 && 0 < |name| < 256 && 0 < inode < 0x1_0000_0000
    ensures var b := SetEntry(SetLen(Zeros(n), 0, n), 0, inode, ftype, name);
      |b| == n && Tiles(b, 0, [Rec(inode, n, ftype, name)], n)
  {
    hide SetLen, SetEntry;
    TailSet(Zeros(n), 0, n, inode, ftype, name);
    var b := SetEntry(SetLen(Zeros(n), 0, n), 0, inode, ftype, name);
    TilesOne(b, 0, Rec(inode, n, ftype, name));
  }

  lemma BlockAdded(rss: seq<seq<Rec>>, i: nat, r: Rec)
    requires i < |rss| && rss[i] == [] && r.Live()
    ensures Binds(Flatten(rss), Flatten(rss[i := [r]]), r.name, Entry(r.inode, r.ftype))
  {
    hide Flatten, Binds;
    FlattenSplit(rss, i);
    FlattenChanged(rss, i, [r]);
    NewBinds(r);
    BindsWithin(Flatten(rss[..i]), [], [r], Flatten(rss[i + 1..]), r.name, Entry(r.inode, r.ftype));
  }

  lemma DirExtended(d: seq<Block>, d': seq<Block>, p: seq<nat>, rss: seq<seq<Rec>>, i: nat, nb: nat, rs: seq<Rec>)
    requires Dir(d, p, rss) && i < 12 && p[i] == 0 && |d'| == |d| && nb != 0 && Holds(d', nb, rs)
    requires forall j :: 0 <= j < 12 ==> p[j] != nb
    requires forall b: nat :: b < |d| && b != nb ==> d'[b] == d[b]
    ensures Dir(d', p[i := nb], rss[i := rs])
  {
    hide Tiles;
    var p', rss' := p[i := nb], rss[i := rs];
    forall j | 0 <= j < 12
      ensures Holds(d', p'[j], rss'[j])
    {
      assert Holds(d, p[j], rss[j]);
    }
  }
}
