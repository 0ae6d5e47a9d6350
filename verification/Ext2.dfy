/** The block allocator and the file data path of kernel/src/fs/ext2.c. */
module Ext2 {
  import opened Ext2Layout
  import opened Ext2Places

  /** The part of an inode that the data path changes. */
  class Inode {
    const regular: bool
    var size: nat
    var blocks: nat
    var block: seq<nat>

    constructor (regular: bool)
      ensures this.regular == regular && size == 0 && blocks == 0 && block == seq(15, _ => 0)
    {
      this.regular := regular;
      size, blocks, block := 0, 0, seq(15, _ => 0);
    }
  }

  class Ext2 {
    const g: Geometry
    const disk: array<Block>
    var maps: seq<Bitmap>
    var groupFree: seq<nat>
    var total: nat

    /** The free blocks, and those of them that allocation comes to. */
    ghost function AllFree(): set<nat>
      requires g.perGroup > 0
      reads this`maps
    {
      FreeOf(g, maps)
    }

    ghost function Free(): set<nat>
      requires g.perGroup > 0
      reads this`maps
    {
      Reach(g, AllFree())
    }

    ghost function Beyond(): set<nat>
      requires g.perGroup > 0
      reads this`maps
    {
      AllFree() - Free()
    }

    ghost predicate Valid()
      reads this, disk
    {
      && g.Valid() && disk.Length == g.blocks && Sized(disk[..], g.blockSize) && MapsSized(g, maps)
      && Accounted(g, AllFree(), groupFree, total) && 0 !in AllFree()
    }

    /** `ext2_alloc_block`: the lowest free block, zeroed. The search ends at the first group whose
        descriptor is not in the first block of the table. */
    method AllocBlock() returns (ok: bool, b: nat)
      requires Valid()
      modifies this, disk
      ensures Valid() && Beyond() == old(Beyond())
      ensures ok <==> old(Free()) != {}
      ensures ok ==> b in old(Free()) && b != 0 && forall f :: f in old(AllFree()) ==> b <= f
      ensures ok ==> Grew(old(disk[..]), old(Free()), disk[..], Free(), {b})
      ensures ok ==> g.first <= b < g.blocks <= disk.Length && Flipped(g, old(maps), maps, b, true)
      ensures ok ==> disk[b] == seq(g.blockSize, _ => 0)
      ensures !ok ==> disk[..] == old(disk[..]) && maps == old(maps)
    {
      hide FreeOf, NoneBelow, Accounted, BlockAt, TestBit, MapsSized, Sized, Reach, Geometry.Reached, Geometry.Mounted, Flipped;
      SearchStarts(g, maps);
      MountedInside(g);
      for k := 0 to g.Mounted()
        invariant Valid() && disk[..] == old(disk[..]) && maps == old(maps)
        invariant NoneBelow(g, maps, BlockAt(g, k, 0))
      {
        if k >= g.Described() {
          SearchEnds(g, maps, k);
          return false, 0;
        }
        Sizes();
        if groupFree[k] == 0 {
          GroupEmpty(g, maps, groupFree, total, k);
          continue;
        }
        var found, i := FindBit(k);
        if found {
          b := BlockAt(g, k, i);
          FreeOfAll();
          TakeBlock(k, i);
          Minimal(g, old(maps), b);
          FreeInRange(g, old(maps), b);
          return true, b;
        }
      }
      SearchEnds(g, maps, g.Mounted());
      return false, 0;
    }

    lemma FreeOfAll()
      requires g.perGroup > 0
      ensures Free() <= AllFree() && Free() == Reach(g, AllFree())
    {
    }

    lemma Sizes()
      requires Valid()
      ensures |groupFree| == g.groups && |maps| == g.groups
      ensures forall k :: 0 <= k < |maps| ==> |maps[k]| == g.blockSize
    {
    }

    /** The bitmap loop of `ext2_alloc_block`, over group `k`. */
    method FindBit(k: nat) returns (found: bool, i: nat)
      requires Valid() && k < g.groups && k < g.Mounted() && k < g.Described() && NoneBelow(g, maps, BlockAt(g, k, 0))
      ensures found ==> i < g.perGroup && BlockAt(g, k, i) in Free() && NoneBelow(g, maps, BlockAt(g, k, i))
      ensures !found ==> NoneBelow(g, maps, BlockAt(g, k + 1, 0))
    {
      Sizes();
      hide FreeOf, NoneBelow, Accounted, BlockAt, TestBit, Geometry.Reached, Geometry.Mounted;
      var m := maps[k];
      i := 0;
      while i < g.perGroup
        invariant i <= g.perGroup && NoneBelow(g, maps, BlockAt(g, k, i))
      {
        BitTaken(g, maps, k, i);
        var blk := BlockAt(g, k, i);
        if blk >= g.blocks { break; }
        if !TestBit(m, i) {
          InGroup(g, k, i);
          return true, i;
        }
        i := i + 1;
      }
      GroupDone(g, maps, k, i);
      return false, i;
    }

    /** Marks a free block as used, counts it and zeroes it. */
    method TakeBlock(k: nat, i: nat)
      requires Valid() && k < g.groups && i < g.perGroup && BlockAt(g, k, i) in Free()
      modifies this, disk
      ensures Valid() && Grew(old(disk[..]), old(Free()), disk[..], Free(), {BlockAt(g, k, i)}) && Beyond() == old(Beyond())
      ensures disk[..][BlockAt(g, k, i)] == Zeros(g.blockSize)
      ensures Flipped(g, old(maps), maps, BlockAt(g, k, i), true)
    {
      hide FreeOf, Accounted, BlockAt, TestBit, SetBit, ClearBit, MapsSized, Sized, Grew, IsFree, Flipped;
      var blk := BlockAt(g, k, i);
      BitFlips(g, maps, blk);
      FreeInRange(g, maps, blk);
      FreeAfterSet(g, maps, k, i);
      BlockAtIs(g, k, i);
      TakeAccounted(g, AllFree(), groupFree, total, blk);
      ReachTaken(g, AllFree(), blk);
      MapUpdated(g, maps, k, i);
      OneBlock(disk[..], Free(), blk, Zeros(g.blockSize), g.blockSize);
      Sizes();
      ghost var d := disk[..];
      maps := maps[k := SetBit(maps[k], i)];
      groupFree := groupFree[k := groupFree[k] - 1];
      if total > 0 { total := total - 1; }
      disk[blk] := Zeros(g.blockSize);
      assert disk[..] == d[blk := Zeros(g.blockSize)];
    }

    /** `ext2_free_block`. It fails for a block of a group whose descriptor cannot be read. */
    method FreeBlock(b: nat) returns (ok: bool)
      requires Valid()
      modifies this
      ensures Valid()
      ensures ok <==> g.Known(b)
      ensures AllFree() == if ok && b != 0 then old(AllFree()) + {b} else old(AllFree())
      ensures if ok && b != 0 && b !in old(AllFree()) then g.first <= b && Flipped(g, old(maps), maps, b, false) else maps == old(maps)
    {
      hide FreeOf, Flipped, Accounted, TestBit, SetBit, ClearBit, MapsSized, Sized;
      if b == 0 { return true; }
      hide Geometry.Group, Geometry.Described;
      if b >= g.blocks { return false; }
      NonzeroAddressable(g, b);
      BlockReturned(g, maps, groupFree, total, b);
      BitFlips(g, maps, b);
      var k := g.Group(b);
      var i := (b - g.first) % g.perGroup;
      if k >= g.Described() { return false; }
      if !TestBit(maps[k], i) { return true; }
      maps := maps[k := ClearBit(maps[k], i)];
      groupFree := groupFree[k := groupFree[k] + 1];
      total := total + 1;
      return true;
    }

    /** Allocates a block and writes the next piece of the data into it. */
    method StoreBlock(data: Block, from: nat) returns (ok: bool, b: nat, to: nat)
      requires Valid() && from <= |data|
      modifies this, disk
      ensures Valid() && Beyond() == old(Beyond())
      ensures ok <==> old(Free()) != {}
      ensures ok ==> b != 0 && Filled(old(disk[..]), old(Free()), disk[..], Free(), {}, [b], data, from, to)
      ensures !ok ==> Free() == old(Free())
    {
      hide FreeOf, Reach, Accounted, MapsSized, Flipped, Stores;
      ok, b := AllocBlock();
      to := from;
      if !ok { return; }
      FreeInside(g, old(maps), b);
      var take := if |data| - from < g.blockSize then |data| - from else g.blockSize;
      disk[b] := data[from..from + take] + Zeros(g.blockSize - take);
      to := from + take;
      BlockStores(disk[..], b, data, from, take, g.blockSize);
      assert {} + Elems([b]) == {b};
    }

    /** An index block and `count` data blocks behind it: the single indirect part of
        `ext2_inode_write_data`, and one round of its double indirect part. */
    method WriteIndexed(data: Block, from: nat, count: nat) returns (ok: bool, ind: nat, ghost xs: seq<nat>, to: nat, used: nat)
      requires Valid() && from <= |data| && count <= g.Pointers()
      modifies this, disk
      ensures Valid() && Beyond() == old(Beyond())
      ensures ok <==> 1 + count <= |old(Free())|
      ensures ok ==> ind != 0 && |xs| == count && used == 1 + count && Listed(disk[..], ind, xs)
      ensures ok ==> Filled(old(disk[..]), old(Free()), disk[..], Free(), {ind}, xs, data, from, to)
    {
      hide FreeOf, Reach, Accounted, MapsSized, Grew, Lists, Filled, Elems;
      ghost var d, f := disk[..], Free();
      xs, to, used := [], from, 0;
      ok, ind := AllocBlock();
      if !ok { return; }
      used := used + 1;
      FreeInside(g, old(maps), ind);
      FilledNothing(d, f, disk[..], Free(), {ind}, data, from);
      var buf := Zeros(g.blockSize);
      ListsNothing(g.blockSize);
      var j := 0;
      while j < count
        invariant Valid() && Beyond() == old(Beyond()) && j == |xs| <= count && used == 1 + j && |buf| == g.blockSize && Lists(buf, xs)
        invariant Filled(d, f, disk[..], Free(), {ind}, xs, data, from, to)
      {
        ghost var d1, f1, mid := disk[..], Free(), to;
        var b;
        FilledCount(d, f, d1, f1, {ind}, xs, data, from, to);
        ok, b, to := StoreBlock(data, to);
        if !ok { return; }
        FilledBoth(d, f, d1, f1, disk[..], Free(), {ind}, xs, {}, [b], data, from, mid, to);
        FilledInside(d1, f1, disk[..], Free(), {}, [b], data, mid, to);
        BlockNumberOf(b, disk.Length);
        ListsMore(buf, xs, b);
        buf := PutWord(buf, j, b);
        used := used + 1;
        xs := xs + [b];
        j := j + 1;
        NoMore({ind});
      }
      FilledCount(d, f, disk[..], Free(), {ind}, xs, data, from, to);
      NotElem(ind, xs);
      FilledMeta(d, f, disk[..], Free(), {ind}, xs, data, from, to, ind, buf);
      disk[ind] := buf;
      ok := true;
    }

    /** The double indirect part of `ext2_inode_write_data`. */
    method WriteDouble(data: Block, from: nat, count: nat) returns (ok: bool, ind2: nat, ghost mids: seq<nat>, ghost inner: seq<seq<nat>>, to: nat, used: nat)
      requires Valid() && from <= |data| && 0 < count <= g.Pointers() * g.Pointers()
      modifies this, disk
      ensures Valid() && Beyond() == old(Beyond())
      ensures ok <==> 1 + Rounds(count, g.Pointers()) + count <= |old(Free())|
      ensures ok ==> used == 1 + Rounds(count, g.Pointers()) + count
      ensures ok ==> ind2 != 0 && |Concat(inner)| == count && |mids| == Rounds(count, g.Pointers()) && Listed(disk[..], ind2, mids)
      ensures ok ==> Rows(inner, g.Pointers())
      ensures ok ==> Doubled(old(disk[..]), old(Free()), disk[..], Free(), ind2, mids, inner, data, from, to)
    {
      hide FreeOf, Reach, Accounted, MapsSized, Grew, Lists, Filled, Doubled, Rounds, Concat, Rows;
      ghost var d, f := disk[..], Free();
      var ptrs := g.Pointers();
      mids, inner, to, used := [], [], from, 0;
      ok, ind2 := AllocBlock();
      if !ok { return; }
      used := used + 1;
      FreeInside(g, old(maps), ind2);
      DoubledNothing(d, f, disk[..], Free(), ind2, data, from);
      NoRows(ptrs);
      var buf := Zeros(g.blockSize);
      ListsNothing(g.blockSize);
      var remaining := count;
      var idx := 0;
      while remaining > 0
        invariant Valid() && Beyond() == old(Beyond()) && idx == |mids| && |buf| == g.blockSize && Lists(buf, mids)
        invariant |Concat(inner)| == count - remaining && 0 <= remaining && used == 1 + idx + (count - remaining)
        invariant if remaining > 0 then count - remaining == idx * ptrs else idx == Rounds(count, ptrs)
        invariant Rows(inner, ptrs) && (remaining > 0 && inner != [] ==> |inner[|inner| - 1]| == ptrs)
        invariant Doubled(d, f, disk[..], Free(), ind2, mids, inner, data, from, to)
      {
        RoundsLeft(count, ptrs, idx);
        ghost var d1, f1, mid := disk[..], Free(), to;
        DoubledCount(d, f, d1, f1, ind2, mids, inner, data, from, to);
        var take := if remaining > ptrs then ptrs else remaining;
        var m, inc;
        ghost var xs;
        ok, m, xs, to, inc := WriteIndexed(data, to, take);
        if !ok { return; }
        used := used + inc;
        DoubledMore(d, f, d1, f1, disk[..], Free(), ind2, mids, inner, m, xs, data, from, mid, to);
        ConcatMore(inner, xs);
        RowsMore(inner, xs, ptrs);
        BlockNumber(disk[..], m, xs);
        ListsMore(buf, mids, m);
        buf := PutWord(buf, idx, m);
        mids, inner := mids + [m], inner + [xs];
        MulNext(idx, ptrs);
        remaining := remaining - take;
        idx := idx + 1;
      }
      DoubledCount(d, f, disk[..], Free(), ind2, mids, inner, data, from, to);
      DoubledDone(d, f, disk[..], Free(), ind2, mids, inner, data, from, to, buf);
      disk[ind2] := buf;
      ok := true;
    }

    /** The direct part of `ext2_inode_write_data`. */
    method WriteDirect(inode: Inode, data: Block, count: nat) returns (ok: bool, ghost direct: seq<nat>, to: nat)
      requires Valid() && count <= 12 && |inode.block| == 15 && forall i :: 0 <= i < 14 ==> inode.block[i] == 0
      modifies this, disk, inode`block
      ensures Valid() && Beyond() == old(Beyond())
      ensures ok <==> count <= |old(Free())|
      ensures ok ==> |direct| == count && Filled(old(disk[..]), old(Free()), disk[..], Free(), {}, direct, data, 0, to)
      ensures ok ==> |inode.block| == 15 && (forall i :: 0 <= i < 14 ==> inode.block[i] == if i < count then direct[i] else 0)
    {
      hide FreeOf, Reach, Accounted, MapsSized, Stores, Grew, Filled;
      ghost var d, f := disk[..], Free();
      direct, to := [], 0;
      NothingGrew(d, f);
      FilledNothing(d, f, d, f, {}, data, 0);
      var i := 0;
      while i < count
        invariant Valid() && Beyond() == old(Beyond()) && i == |direct| <= count && |inode.block| == 15
        invariant forall j :: 0 <= j < 14 ==> inode.block[j] == if j < i then direct[j] else 0
        invariant Filled(d, f, disk[..], Free(), {}, direct, data, 0, to)
      {
        ghost var d1, f1, mid := disk[..], Free(), to;
        var b;
        FilledCount(d, f, d1, f1, {}, direct, data, 0, to);
        ok, b, to := StoreBlock(data, to);
        if !ok { return; }
        FilledBoth(d, f, d1, f1, disk[..], Free(), {}, direct, {}, [b], data, 0, mid, to);
        NoMeta();
        inode.block := inode.block[i := b];
        direct := direct + [b];
        i := i + 1;
      }
      FilledCount(d, f, disk[..], Free(), {}, direct, data, 0, to);
      ok := true;
    }

    /** `ext2_inode_write_data`: the old blocks go back first; then the data goes into as many free
        blocks as it needs, behind exactly as many index blocks. The number of blocks and the size
        in the inode are cut to 32 bits. */
    method WriteData(inode: Inode, data: Block, ghost sh: Shape) returns (ok: bool, ghost new_: Shape)
      requires Valid() && Laid(disk[..], inode.block, sh) && |data| < TWO64
      modifies this, disk, inode
      ensures Valid()
      ensures var n, ptrs := Rounded(|data|, g.blockSize), g.Pointers();
        ok <==> AllKnown(g, AllBlocks(sh)) && n <= 12 + ptrs + ptrs * ptrs
                && Total(n, ptrs) <= |Reach(g, old(AllFree()) + Elems(AllBlocks(sh)))|
      ensures ok ==> Laid(disk[..], inode.block, new_)
      ensures ok ==> var kept := Kept(|data|, g.blockSize);
        |Data(new_)| == Rounded(|data|, g.blockSize) && Taken(disk[..], Data(new_), kept) == data[..kept]
      ensures ok ==> HasBytes(disk[..], inode.block, g.blockSize, data[..Kept(|data|, g.blockSize)])
      ensures ok ==> EndsAt(disk[..], inode.block, g.blockSize, Rounded(|data|, g.blockSize))
      ensures ok ==> Grew(old(disk[..]), Reach(g, old(AllFree()) + Elems(AllBlocks(sh))), disk[..], Free(), Elems(AllBlocks(new_)))
      ensures ok ==> Beyond() == old(AllFree()) + Elems(AllBlocks(sh)) - Reach(g, old(AllFree()) + Elems(AllBlocks(sh)))
      ensures ok ==> |Elems(AllBlocks(new_))| == |AllBlocks(new_)| == Total(Rounded(|data|, g.blockSize), g.Pointers())
      ensures ok ==> inode.size == |data| % TWO32 && inode.blocks == |AllBlocks(new_)| * (g.blockSize / 512)
    {
      hide FreeOf, Accounted, MapsSized, Rounded, Kept, Total, Taken, Data, AllBlocks, Elems, Lists, Reach, AllKnown, Returned, FreeOrder, Cleared, Grew, Laid, HasBytes, EndsAt, Packed;
      new_ := NOTHING;
      PointersFit(disk[..], inode.block, sh);
      ok := ClearData(inode, sh);
      if !ok { return; }
      var needed := Rounded(|data|, g.blockSize);
      EnoughBlocks(|data|, g.blockSize);
      EmptyFile(disk[..], Free(), old(inode.block), g.Pointers());
      if |data| == 0 {
        assert data[..0] == [];
        NothingPlaced(disk[..], inode.block, g.blockSize);
        return;
      }
      var ptrs := g.Pointers();
      if needed > 12 + ptrs + ptrs * ptrs { return false, new_; }
      var used;
      ok, used, new_ := WriteBlocks(inode, data[..Kept(|data|, g.blockSize)], needed);
      if !ok { return; }
      PackedPlace(disk[..], inode.block, new_, g.blockSize, Kept(|data|, g.blockSize));
      inode.size := |data| % TWO32;
      inode.blocks := used * (g.blockSize / 512);
    }

    /** The direct and the single indirect part of `ext2_inode_write_data`. */
    method WriteFront(inode: Inode, data: Block, needed: nat) returns (ok: bool, used: nat, to: nat, ghost sh: Shape)
      requires Valid() && |inode.block| == 15 && forall i :: 0 <= i < 14 ==> inode.block[i] == 0
      modifies this, disk, inode`block
      ensures Valid() && Beyond() == old(Beyond())
      ensures ok <==> InFront(needed, g.Pointers()) <= |old(Free())|
      ensures ok ==> Building(old(disk[..]), old(Free()), disk[..], Free(), inode.block, sh, data, to)
      ensures ok ==> sh == Shape(sh.direct, sh.ind, sh.single, 0, [], [])
      ensures ok ==> |sh.direct| == (if needed < 12 then needed else 12)
      ensures ok ==> |sh.single| == if needed < 12 then 0 else if needed - 12 < g.Pointers() then needed - 12 else g.Pointers()
      ensures ok ==> used == InFront(needed, g.Pointers()) && |Free()| == |old(Free())| - used && to <= |data|
      ensures ok ==> |Data(sh)| == (if needed < 12 + g.Pointers() then needed else 12 + g.Pointers()) && |AllBlocks(sh)| == used
    {
      hide FreeOf, Reach, Accounted, MapsSized, Stores, Grew, Filled, Laid, Lists, AllBlocks, Data, Elems, Building;
      ghost var d, f := disk[..], Free();
      var ptrs := g.Pointers();
      ghost var direct;
      sh, used := NOTHING, 0;
      var count := if needed < 12 then needed else 12;
      ok, direct, to := WriteDirect(inode, data, count);
      if !ok { return; }
      used := used + count;
      OnlyDirect(d, f, disk[..], Free(), inode.block, direct, data, to);
      sh := Shape(direct, 0, [], 0, [], []);
      BuildingCount(d, f, disk[..], Free(), inode.block, sh, data, to);
      if needed > 12 {
        var ind, inc;
        ghost var xs, d1, f1, mid := [], disk[..], Free(), to;
        var single := if needed - 12 > ptrs then ptrs else needed - 12;
        ok, ind, xs, to, inc := WriteIndexed(data, to, single);
        if !ok { return; }
        AddSingle(d, f, d1, f1, disk[..], Free(), inode.block, sh, ind, xs, data, mid, to);
        inode.block := inode.block[12 := ind];
        used := used + inc;
        sh := Shape(direct, ind, xs, 0, [], []);
        BuildingCount(d, f, disk[..], Free(), inode.block, sh, data, to);
      }
    }

    /** The three parts of `ext2_inode_write_data`, in order. */
    method WriteBlocks(inode: Inode, data: Block, needed: nat) returns (ok: bool, used: nat, ghost sh: Shape)
      requires Valid() && |inode.block| == 15 && forall i :: 0 <= i < 14 ==> inode.block[i] == 0
      requires needed <= 12 + g.Pointers() + g.Pointers() * g.Pointers() && |data| <= needed * g.blockSize
      modifies this, disk, inode`block
      ensures Valid() && Beyond() == old(Beyond())
      ensures ok <==> Total(needed, g.Pointers()) <= |old(Free())|
      ensures ok ==> Laid(disk[..], inode.block, sh) && |Data(sh)| == needed && Taken(disk[..], Data(sh), |data|) == data
      ensures ok ==> Packed(sh, g.Pointers())
      ensures ok ==> Grew(old(disk[..]), old(Free()), disk[..], Free(), Elems(AllBlocks(sh)))
      ensures ok ==> |Elems(AllBlocks(sh))| == |AllBlocks(sh)| == used == Total(needed, g.Pointers())
    {
      hide FreeOf, Reach, Accounted, MapsSized, Stores, Grew, Filled, Doubled, Laid, Lists, AllBlocks, Rounds, Taken, Data, Elems, Building, Rows;
      ghost var d, f := disk[..], Free();
      var ptrs := g.Pointers();
      var to;
      NoRows(ptrs);
      ok, used, to, sh := WriteFront(inode, data, needed);
      if !ok { return; }
      if needed > 12 + ptrs {
        var ind2, inc;
        ghost var mids, inner, d1, f1, mid := [], [], disk[..], Free(), to;
        BuildingLaid(d, f, d1, f1, inode.block, sh, data, mid);
        BuildingCount(d, f, d1, f1, inode.block, sh, data, mid);
        ok, ind2, mids, inner, to, inc := WriteDouble(data, to, needed - 12 - ptrs);
        if !ok { return; }
        AddDouble(d, f, d1, f1, disk[..], Free(), inode.block, sh, ind2, mids, inner, data, mid, to);
        inode.block := inode.block[13 := ind2];
        used := used + inc;
        sh := sh.(ind2 := ind2, mids := mids, inner := inner);
        BuildingCount(d, f, disk[..], Free(), inode.block, sh, data, to);
      }
      assert |Data(sh)| == needed;
      BuildingLaid(d, f, disk[..], Free(), inode.block, sh, data, to);
      Built(d, f, disk[..], Free(), inode.block, sh, data, to, g.blockSize);
    }

    // ----- Freeing

    /** Frees what an index block lists, then the index block, up to the first that cannot be freed. */
    method FreeIndexed(ind: nat, ghost xs: seq<nat>) returns (ok: bool)
      requires Valid() && ind != 0 && Listed(disk[..], ind, xs)
      modifies this
      ensures Valid() && (ok <==> AllKnown(g, xs + [ind]))
      ensures AllFree() == old(AllFree()) + Elems(Returned(g, xs + [ind]))
    {
      hide FreeOf, Accounted, MapsSized, Word, Lists, AllKnown, Returned, Geometry.Known;
      var buf := disk[ind];
      ListsAt(buf, xs, 0);
      ghost var k := 0;
      NoneReturned(g, xs);
      for i := 0 to g.Pointers()
        invariant Valid() && k == (if i < |xs| then i else |xs|) && AllFree() == old(AllFree()) + Elems(xs[..k])
        invariant AllKnown(g, xs[..k])
      {
        var b := Word(buf, i);
        ListsAt(buf, xs, i);
        if b != 0 {
          ElemsMore(xs, k);
          ok := FreeBlock(b);
          if !ok {
            StopsAt(g, xs, k, [ind]);
            return;
          }
          KnownNext(g, xs, k);
          k := k + 1;
        }
      }
      assert xs[..|xs|] == xs;
      ok := FreeBlock(ind);
      LastReturned(g, xs, ind);
    }

    /** The direct pointers in `ext2_inode_clear_data`. */
    method ClearDirect(inode: Inode, ghost sh: Shape) returns (ok: bool, ghost done: nat)
      requires Valid() && Laid(disk[..], inode.block, sh)
      modifies this, inode`block
      ensures Valid() && (ok <==> AllKnown(g, sh.direct)) && AllFree() == old(AllFree()) + Elems(Returned(g, sh.direct))
      ensures done <= 12 && (ok ==> done == 12) && inode.block == Cleared(old(inode.block), done)
    {
      hide FreeOf, Accounted, MapsSized, Word, Lists, Concat, Cleared, AllKnown, Returned, Geometry.Known;
      ghost var p, f := inode.block, AllFree();
      ghost var k := 0;
      ClearNext(p, 0);
      NoneReturned(g, sh.direct);
      for i := 0 to 12
        invariant Valid() && k == (if i < |sh.direct| then i else |sh.direct|) && AllFree() == f + Elems(sh.direct[..k])
        invariant AllKnown(g, sh.direct[..k]) && inode.block == Cleared(p, i)
      {
        ClearNext(p, i);
        if inode.block[i] != 0 {
          ElemsMore(sh.direct, k);
          ok := FreeBlock(inode.block[i]);
          if !ok {
            StopsAt(g, sh.direct, k, []);
            return false, i;
          }
          KnownNext(g, sh.direct, k);
          inode.block := inode.block[i := 0];
          k := k + 1;
        }
      }
      assert sh.direct[..|sh.direct|] == sh.direct;
      ReturnedAll(g, sh.direct);
      return true, 12;
    }

    /** `ext2_inode_clear_data`: gives the blocks back in order, up to the first that cannot be freed. */
    method ClearData(inode: Inode, ghost sh: Shape) returns (ok: bool)
      requires Valid() && Laid(disk[..], inode.block, sh)
      modifies this, inode
      ensures Valid() && (ok <==> AllKnown(g, AllBlocks(sh)))
      ensures AllFree() == old(AllFree()) + Elems(Returned(g, FreeOrder(sh)))
      ensures ok ==> AllFree() == old(AllFree()) + Elems(AllBlocks(sh))
      ensures ok ==> inode.block == Cleared(old(inode.block), 14) && inode.size == 0 && inode.blocks == 0
      ensures !ok ==> exists done :: 0 <= done <= 13 && inode.block == Cleared(old(inode.block), done)
      ensures !ok ==> inode.size == old(inode.size) && inode.blocks == old(inode.blocks)
    {
      hide FreeOf, Accounted, MapsSized, Word, Lists, Concat, Cleared, AllBlocks, AllKnown, Returned, Geometry.Known, Elems, Spread, FreeOrder;
      ghost var p, f := inode.block, AllFree();
      ghost var done;
      ClearOrder(g, sh);
      ok, done := ClearDirect(inode, sh);
      if !ok { return; }
      ClearNext(p, 12);
      if inode.block[12] != 0 {
        ok := FreeIndexed(inode.block[12], sh.single);
        if !ok { return; }
        inode.block := inode.block[12 := 0];
      }
      ClearNext(p, 13);
      if inode.block[13] != 0 {
        ok := FreeDouble(inode.block[13], sh.mids, sh.inner);
        if !ok { return; }
        inode.block := inode.block[13 := 0];
      }
      inode.size, inode.blocks := 0, 0;
      ok := true;
    }

    /** The double indirect part of `ext2_inode_clear_data`. */
    method FreeDouble(ind2: nat, ghost mids: seq<nat>, ghost inner: seq<seq<nat>>) returns (ok: bool)
      requires Valid() && ind2 != 0 && Listed(disk[..], ind2, mids) && |inner| == |mids|
      requires forall i :: 0 <= i < |mids| ==> Listed(disk[..], mids[i], inner[i])
      requires Inside(mids, g.blocks)
      modifies this
      ensures Valid() && (ok <==> AllKnown(g, Spread(mids, inner) + [ind2]))
      ensures AllFree() == old(AllFree()) + Elems(Returned(g, Spread(mids, inner) + [ind2]))
    {
      hide FreeOf, Accounted, MapsSized, Word, Lists, Inside, Elems, AllKnown, Returned, Geometry.Known, Spread;
      var buf := disk[ind2];
      ListsAt(buf, mids, 0);
      ghost var k := 0;
      SpreadStarts(g, mids, inner);
      for i := 0 to g.Pointers()
        invariant Valid() && k == if i < |mids| then i else |mids|
        invariant AllKnown(g, Spread(mids[..k], inner[..k])) && AllFree() == old(AllFree()) + Elems(Spread(mids[..k], inner[..k]))
      {
        var b := Word(buf, i);
        ListsAt(buf, mids, i);
        if b != 0 {
          SpreadUpTo(mids, inner, k);
          ElemsConcat(Spread(mids[..k], inner[..k]), Returned(g, inner[k] + [mids[k]]));
          SpreadNext(g, mids, inner, k, ind2);
          ok := FreeIndexed(b, inner[k]);
          if !ok { return; }
          k := k + 1;
        }
      }
      assert mids[..|mids|] == mids && inner[..|inner|] == inner;
      ok := FreeBlock(ind2);
      LastReturned(g, Spread(mids, inner), ind2);
    }

    // ----- Reading

    /** The loop over an index block in `ext2_read_file_data`. */
    method ReadIndexed(ind: nat, want: nat, ghost xs: seq<nat>) returns (out: Block)
      requires Valid() && ind != 0 && Listed(disk[..], ind, xs) && Inside(xs, g.blocks)
      ensures out == Taken(disk[..], xs, want)
    {
      hide FreeOf, Accounted, MapsSized, Word, Taken, Lists;
      var buf := disk[ind];
      var remain := want;
      out := [];
      var i := 0;
      TakenStart(disk[..], xs, want);
      ListsAt(buf, xs, 0);
      while i < g.Pointers() && remain > 0
        invariant i <= |xs| && out == Taken(disk[..], xs[..i], want) && remain == want - |out| >= 0
      {
        var b := Word(buf, i);
        ListsAt(buf, xs, i);
        if b == 0 { break; }
        TakenNext(disk[..], xs, i, want);
        var take := if remain < g.blockSize then remain else g.blockSize;
        out := out + disk[b][..take];
        remain := remain - take;
        i := i + 1;
      }
      TakenAll(disk[..], xs, i, want);
    }

    /** The direct pointers in `ext2_read_file_data`. */
    method ReadDirect(inode: Inode, want: nat, ghost sh: Shape) returns (out: Block)
      requires Valid() && Laid(disk[..], inode.block, sh)
      ensures out == Taken(disk[..], sh.direct, want)
    {
      hide FreeOf, Accounted, MapsSized, Taken, Lists, Concat;
      var remain := want;
      out := [];
      var i := 0;
      TakenStart(disk[..], sh.direct, want);
      while i < 12 && remain > 0
        invariant i <= |sh.direct| && out == Taken(disk[..], sh.direct[..i], want) && remain == want - |out| >= 0
      {
        var b := inode.block[i];
        if b == 0 { break; }
        TakenNext(disk[..], sh.direct, i, want);
        var take := if remain < g.blockSize then remain else g.blockSize;
        out := out + disk[b][..take];
        remain := remain - take;
        i := i + 1;
      }
      TakenAll(disk[..], sh.direct, i, want);
    }

    /** `ext2_read_file_data` */
    method ReadData(inode: Inode, cap: nat, ghost sh: Shape) returns (code: int, out: Block)
      requires Valid() && Laid(disk[..], inode.block, sh)
      ensures code == -1 <==> !inode.regular
      ensures code == -2 <==> inode.regular && cap < inode.size
      ensures inode.regular && cap >= inode.size ==>
        out == Taken(disk[..], Data(sh), inode.size) && code == if |out| == inode.size then 0 else -9
      ensures inode.regular && cap >= inode.size ==> ReadsWhole(disk[..], inode.block, g.blockSize, inode.size, code, out)
    {
      hide FreeOf, Accounted, MapsSized, Word, Taken, Lists, Concat, Flat, ReadsWhole;
      out := [];
      if !inode.regular { return -1, out; }
      if cap < inode.size { return -2, out; }
      ghost var d, size := disk[..], inode.size;
      WholeRead(d, inode.block, sh, g.blockSize, size);
      out := ReadDirect(inode, inode.size, sh);
      TakenConcat(d, sh.direct, sh.single, size);
      TakenEnough(d, sh.direct, sh.single, size);
      var remain := inode.size - |out|;
      if remain > 0 && inode.block[12] != 0 {
        var piece := ReadIndexed(inode.block[12], remain, sh.single);
        out := out + piece;
        remain := remain - |piece|;
      }
      TakenConcat(d, sh.direct + sh.single, Concat(sh.inner), size);
      TakenEnough(d, sh.direct + sh.single, Concat(sh.inner), size);
      ConcatNothing(sh.mids, sh.inner);
      if remain > 0 && inode.block[13] != 0 {
        var piece := ReadDouble(inode.block[13], remain, sh.mids, sh.inner);
        out := out + piece;
        remain := remain - |piece|;
      }
      code := if remain == 0 then 0 else -9;
    }

    /** The double indirect part of `ext2_read_file_data`. */
    method ReadDouble(ind2: nat, want: nat, ghost mids: seq<nat>, ghost inner: seq<seq<nat>>) returns (out: Block)
      requires Valid() && ind2 != 0 && Listed(disk[..], ind2, mids) && |inner| == |mids|
      requires forall i :: 0 <= i < |mids| ==> Listed(disk[..], mids[i], inner[i])
      requires Inside(mids, g.blocks) && Inside(Concat(inner), g.blocks)
      ensures out == Taken(disk[..], Concat(inner), want)
    {
      hide FreeOf, Accounted, MapsSized, Word, Taken, Lists, Inside, Concat;
      var buf := disk[ind2];
      var remain := want;
      out := [];
      var i := 0;
      TakenStart(disk[..], [], want);
      ListsAt(buf, mids, 0);
      assert inner[..0] == [][..0];
      while i < g.Pointers() && remain > 0
        invariant i <= |mids| && out == Taken(disk[..], Concat(inner[..i]), want) && remain == want - |out| >= 0
      {
        var b := Word(buf, i);
        ListsAt(buf, mids, i);
        if b == 0 { break; }
        InnerInside(inner, i);
        ConcatUpTo(inner, i);
        TakenConcat(disk[..], Concat(inner[..i]), inner[i], want);
        var piece := ReadIndexed(b, remain, inner[i]);
        TakenConcat(disk[..], inner[i], [], remain);
        out := out + piece;
        remain := remain - |piece|;
        i := i + 1;
      }
      ConcatSplit(inner, i);
      ConcatNothing(mids[i..], inner[i..]);
      TakenEnough(disk[..], Concat(inner[..i]), Concat(inner[i..]), want);
    }

    /** The life of a file: written into an empty inode, read back, cleared. The free blocks end as
        they began, another file keeps its blocks and its bytes throughout, and the bytes return if and
        only if their number fits 32 bits. */
    method WriteReadClear(inode: Inode, data: Block, ghost p: seq<nat>, ghost other: Shape) returns (ok: bool, back: Block)
      requires Valid() && inode.regular && |data| < TWO64 && Laid(disk[..], inode.block, NOTHING)
      requires Laid(disk[..], p, other) && Elems(AllBlocks(other)) !! AllFree()
      modifies this, disk, inode
      ensures Valid()
      ensures var n, ptrs := Rounded(|data|, g.blockSize), g.Pointers();
        ok <==> n <= 12 + ptrs + ptrs * ptrs && Total(n, ptrs) <= |old(Free())|
      ensures ok ==> (back == data <==> |data| < TWO32)
      ensures ok ==> back == Start(data[..Kept(|data|, g.blockSize)], |data| % TWO32)
      ensures ok ==> AllFree() == old(AllFree()) && total == old(total) && groupFree == old(groupFree)
      ensures ok ==> Laid(disk[..], p, other) && Flat(disk[..], Data(other)) == old(Flat(disk[..], Data(other)))
    {
      hide FreeOf, MapsSized, Rounded, Kept, Total, Taken, Data, AllBlocks, Elems, Lists, Laid, Flat, Sized, Start, Reach, AllKnown, Returned, FreeOrder;
      ghost var d, f, all := disk[..], Free(), AllFree();
      NoBlocks(all);
      NothingReturned(g);
      FreeOfAll();
      back := [];
      ghost var sh;
      ok, sh := WriteData(inode, data, NOTHING);
      if !ok { return; }
      OtherFileKept(d, f, disk[..], Free(), Elems(AllBlocks(sh)), p, other);
      var code;
      code, back := ReadData(inode, |data| % TWO32, sh);
      EnoughBlocks(|data|, g.blockSize);
      ReadBack(disk[..], inode.block, sh, data, g.blockSize, back);
      NewKnown(g, d, all, disk[..], Free(), sh);
      FreeOfAll();
      AllBack(g, d, all, disk[..], Free(), AllFree(), sh);
      var cleared := ClearData(inode, sh);
    }
  }

  // ----- Inputs on which the driver does not do what it is for

  /** 307200 blocks of 1 KiB in groups of 8192 make 38 groups; the first block of the descriptor table
      has room for 32. With those full no allocation succeeds, although every block behind is free, and
      no block behind can be freed. */
  const WIDE := Geometry(1024, 307200, 1, 8192, 38)

  function WideMaps(): (maps: seq<Bitmap>)
    ensures MapsSized(WIDE, maps)
  {
    seq(38, (k: nat) => seq(1024, _ => if k < 32 then 0xFF as bv8 else 0))
  }

  lemma OutOfReach(b: nat)
    ensures WIDE.Valid() && WIDE.Mounted() == 38 && WIDE.Described() == 32
    ensures Reach(WIDE, FreeOf(WIDE, WideMaps())) == {}
    ensures 262145 <= b < 307200 ==> b in FreeOf(WIDE, WideMaps()) && !WIDE.Known(b)
  {
    hide Bit;
    forall f | f in FreeOf(WIDE, WideMaps())
      ensures !WIDE.Reached(f)
    {
      FullByte((f - 1) % 8192 % 8);
    }
    FullByte((b + 8191) % 8);
  }

  lemma FullByte(k: nat)
    requires k < 8
    ensures Bit(0xFF, k) && !Bit(0, k)
  {
  }

  /** A file of 2^32 bytes on a volume with blocks of 4 KiB and enough room: writing succeeds, and the
      file is empty. */
  method WriteTooMuch(fs: Ext2, inode: Inode, data: Block) returns (ok: bool, back: Block)
    requires fs.Valid() && fs.g.blockSize == 4096 && inode.regular && Laid(fs.disk[..], inode.block, NOTHING)
    requires |data| == TWO32 && Total(0x10_0000, 1024) <= |fs.Free()|
    modifies fs, fs.disk, inode
    ensures ok && inode.size == 0 && back == []
  {
    hide Total, Laid, Taken, Data, AllBlocks, Elems, Reach, FreeOf, Accounted;
    NoBlocks(fs.AllFree());
    NothingReturned(fs.g);
    fs.FreeOfAll();
    ghost var sh;
    ok, sh := fs.WriteData(inode, data, NOTHING);
    var code;
    code, back := fs.ReadData(inode, 0, sh);
    TakenStart(fs.disk[..], Data(sh), 0);
    TakenConcat(fs.disk[..], Data(sh), [], 0);
  }
}
