/** What kernel/src/fs/ext2.c keeps on disk for a file, as values: bitmaps, block lists behind
    indirect blocks, and the bytes a file consists of. */
module Ext2Layout {

  type Byte = b: int | 0 <= b < 256 witness 0
  type Block = seq<Byte>

  const TWO32: nat := 0x1_0000_0000
  const TWO64: nat := 0x1_0000_0000_0000_0000

  // ----- Bitmaps

  type Bitmap = seq<bv8>

  function Mask(k: nat): bv8 {
    if k == 0 then 1 else if k == 1 then 2 else if k == 2 then 4 else if k == 3 then 8
    else if k == 4 then 16 else if k == 5 then 32 else if k == 6 then 64 else 128
  }

  /** Bit `k` of a byte, and the byte with the bit set or cleared. */
  predicate Bit(x: bv8, k: nat) {
    x & Mask(k) != 0
  }

  function With(x: bv8, k: nat): bv8 {
    x | Mask(k)
  }

  function Without(x: bv8, k: nat): bv8 {
    x & !Mask(k)
  }

  predicate TestBit(map_: Bitmap, bit: nat) {
    bit / 8 < |map_| && Bit(map_[bit / 8], bit % 8)
  }

  function SetBit(map_: Bitmap, bit: nat): Bitmap
    requires bit / 8 < |map_|
  {
    map_[bit / 8 := With(map_[bit / 8], bit % 8)]
  }

  function ClearBit(map_: Bitmap, bit: nat): Bitmap
    requires bit / 8 < |map_|
  {
    map_[bit / 8 := Without(map_[bit / 8], bit % 8)]
  }

  lemma MasksApart(i: nat, j: nat)
    requires i < 8 && j < 8
    ensures if i == j then Mask(i) != 0 else Mask(i) & Mask(j) == 0
  {
  }

  lemma OneMask(x: bv8, a: bv8, b: bv8)
    ensures (x | a) & a == a && (x & !a) & a == 0
    ensures a & b == 0 ==> (x | a) & b == x & b && (x & !a) & b == x & b
  {
  }

  lemma BitsApart(x: bv8, i: nat, j: nat)
    requires i < 8 && j < 8
    ensures Bit(With(x, i), j) <==> i == j || Bit(x, j)
    ensures Bit(Without(x, i), j) <==> i != j && Bit(x, j)
  {
    hide Mask;
    MasksApart(i, j);
    OneMask(x, Mask(i), Mask(j));
  }

  lemma BitSet(m: Bitmap, bit: nat, other: nat)
    requires bit / 8 < |m|
    ensures TestBit(SetBit(m, bit), other) <==> other == bit || TestBit(m, other)
    ensures TestBit(ClearBit(m, bit), other) <==> other != bit && TestBit(m, other)
  {
    hide Bit, With, Without;
    if other / 8 == bit / 8 { BitsApart(m[bit / 8], bit % 8, other % 8); }
  }

  function Pow2(k: nat): (p: nat)
    ensures p > 0
  {
    if k == 0 then 1 else 2 * Pow2(k - 1)
  }

  /** A bit mask of a single bit of value `p`: testing, setting and clearing in arithmetic. */
  ghost predicate SingleBit(x: bv8, mask: bv8, p: nat)
    requires p > 0
  {
    && (x & mask != 0 <==> x as nat / p % 2 == 1)
    && (x | mask) as nat == x as nat + (if x & mask != 0 then 0 else p)
    && (x & !mask) as nat == x as nat - if x & mask != 0 then p else 0
  }

  /** Bit `k` of a byte has the value 2^k. */
  lemma BitValue(x: bv8, k: nat)
    requires k < 8
    ensures Bit(x, k) <==> x as nat / Pow2(k) % 2 == 1
    ensures With(x, k) as nat == x as nat + if Bit(x, k) then 0 else Pow2(k)
    ensures Without(x, k) as nat == x as nat - if Bit(x, k) then Pow2(k) else 0
  {
    hide Mask;
    IsSingleBit(x, k);
  }

  lemma IsSingleBit(x: bv8, k: nat)
    requires k < 8
    ensures SingleBit(x, Mask(k), Pow2(k))
  {
    hide SingleBit;
    Powers();
    if k == 0 { Bit0(x); } else if k == 1 { Bit1(x); } else if k == 2 { Bit2(x); } else if k == 3 { Bit3(x); }
    else if k == 4 { Bit4(x); } else if k == 5 { Bit5(x); } else if k == 6 { Bit6(x); } else { Bit7(x); }
  }

  lemma Powers()
    ensures Pow2(0) == 1 && Pow2(1) == 2 && Pow2(2) == 4 && Pow2(3) == 8
    ensures Pow2(4) == 16 && Pow2(5) == 32 && Pow2(6) == 64 && Pow2(7) == 128
  {
    assert Pow2(2) == 4;
    assert Pow2(4) == 16;
    assert Pow2(6) == 64;
  }

  lemma Bit0(x: bv8)
    ensures SingleBit(x, 1, 1)
  {
  }

  lemma Bit1(x: bv8)
    ensures SingleBit(x, 2, 2)
  {
  }

  lemma Bit2(x: bv8)
    ensures SingleBit(x, 4, 4)
  {
  }

  lemma Bit3(x: bv8)
    ensures SingleBit(x, 8, 8)
  {
  }

  lemma Bit4(x: bv8)
    ensures SingleBit(x, 16, 16)
  {
  }

  lemma Bit5(x: bv8)
    ensures SingleBit(x, 32, 32)
  {
  }

  lemma Bit6(x: bv8)
    ensures SingleBit(x, 64, 64)
  {
  }

  lemma Bit7(x: bv8)
    ensures SingleBit(x, 128, 128)
  {
  }

  // ----- Free blocks and their counters

  /** `groups` is how many groups the blocks of the volume make up, with a bitmap each. */
  datatype Geometry = Geometry(blockSize: nat, blocks: nat, first: nat, perGroup: nat, groups: nat) {

    ghost predicate Valid() {
      && blockSize in {1024, 2048, 4096}
      && first <= 1 && first < blocks < TWO32 && 0 < perGroup <= 8 * blockSize
      && blocks <= groups * perGroup
    }

    function Pointers(): nat { blockSize / 4 }

    predicate Addressable(b: nat) { first <= b < blocks }

    function Group(b: nat): nat
      requires first <= b && perGroup > 0
    {
      (b - first) / perGroup
    }

    /** `group_count`, as mounting computes it in 32 bits. */
    function Mounted(): nat
      requires perGroup > 0
    {
      (blocks + perGroup - 1) % TWO32 / perGroup
    }

    /** How many group descriptors the driver finds: those of the first block of the table. */
    function Described(): nat { blockSize / 32 }

    /** A block number that `ext2_free_block` can do something with. */
    predicate Known(b: nat)
      requires perGroup > 0
    {
      b < blocks && (b < first || Group(b) < Described())
    }

    /** A block that `ext2_alloc_block` comes to. */
    predicate Reached(b: nat)
      requires perGroup > 0
    {
      Addressable(b) && Group(b) < Described() && Group(b) < Mounted()
    }
  }

  /** The blocks of a set that allocation comes to. */
  ghost function Reach(g: Geometry, s: set<nat>): set<nat>
    requires g.perGroup > 0
  {
    set b | b in s && g.Reached(b)
  }

  lemma MountedInside(g: Geometry)
    requires g.Valid()
    ensures g.Mounted() <= g.groups
  {
    var x, p := g.blocks + g.perGroup - 1, g.perGroup;
    DivMono(x % TWO32, x, p);
    DivBelow(x, g.groups, p);
  }

  lemma DivBelow(x: nat, k: nat, n: nat)
    requires n > 0 && x < k * n + n
    ensures x / n <= k
  {
    var q := x / n;
    assert x == q * n + x % n;
    MulMono(k + 1, q, n);
    MulNext(k, n);
  }

  lemma DivMono(a: nat, b: nat, n: nat)
    requires n > 0 && a <= b
    ensures a / n <= b / n
  {
    MulNext(b / n, n);
    assert b == b / n * n + b % n;
    DivBelow(a, b / n, n);
  }

  ghost function FreeIn(g: Geometry, free: set<nat>, group: nat): set<nat>
    requires g.perGroup > 0
  {
    set b | b in free && g.first <= b && g.Group(b) == group
  }

  /** The counters of the groups and of the superblock count the free blocks. */
  ghost predicate Accounted(g: Geometry, free: set<nat>, groupFree: seq<nat>, total: nat)
    requires g.perGroup > 0
  {
    && |groupFree| == g.groups && total == |free|
    && forall i :: 0 <= i < g.groups ==> groupFree[i] == |FreeIn(g, free, i)|
  }

  lemma TakeAccounted(g: Geometry, free: set<nat>, groupFree: seq<nat>, total: nat, b: nat)
    requires g.perGroup > 0 && Accounted(g, free, groupFree, total) && b in free && g.first <= b && g.Group(b) < g.groups
    ensures groupFree[g.Group(b)] > 0 && total > 0
    ensures Accounted(g, free - {b}, groupFree[g.Group(b) := groupFree[g.Group(b)] - 1], total - 1)
  {
    hide FreeIn;
    forall i: nat | i < g.groups
      ensures FreeIn(g, free - {b}, i) == if i == g.Group(b) then FreeIn(g, free, i) - {b} else FreeIn(g, free, i)
      ensures i == g.Group(b) ==> b in FreeIn(g, free, i)
    {
      FreeInOne(g, free, b, i);
    }
  }

  lemma FreeInOne(g: Geometry, free: set<nat>, b: nat, i: nat)
    requires g.perGroup > 0 && g.first <= b
    ensures b in FreeIn(g, free, i) <==> b in free && i == g.Group(b)
    ensures FreeIn(g, free - {b}, i) == if i == g.Group(b) then FreeIn(g, free, i) - {b} else FreeIn(g, free, i)
    ensures FreeIn(g, free + {b}, i) == if i == g.Group(b) then FreeIn(g, free, i) + {b} else FreeIn(g, free, i)
  {
  }

  lemma ReturnAccounted(g: Geometry, free: set<nat>, groupFree: seq<nat>, total: nat, b: nat)
    requires g.perGroup > 0 && Accounted(g, free, groupFree, total) && b !in free && g.first <= b && g.Group(b) < g.groups
    ensures Accounted(g, free + {b}, groupFree[g.Group(b) := groupFree[g.Group(b)] + 1], total + 1)
  {
    hide FreeIn;
    forall i: nat | i < g.groups
      ensures FreeIn(g, free + {b}, i) == if i == g.Group(b) then FreeIn(g, free, i) + {b} else FreeIn(g, free, i)
      ensures b !in FreeIn(g, free, i)
    {
      FreeInOne(g, free, b, i);
    }
  }

  function Sum(s: seq<nat>): nat {
    if s == [] then 0 else Sum(s[..|s| - 1]) + s[|s| - 1]
  }

  /** The superblock's free count is the sum of the groups' counts. */
  lemma SuperblockIsSum(g: Geometry, free: set<nat>, groupFree: seq<nat>, total: nat)
    requires g.Valid() && Accounted(g, free, groupFree, total) && forall b :: b in free ==> g.Addressable(b)
    ensures total == Sum(groupFree)
  {
    SumBelow(g, free, groupFree, total, g.groups);
    forall b | b in free
      ensures g.Group(b) < g.groups
    {
      GroupInside(g, b);
    }
    assert Below(g, free, g.groups) == free;
    assert groupFree[..g.groups] == groupFree;
  }

  lemma GroupInside(g: Geometry, b: nat)
    requires g.Valid() && g.Addressable(b)
    ensures g.Group(b) < g.groups && (b - g.first) % g.perGroup < 8 * g.blockSize
    ensures b == g.first + g.Group(b) * g.perGroup + (b - g.first) % g.perGroup
  {
    var q := g.Group(b);
    assert b - g.first == q * g.perGroup + (b - g.first) % g.perGroup;
    MulMono(g.groups, q, g.perGroup);
  }

  lemma DivMod(k: nat, i: nat, n: nat)
    requires i < n
    ensures (k * n + i) / n == k && (k * n + i) % n == i
  {
    var q := (k * n + i) / n;
    assert q * n + (k * n + i) % n == k * n + i;
    MulMono(q + 1, k, n);
    MulMono(k + 1, q, n);
  }

  function BlockAt(g: Geometry, group: nat, bit: nat): nat {
    g.first + group * g.perGroup + bit
  }

  lemma BlockAtIs(g: Geometry, group: nat, bit: nat)
    requires bit < g.perGroup
    ensures g.Group(BlockAt(g, group, bit)) == group && (BlockAt(g, group, bit) - g.first) % g.perGroup == bit
  {
    DivMod(group, bit, g.perGroup);
  }

  predicate IsFree(g: Geometry, maps: seq<Bitmap>, b: nat)
    requires g.perGroup > 0
  {
    g.Addressable(b) && g.Group(b) < |maps| && !TestBit(maps[g.Group(b)], (b - g.first) % g.perGroup)
  }

  /** The free blocks, as the bitmaps say. */
  ghost function FreeOf(g: Geometry, maps: seq<Bitmap>): set<nat>
    requires g.perGroup > 0
  {
    set b: nat | b < g.blocks && IsFree(g, maps, b)
  }

  ghost predicate MapsSized(g: Geometry, maps: seq<Bitmap>) {
    |maps| == g.groups && forall i :: 0 <= i < |maps| ==> |maps[i]| == g.blockSize
  }

  /** The bit of a block as the bytes of the bitmaps have it: in group (b - first) / perGroup, byte
      r / 8 and value 2^(r % 8), where r is the block's number in its group. */
  ghost function BitOf(g: Geometry, maps: seq<Bitmap>, b: nat): nat
    requires g.perGroup > 0 && g.first <= b
  {
    var k, r := (b - g.first) / g.perGroup, (b - g.first) % g.perGroup;
    if k < |maps| && r / 8 < |maps[k]| then maps[k][r / 8] as nat / Pow2(r % 8) % 2 else 1
  }

  /** The free blocks are those whose bit is 0; allocation comes to those whose group has its 32-byte
      descriptor in the first block of the table and is one of the groups counted at mounting. */
  lemma FreeByBits(g: Geometry, maps: seq<Bitmap>, b: nat)
    requires g.Valid() && MapsSized(g, maps)
    ensures b in FreeOf(g, maps) <==> g.first <= b < g.blocks && BitOf(g, maps, b) == 0
    ensures b in Reach(g, FreeOf(g, maps)) <==> (
      && b in FreeOf(g, maps) && (b - g.first) / g.perGroup < g.blockSize / 32
      && (b - g.first) / g.perGroup < (g.blocks + g.perGroup - 1) % 0x1_0000_0000 / g.perGroup)
  {
    hide Pow2, Bit;
    if g.Addressable(b) {
      GroupInside(g, b);
      var k, r := g.Group(b), (b - g.first) % g.perGroup;
      BitValue(maps[k][r / 8], r % 8);
    }
  }

  /** Byte `j` of bitmap `k` has changed by `delta`, all others are the same. */
  ghost predicate ByteMoved(before: seq<Bitmap>, after: seq<Bitmap>, k: nat, j: nat, delta: int) {
    && |after| == |before| && (forall h :: 0 <= h < |before| && h != k ==> after[h] == before[h])
    && k < |before| && j < |before[k]| == |after[k]|
    && (forall h :: 0 <= h < |before[k]| && h != j ==> after[k][h] == before[k][h])
    && after[k][j] as nat == before[k][j] as nat + delta
  }

  /** The bit of a block has become 1, or 0, and nothing else has changed in the bitmaps. */
  ghost predicate Flipped(g: Geometry, before: seq<Bitmap>, after: seq<Bitmap>, b: nat, up: bool)
    requires g.perGroup > 0 && g.first <= b
  {
    var k, r := (b - g.first) / g.perGroup, (b - g.first) % g.perGroup;
    var value: int := Pow2(r % 8);
    && BitOf(g, before, b) == (if up then 0 else 1)
    && ByteMoved(before, after, k, r / 8, if up then value else -value)
  }

  lemma BitFlips(g: Geometry, maps: seq<Bitmap>, b: nat)
    requires g.Valid() && MapsSized(g, maps) && g.Addressable(b)
    ensures var k, r := g.Group(b), (b - g.first) % g.perGroup;
      && k < |maps| && r / 8 < |maps[k]|
      && (b in FreeOf(g, maps) ==> Flipped(g, maps, maps[k := SetBit(maps[k], r)], b, true))
      && (b !in FreeOf(g, maps) ==> Flipped(g, maps, maps[k := ClearBit(maps[k], r)], b, false))
  {
    hide Pow2, Bit, With, Without, FreeOf, ByteMoved;
    GroupInside(g, b);
    FreeByBits(g, maps, b);
    var k, r := g.Group(b), (b - g.first) % g.perGroup;
    BitValue(maps[k][r / 8], r % 8);
    OneByte(maps, k, r / 8, With(maps[k][r / 8], r % 8));
    OneByte(maps, k, r / 8, Without(maps[k][r / 8], r % 8));
  }

  lemma OneByte(maps: seq<Bitmap>, k: nat, j: nat, x: bv8)
    requires k < |maps| && j < |maps[k]|
    ensures ByteMoved(maps, maps[k := maps[k][j := x]], k, j, x as nat - maps[k][j] as nat)
  {
  }

  lemma MapUpdated(g: Geometry, maps: seq<Bitmap>, k: nat, i: nat)
    requires MapsSized(g, maps) && k < g.groups && i / 8 < |maps[k]|
    ensures MapsSized(g, maps[k := SetBit(maps[k], i)]) && MapsSized(g, maps[k := ClearBit(maps[k], i)])
  {
  }

  lemma FreeAfterSet(g: Geometry, maps: seq<Bitmap>, k: nat, i: nat)
    requires g.Valid() && MapsSized(g, maps) && k < g.groups && i < g.perGroup && g.Addressable(BlockAt(g, k, i))
    ensures i / 8 < |maps[k]|
    ensures FreeOf(g, maps[k := SetBit(maps[k], i)]) == FreeOf(g, maps) - {BlockAt(g, k, i)}
    ensures FreeOf(g, maps[k := ClearBit(maps[k], i)]) == FreeOf(g, maps) + {BlockAt(g, k, i)}
  {
    var blk := BlockAt(g, k, i);
    BlockAtIs(g, k, i);
    forall b: nat | b < g.blocks
      ensures IsFree(g, maps[k := SetBit(maps[k], i)], b) <==> IsFree(g, maps, b) && b != blk
      ensures IsFree(g, maps[k := ClearBit(maps[k], i)], b) <==> IsFree(g, maps, b) || b == blk
    {
      if g.Addressable(b) {
        GroupInside(g, b);
        BitSet(maps[k], i, (b - g.first) % g.perGroup);
      }
    }
    hide IsFree, SetBit, ClearBit;
  }

  lemma MulMono(a: nat, b: nat, n: nat)
    ensures a <= b ==> a * n <= b * n
  {
  }

  ghost function Below(g: Geometry, free: set<nat>, n: nat): set<nat>
    requires g.perGroup > 0
  {
    set b | b in free && g.first <= b && g.Group(b) < n
  }

  lemma {:induction false} SumBelow(g: Geometry, free: set<nat>, groupFree: seq<nat>, total: nat, n: nat)
    requires g.perGroup > 0 && Accounted(g, free, groupFree, total) && n <= g.groups
    ensures Sum(groupFree[..n]) == |Below(g, free, n)|
  {
    if n == 0 {
      assert Below(g, free, 0) == {};
    } else {
      SumBelow(g, free, groupFree, total, n - 1);
      assert groupFree[..n][..n - 1] == groupFree[..n - 1];
      assert Below(g, free, n) == Below(g, free, n - 1) + FreeIn(g, free, n - 1);
      assert Below(g, free, n - 1) !! FreeIn(g, free, n - 1);
    }
  }

  // ----- Searching for a free block

  ghost predicate NoneBelow(g: Geometry, maps: seq<Bitmap>, n: nat)
    requires g.perGroup > 0
  {
    forall f :: f in FreeOf(g, maps) ==> f >= n
  }

  lemma SearchStarts(g: Geometry, maps: seq<Bitmap>)
    requires g.perGroup > 0
    ensures NoneBelow(g, maps, BlockAt(g, 0, 0))
  {
  }

  lemma BitTaken(g: Geometry, maps: seq<Bitmap>, k: nat, i: nat)
    requires g.Valid() && MapsSized(g, maps) && k < g.groups && i < g.perGroup && NoneBelow(g, maps, BlockAt(g, k, i))
    ensures BlockAt(g, k, i) < g.blocks && !TestBit(maps[k], i) ==> BlockAt(g, k, i) in FreeOf(g, maps)
    ensures BlockAt(g, k, i) < g.blocks && TestBit(maps[k], i) ==> NoneBelow(g, maps, BlockAt(g, k, i + 1))
  {
    BlockAtIs(g, k, i);
  }

  lemma GroupDone(g: Geometry, maps: seq<Bitmap>, k: nat, i: nat)
    requires g.Valid() && MapsSized(g, maps) && k < g.groups && i <= g.perGroup && NoneBelow(g, maps, BlockAt(g, k, i))
    requires i == g.perGroup || BlockAt(g, k, i) >= g.blocks
    ensures NoneBelow(g, maps, BlockAt(g, k + 1, 0))
  {
    assert (k + 1) * g.perGroup == k * g.perGroup + g.perGroup;
  }

  lemma OtherGroup(g: Geometry, f: nat, k: nat)
    requires g.Valid() && g.Addressable(f) && g.Group(f) != k && f >= BlockAt(g, k, 0)
    ensures f >= BlockAt(g, k + 1, 0)
  {
    var q, n := g.Group(f), g.perGroup;
    LaterGroup(g, f, k);
    assert f - g.first == q * n + (f - g.first) % n;
    MulMono(k + 1, q, n);
  }

  lemma GroupEmpty(g: Geometry, maps: seq<Bitmap>, groupFree: seq<nat>, total: nat, k: nat)
    requires g.Valid() && MapsSized(g, maps) && k < g.groups && NoneBelow(g, maps, BlockAt(g, k, 0))
    requires Accounted(g, FreeOf(g, maps), groupFree, total) && groupFree[k] == 0
    ensures NoneBelow(g, maps, BlockAt(g, k + 1, 0))
  {
    assert (k + 1) * g.perGroup == k * g.perGroup + g.perGroup;
    forall f | f in FreeOf(g, maps)
      ensures f >= BlockAt(g, k + 1, 0)
    {
      assert f !in FreeIn(g, FreeOf(g, maps), k);
      assert f >= BlockAt(g, k, 0);
      FreeInRange(g, maps, f);
      hide FreeOf, NoneBelow, IsFree, Accounted, MapsSized;
      OtherGroup(g, f, k);
    }
  }

  lemma Minimal(g: Geometry, maps: seq<Bitmap>, b: nat)
    requires g.perGroup > 0 && NoneBelow(g, maps, b)
    ensures forall f :: f in FreeOf(g, maps) ==> b <= f
  {
  }

  /** Clearing a block's bit frees it. */
  lemma BlockReturned(g: Geometry, maps: seq<Bitmap>, groupFree: seq<nat>, total: nat, b: nat)
    requires g.Valid() && MapsSized(g, maps) && Accounted(g, FreeOf(g, maps), groupFree, total) && g.Addressable(b)
    ensures var k, i := g.Group(b), (b - g.first) % g.perGroup;
      && k < |maps| && k < |groupFree| && i / 8 < |maps[k]|
      && (b in FreeOf(g, maps) <==> !TestBit(maps[k], i))
      && var maps' := maps[k := ClearBit(maps[k], i)];
         && MapsSized(g, maps') && FreeOf(g, maps') == FreeOf(g, maps) + {b}
         && (TestBit(maps[k], i) ==> Accounted(g, FreeOf(g, maps'), groupFree[k := groupFree[k] + 1], total + 1))
  {
    var k, i := g.Group(b), (b - g.first) % g.perGroup;
    GroupInside(g, b);
    InFreeSet(g, maps, b);
    assert BlockAt(g, k, i) == b;
    FreeAfterSet(g, maps, k, i);
    MapUpdated(g, maps, k, i);
    hide FreeOf, TestBit, ClearBit, SetBit, MapsSized;
    if b !in FreeOf(g, maps) { ReturnAccounted(g, FreeOf(g, maps), groupFree, total, b); }
  }

  lemma NonzeroAddressable(g: Geometry, b: nat)
    requires g.Valid() && 0 < b < g.blocks
    ensures g.Addressable(b)
  {
  }

  lemma InFreeSet(g: Geometry, maps: seq<Bitmap>, b: nat)
    requires g.Valid() && MapsSized(g, maps) && g.Addressable(b)
    ensures g.Group(b) < |maps|
    ensures b in FreeOf(g, maps) <==> !TestBit(maps[g.Group(b)], (b - g.first) % g.perGroup)
  {
    GroupInside(g, b);
  }

  lemma FreeInRange(g: Geometry, maps: seq<Bitmap>, b: nat)
    requires g.perGroup > 0 && b in FreeOf(g, maps)
    ensures g.Addressable(b)
  {
  }

  /** No free block in the groups before one that is not looked at any more. */
  lemma SearchEnds(g: Geometry, maps: seq<Bitmap>, k: nat)
    requires g.Valid() && NoneBelow(g, maps, BlockAt(g, k, 0)) && (k >= g.Mounted() || k >= g.Described())
    ensures Reach(g, FreeOf(g, maps)) == {}
  {
    forall f | f in FreeOf(g, maps)
      ensures !g.Reached(f)
    {
      assert f >= BlockAt(g, k, 0);
      hide FreeOf, NoneBelow, IsFree;
      if g.first <= f { LaterGroup(g, f, k); }
    }
  }

  lemma LaterGroup(g: Geometry, f: nat, k: nat)
    requires g.perGroup > 0 && f >= BlockAt(g, k, 0)
    ensures f >= g.first && g.Group(f) >= k
  {
    AtLeast(f - g.first, k, g.perGroup);
  }

  /** The groups looked at before block `b` are those of its group and before. */
  lemma InGroup(g: Geometry, k: nat, i: nat)
    requires g.Valid() && i < g.perGroup && BlockAt(g, k, i) < g.blocks && k < g.Mounted() && k < g.Described()
    ensures g.Reached(BlockAt(g, k, i))
  {
    BlockAtIs(g, k, i);
  }

  lemma FreeInside(g: Geometry, maps: seq<Bitmap>, b: nat)
    requires g.perGroup > 0 && b in Reach(g, FreeOf(g, maps))
    ensures g.Addressable(b)
  {
  }

  lemma ReachTaken(g: Geometry, all: set<nat>, b: nat)
    requires g.perGroup > 0 && g.Reached(b)
    ensures Reach(g, all - {b}) == Reach(g, all) - {b}
    ensures all - {b} - Reach(g, all - {b}) == all - Reach(g, all)
  {
  }

  // ----- Changes of a disk

  ghost predicate Sized(d: seq<Block>, n: nat) {
    forall b :: 0 <= b < |d| ==> |d[b]| == n
  }

  /** Blocks `new_` were free and are taken; no other block changed. */
  ghost predicate Grew(d: seq<Block>, free: set<nat>, d': seq<Block>, free': set<nat>, new_: set<nat>) {
    && |d'| == |d| && new_ <= free && free' == free - new_
    && forall b: nat :: b < |d| && b !in new_ ==> d'[b] == d[b]
  }

  lemma OneBlock(d: seq<Block>, free: set<nat>, b: nat, x: Block, n: nat)
    requires b < |d| && b in free && Sized(d, n) && |x| == n
    ensures Grew(d, free, d[b := x], free - {b}, {b}) && Sized(d[b := x], n)
  {
  }

  lemma GrewTwice(d: seq<Block>, f: set<nat>, d1: seq<Block>, f1: set<nat>, d2: seq<Block>, f2: set<nat>, n1: set<nat>, n2: set<nat>)
    requires Grew(d, f, d1, f1, n1) && Grew(d1, f1, d2, f2, n2)
    ensures Grew(d, f, d2, f2, n1 + n2) && n1 !! n2
  {
  }

  // ----- Pointers in index blocks

  function Word(b: Block, i: nat): nat {
    if i * 4 + 3 < |b| then b[i * 4] as int + 256 * (b[i * 4 + 1] as int) + 65536 * (b[i * 4 + 2] as int) + 0x100_0000 * (b[i * 4 + 3] as int)
    else 0
  }

  function PutWord(b: Block, i: nat, v: nat): (b': Block)
    requires i * 4 + 3 < |b| && v < 0x1_0000_0000
    ensures |b'| == |b|
  {
    b[i * 4 := v % 256][i * 4 + 1 := v / 256 % 256][i * 4 + 2 := v / 65536 % 256][i * 4 + 3 := v / 0x100_0000]
  }

  lemma PutWordReads(b: Block, i: nat, v: nat, j: nat)
    requires i * 4 + 3 < |b| && v < 0x1_0000_0000
    ensures Word(PutWord(b, i, v), j) == if j == i then v else Word(b, j)
  {
    BytesOfWord(v);
    var w := PutWord(b, i, v);
    if j == i {
      assert w[i * 4] == v % 256 && w[i * 4 + 1] == v / 256 % 256 && w[i * 4 + 2] == v / 65536 % 256 && w[i * 4 + 3] == v / 0x100_0000;
    } else if j * 4 + 3 < |b| {
      assert forall k :: j * 4 <= k < j * 4 + 4 ==> w[k] == b[k];
      assert w[j * 4] == b[j * 4] && w[j * 4 + 1] == b[j * 4 + 1] && w[j * 4 + 2] == b[j * 4 + 2] && w[j * 4 + 3] == b[j * 4 + 3];
      hide PutWord;
    }
  }

  lemma BytesOfWord(v: nat)
    requires v < 0x1_0000_0000
    ensures v % 256 + 256 * (v / 256 % 256) + 65536 * (v / 65536 % 256) + 0x100_0000 * (v / 0x100_0000) == v
  {
    assert v / 65536 == v / 256 / 256 && v / 0x100_0000 == v / 65536 / 256;
  }

  /** The index block lists exactly `xs`, then zeros. */
  ghost predicate Lists(b: Block, xs: seq<nat>) {
    && |xs| <= |b| / 4
    && (forall i: nat :: i < |b| / 4 ==> Word(b, i) == if i < |xs| then xs[i] else 0)
    && 0 !in xs
  }

  function Zeros(n: nat): (b: Block)
    ensures |b| == n && forall i :: 0 <= i < n ==> b[i] == 0
  {
    if n == 0 then [] else Zeros(n - 1) + [0]
  }

  /** Entry `i` of an index block: a member of the list, or the zero that ends it. */
  lemma ListsAt(b: Block, xs: seq<nat>, i: nat)
    requires Lists(b, xs)
    ensures |xs| <= |b| / 4
    ensures i < |b| / 4 ==> Word(b, i) == if i < |xs| then xs[i] else 0
    ensures i < |xs| ==> xs[i] != 0
  {
  }

  lemma ListsNothing(n: nat)
    ensures Lists(Zeros(n), [])
  {
  }

  lemma ListsMore(b: Block, xs: seq<nat>, x: nat)
    requires Lists(b, xs) && |xs| < |b| / 4 && 0 < x < 0x1_0000_0000
    ensures |xs| * 4 + 3 < |b| && Lists(PutWord(b, |xs|, x), xs + [x])
  {
    forall i: nat | i < |b| / 4
      ensures Word(PutWord(b, |xs|, x), i) == if i < |xs| + 1 then (xs + [x])[i] else 0
    {
      PutWordReads(b, |xs|, x, i);
    }
  }

  // ----- The bytes behind a list of blocks

  ghost function Flat(d: seq<Block>, bs: seq<nat>): Block {
    if bs == [] then [] else Flat(d, bs[..|bs| - 1]) + (if bs[|bs| - 1] < |d| then d[bs[|bs| - 1]] else [])
  }

  lemma {:induction false} FlatLength(d: seq<Block>, bs: seq<nat>, n: nat)
    requires Sized(d, n) && forall i :: 0 <= i < |bs| ==> bs[i] < |d|
    ensures |Flat(d, bs)| == |bs| * n
  {
    if bs != [] {
      var front := bs[..|bs| - 1];
      FlatLength(d, front, n);
      assert Flat(d, bs) == Flat(d, front) + d[bs[|bs| - 1]];
      hide Flat;
      MulNext(|front|, n);
    }
  }

  lemma {:induction false} FlatSame(d: seq<Block>, d': seq<Block>, bs: seq<nat>)
    requires |d'| == |d| && forall i :: 0 <= i < |bs| && bs[i] < |d| ==> d'[bs[i]] == d[bs[i]]
    ensures Flat(d', bs) == Flat(d, bs)
  {
    if bs != [] { FlatSame(d, d', bs[..|bs| - 1]); }
  }

  /** What one block contributes. */
  ghost function BytesOf(d: seq<Block>, b: nat): Block {
    if b < |d| then d[b] else []
  }

  lemma FlatMore(d: seq<Block>, xs: seq<nat>, b: nat)
    ensures Flat(d, xs + [b]) == Flat(d, xs) + BytesOf(d, b) && Flat(d, []) == []
  {
    assert (xs + [b])[..|xs|] == xs;
  }

  lemma {:induction false} FlatConcat(d: seq<Block>, xs: seq<nat>, ys: seq<nat>)
    ensures Flat(d, xs + ys) == Flat(d, xs) + Flat(d, ys)
  {
    hide Flat, BytesOf;
    if ys == [] {
      FlatMore(d, [], 0);
      assert xs + ys == xs;
    } else {
      var front, b := ys[..|ys| - 1], ys[|ys| - 1];
      FlatConcat(d, xs, front);
      FlatMore(d, xs + front, b);
      FlatMore(d, front, b);
      assert ys == front + [b] && xs + ys == xs + front + [b];
    }
  }

  /** The blocks `xs` hold bytes `from` to `to` of the data, and are full unless the data ends. */
  ghost predicate Stores(d: seq<Block>, xs: seq<nat>, data: Block, from: nat, to: nat) {
    Piece(Flat(d, xs), data, from, to)
  }

  lemma StoresConcat(d: seq<Block>, xs: seq<nat>, ys: seq<nat>, data: Block, from: nat, mid: nat, to: nat)
    requires Stores(d, xs, data, from, mid) && Stores(d, ys, data, mid, to)
    ensures Stores(d, xs + ys, data, from, to)
  {
    hide Flat;
    FlatConcat(d, xs, ys);
    PieceConcat(Flat(d, xs), Flat(d, ys), data, from, mid, to);
  }

  /** The bytes `x` begin with bytes `from` to `to` of the data, and are full unless the data ends. */
  ghost predicate Piece(x: Block, data: Block, from: nat, to: nat) {
    && from <= to <= |data| && to - from <= |x|
    && x[..to - from] == data[from..to]
    && (to < |data| ==> to - from == |x|)
  }

  lemma PieceConcat(x: Block, y: Block, data: Block, from: nat, mid: nat, to: nat)
    requires Piece(x, data, from, mid) && Piece(y, data, mid, to)
    ensures Piece(x + y, data, from, to)
  {
    if mid < |data| {
      assert (x + y)[..to - from] == x + y[..to - mid];
      assert data[from..to] == data[from..mid] + data[mid..to];
    } else {
      assert (x + y)[..to - from] == x[..to - from];
    }
  }

  lemma StoresSame(d: seq<Block>, d': seq<Block>, xs: seq<nat>, data: Block, from: nat, to: nat)
    requires Stores(d, xs, data, from, to) && |d'| == |d|
    requires forall i :: 0 <= i < |xs| && xs[i] < |d| ==> d'[xs[i]] == d[xs[i]]
    ensures Stores(d', xs, data, from, to)
  {
    FlatSame(d, d', xs);
  }

  // ----- A file

  /** The blocks of a file: direct ones, those listed by the single indirect block, and those listed
      by the index blocks `mids` that the double indirect block lists. Index block 0 is none. */
  datatype Shape = Shape(direct: seq<nat>, ind: nat, single: seq<nat>, ind2: nat, mids: seq<nat>, inner: seq<seq<nat>>)

  const NOTHING := Shape([], 0, [], 0, [], [])

  function Concat(xss: seq<seq<nat>>): seq<nat> {
    if xss == [] then [] else Concat(xss[..|xss| - 1]) + xss[|xss| - 1]
  }

  function Data(sh: Shape): seq<nat> {
    sh.direct + sh.single + Concat(sh.inner)
  }

  function Some(b: nat): seq<nat> {
    if b == 0 then [] else [b]
  }

  function AllBlocks(sh: Shape): seq<nat> {
    sh.direct + Some(sh.ind) + sh.single + Some(sh.ind2) + sh.mids + Concat(sh.inner)
  }

  function Elems(xs: seq<nat>): set<nat> {
    set x | x in xs
  }

  ghost predicate Inside(xs: seq<nat>, n: nat) {
    forall i :: 0 <= i < |xs| ==> xs[i] < n
  }

  /** The list behind an index block, if there is one. */
  ghost predicate Listed(d: seq<Block>, b: nat, xs: seq<nat>) {
    if b == 0 then xs == [] else b < |d| && Lists(d[b], xs)
  }

  /** The 15 block pointers of an inode lead to the blocks of this shape. */
  ghost predicate Laid(d: seq<Block>, p: seq<nat>, sh: Shape) {
    && |p| == 15 && |sh.direct| <= 12 && 0 !in sh.direct
    && (forall i :: 0 <= i < 12 ==> p[i] == if i < |sh.direct| then sh.direct[i] else 0)
    && p[12] == sh.ind && Listed(d, sh.ind, sh.single)
    && p[13] == sh.ind2 && Listed(d, sh.ind2, sh.mids)
    && |sh.inner| == |sh.mids| && (forall i :: 0 <= i < |sh.mids| ==> Listed(d, sh.mids[i], sh.inner[i]))
    && Inside(sh.direct, |d|) && Inside(sh.single, |d|) && Inside(sh.mids, |d|) && Inside(Concat(sh.inner), |d|)
  }

  /** How many blocks a file of `n` data blocks takes before the double indirect part. */
  function InFront(n: nat, ptrs: nat): nat {
    (if n < 12 + ptrs then n else 12 + ptrs) + if n > 12 then 1 else 0
  }

  /** How many it takes in all: with the index blocks. */
  function Total(n: nat, ptrs: nat): nat
    requires ptrs > 0
  {
    InFront(n, ptrs) + if n > 12 + ptrs then (n - 12 - ptrs) + 1 + Rounds(n - 12 - ptrs, ptrs) else 0
  }

  // ----- Filling blocks with data

  /** From `d` to `d'` the blocks `meta` and `xs` were taken, all different, and `xs` got bytes
      `from` to `to` of the data. */
  ghost predicate Filled(d: seq<Block>, f: set<nat>, d': seq<Block>, f': set<nat>, meta: set<nat>, xs: seq<nat>,
                         data: Block, from: nat, to: nat) {
    && Grew(d, f, d', f', meta + Elems(xs)) && |meta + Elems(xs)| == |meta| + |xs|
    && (forall i :: 0 <= i < |xs| ==> 0 < xs[i] < |d|)
    && Stores(d', xs, data, from, to)
  }

  lemma FilledBoth(d: seq<Block>, f: set<nat>, d1: seq<Block>, f1: set<nat>, d2: seq<Block>, f2: set<nat>,
                   m1: set<nat>, xs: seq<nat>, m2: set<nat>, ys: seq<nat>, data: Block, from: nat, mid: nat, to: nat)
    requires Filled(d, f, d1, f1, m1, xs, data, from, mid) && Filled(d1, f1, d2, f2, m2, ys, data, mid, to)
    ensures Filled(d, f, d2, f2, m1 + m2, xs + ys, data, from, to)
    ensures |m1 + m2| == |m1| + |m2|
    ensures forall b :: b in m1 + Elems(xs) && b < |d| ==> d2[b] == d1[b]
  {
    GrewTwice(d, f, d1, f1, d2, f2, m1 + Elems(xs), m2 + Elems(ys));
    StoresBoth(d1, d2, f1, f2, m2 + Elems(ys), xs, ys, data, from, mid, to);
    hide Stores, Grew;
    ElemsConcat(xs, ys);
    CountBoth(m1, Elems(xs), m2, Elems(ys));
    hide Elems;
    assert m1 + m2 + (Elems(xs) + Elems(ys)) == m1 + Elems(xs) + (m2 + Elems(ys));
  }

  lemma StoresBoth(d1: seq<Block>, d2: seq<Block>, f1: set<nat>, f2: set<nat>, new_: set<nat>, xs: seq<nat>, ys: seq<nat>,
                   data: Block, from: nat, mid: nat, to: nat)
    requires Grew(d1, f1, d2, f2, new_) && Elems(xs) !! f1
    requires Stores(d1, xs, data, from, mid) && Stores(d2, ys, data, mid, to)
    ensures Stores(d2, xs + ys, data, from, to)
  {
    hide Stores;
    forall i | 0 <= i < |xs| && xs[i] < |d1|
      ensures d2[xs[i]] == d1[xs[i]]
    {
      assert xs[i] in Elems(xs);
    }
    StoresSame(d1, d2, xs, data, from, mid);
    StoresConcat(d2, xs, ys, data, from, mid, to);
  }

  lemma CountBoth(m1: set<nat>, x: set<nat>, m2: set<nat>, y: set<nat>)
    requires m1 + x !! m2 + y
    ensures |m1 + m2| == |m1| + |m2| && |m1 + m2 + (x + y)| == |m1 + x| + |m2 + y|
  {
    assert m1 !! m2;
    assert m1 + m2 + (x + y) == m1 + x + (m2 + y);
  }

  /** Nothing stored yet. */
  lemma FilledNothing(d: seq<Block>, f: set<nat>, d': seq<Block>, f': set<nat>, meta: set<nat>, data: Block, from: nat)
    requires Grew(d, f, d', f', meta) && from <= |data|
    ensures Filled(d, f, d', f', meta, [], data, from, from)
  {
    assert meta + Elems([]) == meta;
  }

  lemma FilledCount(d: seq<Block>, f: set<nat>, d': seq<Block>, f': set<nat>, meta: set<nat>, xs: seq<nat>,
                    data: Block, from: nat, to: nat)
    requires Filled(d, f, d', f', meta, xs, data, from, to)
    ensures |f'| == |f| - |meta| - |xs| && to <= |data| && meta !! Elems(xs)
  {
    MetaApart(meta, xs);
  }

  /** Overwriting a block that was just taken. */
  lemma FilledMeta(d: seq<Block>, f: set<nat>, d': seq<Block>, f': set<nat>, meta: set<nat>, xs: seq<nat>,
                   data: Block, from: nat, to: nat, b: nat, x: Block)
    requires Filled(d, f, d', f', meta, xs, data, from, to) && b in meta && b !in xs && b < |d|
    ensures Filled(d, f, d'[b := x], f', meta, xs, data, from, to)
  {
    hide Stores;
    StoresSame(d', d'[b := x], xs, data, from, to);
  }

  /** Blocks counted apart are apart. */
  lemma MetaApart(meta: set<nat>, xs: seq<nat>)
    requires |meta + Elems(xs)| == |meta| + |xs|
    ensures |Elems(xs)| == |xs| && meta !! Elems(xs)
  {
    ElemsSize(xs);
    assert |meta + Elems(xs)| == |meta| + |Elems(xs)| - |meta * Elems(xs)|;
    var both := meta * Elems(xs);
    assert |both| == 0;
    assert both == {};
    forall x | x in meta
      ensures x !in Elems(xs)
    {
      assert x !in both;
    }
  }

  lemma {:induction false} ElemsSize(xs: seq<nat>)
    ensures |Elems(xs)| <= |xs|
  {
    if xs != [] {
      ElemsSize(xs[1..]);
      assert Elems(xs) == Elems(xs[1..]) + {xs[0]};
    }
  }

  /** A piece of the data, padded with zeros to a block. */
  lemma BlockStores(d: seq<Block>, b: nat, data: Block, from: nat, take: nat, n: nat)
    requires b < |d| && from + take <= |data| && take <= n && (take < n ==> from + take == |data|)
    requires d[b] == data[from..from + take] + Zeros(n - take)
    ensures Stores(d, [b], data, from, from + take)
  {
    assert [b][..0] == [];
    assert Flat(d, [b]) == d[b];
  }

  // ----- The double indirect part under construction

  /** Index blocks `mids` listing `inner` were written behind `ind2`, with the data. */
  ghost predicate Doubled(d: seq<Block>, f: set<nat>, d': seq<Block>, f': set<nat>, ind2: nat, mids: seq<nat>, inner: seq<seq<nat>>,
                          data: Block, from: nat, to: nat) {
    && Filled(d, f, d', f', {ind2} + Elems(mids), Concat(inner), data, from, to)
    && |{ind2} + Elems(mids)| == 1 + |mids| && Family(d', mids, inner)
  }

  /** Index blocks and the lists behind them. */
  ghost predicate Family(d: seq<Block>, mids: seq<nat>, inner: seq<seq<nat>>) {
    |inner| == |mids| && forall i :: 0 <= i < |mids| ==> 0 < mids[i] && Listed(d, mids[i], inner[i])
  }

  lemma FamilyMore(d: seq<Block>, mids: seq<nat>, inner: seq<seq<nat>>, m: nat, xs: seq<nat>)
    requires Family(d, mids, inner) && m > 0 && Listed(d, m, xs)
    ensures Family(d, mids + [m], inner + [xs])
  {
    hide Listed;
  }

  lemma DoubledNothing(d: seq<Block>, f: set<nat>, d': seq<Block>, f': set<nat>, ind2: nat, data: Block, from: nat)
    requires Grew(d, f, d', f', {ind2}) && from <= |data|
    ensures Doubled(d, f, d', f', ind2, [], [], data, from, from) && Concat([]) == []
  {
    assert {ind2} + Elems([]) == {ind2};
    FilledNothing(d, f, d', f', {ind2}, data, from);
  }

  lemma DoubledMore(d: seq<Block>, f: set<nat>, d1: seq<Block>, f1: set<nat>, d2: seq<Block>, f2: set<nat>,
                    ind2: nat, mids: seq<nat>, inner: seq<seq<nat>>, m: nat, xs: seq<nat>, data: Block, from: nat, mid: nat, to: nat)
    requires Doubled(d, f, d1, f1, ind2, mids, inner, data, from, mid)
    requires Filled(d1, f1, d2, f2, {m}, xs, data, mid, to) && m > 0 && Listed(d2, m, xs)
    ensures Doubled(d, f, d2, f2, ind2, mids + [m], inner + [xs], data, from, to)
  {
    var meta := {ind2} + Elems(mids);
    MidsKept(d, f, d1, f1, d2, f2, ind2, mids, inner, m, xs, data, from, mid, to);
    hide Listed, Family, Filled;
    FamilyMore(d2, mids, inner, m, xs);
    FilledBoth(d, f, d1, f1, d2, f2, meta, Concat(inner), {m}, xs, data, from, mid, to);
    ElemsConcat(mids, [m]);
    ElemsOne(m);
    hide Elems;
    assert meta + {m} == {ind2} + Elems(mids + [m]);
    ConcatMore(inner, xs);
    hide Concat;
  }

  lemma ElemsOne(m: nat)
    ensures Elems([m]) == {m}
  {
  }

  lemma MidsKept(d: seq<Block>, f: set<nat>, d1: seq<Block>, f1: set<nat>, d2: seq<Block>, f2: set<nat>,
                 ind2: nat, mids: seq<nat>, inner: seq<seq<nat>>, m: nat, xs: seq<nat>, data: Block, from: nat, mid: nat, to: nat)
    requires Doubled(d, f, d1, f1, ind2, mids, inner, data, from, mid)
    requires Filled(d1, f1, d2, f2, {m}, xs, data, mid, to)
    ensures Family(d2, mids, inner)
  {
    hide Lists, Stores, Concat;
    forall i | 0 <= i < |mids|
      ensures Listed(d2, mids[i], inner[i])
    {
      assert mids[i] in Elems(mids);
    }
  }

  lemma ConcatMore(inner: seq<seq<nat>>, xs: seq<nat>)
    ensures Concat(inner + [xs]) == Concat(inner) + xs
  {
    assert (inner + [xs])[..|inner|] == inner;
  }

  lemma BlockNumber(d: seq<Block>, b: nat, xs: seq<nat>)
    requires Listed(d, b, xs) && b > 0
    ensures b < |d|
  {
  }

  lemma MulNext(k: nat, n: nat)
    ensures (k + 1) * n == k * n + n
  {
  }

  /** The double indirect block itself is written last. */
  lemma DoubledDone(d: seq<Block>, f: set<nat>, d': seq<Block>, f': set<nat>, ind2: nat, mids: seq<nat>, inner: seq<seq<nat>>,
                    data: Block, from: nat, to: nat, x: Block)
    requires Doubled(d, f, d', f', ind2, mids, inner, data, from, to) && ind2 < |d|
    ensures Doubled(d, f, d'[ind2 := x], f', ind2, mids, inner, data, from, to)
  {
    MetaApart({ind2} + Elems(mids), Concat(inner));
    MetaApart({ind2}, mids);
    assert ind2 in {ind2} + Elems(mids);
    FilledMeta(d, f, d', f', {ind2} + Elems(mids), Concat(inner), data, from, to, ind2, x);
    hide Filled, Lists;
    forall i | 0 <= i < |mids|
      ensures Listed(d'[ind2 := x], mids[i], inner[i])
    {
      assert mids[i] in Elems(mids);
    }
  }

  lemma DoubledCount(d: seq<Block>, f: set<nat>, d': seq<Block>, f': set<nat>, ind2: nat, mids: seq<nat>, inner: seq<seq<nat>>,
                     data: Block, from: nat, to: nat)
    requires Doubled(d, f, d', f', ind2, mids, inner, data, from, to)
    ensures |f'| == |f| - 1 - |mids| - |Concat(inner)| && to <= |data|
  {
    FilledCount(d, f, d', f', {ind2} + Elems(mids), Concat(inner), data, from, to);
  }

  function Rounds(n: nat, ptrs: nat): nat
    requires ptrs > 0
  {
    (n + ptrs - 1) / ptrs
  }

  /** After `k` full rounds there is another one exactly when blocks remain. */
  lemma RoundsLeft(n: nat, ptrs: nat, k: nat)
    requires ptrs > 0 && k * ptrs <= n
    ensures k * ptrs < n ==> k < Rounds(n, ptrs)
    ensures n - k * ptrs <= ptrs && k * ptrs < n ==> Rounds(n, ptrs) == k + 1
    ensures k * ptrs == n ==> Rounds(n, ptrs) == k
    ensures n <= ptrs * ptrs && k * ptrs < n ==> k < ptrs
  {
    var r := n - k * ptrs;
    MulNext(k, ptrs);
    if r == 0 {
      DivMod(k, ptrs - 1, ptrs);
    } else if r <= ptrs {
      DivMod(k + 1, r - 1, ptrs);
      assert n + ptrs - 1 == (k + 1) * ptrs + (r - 1);
    } else {
      AtLeast(n + ptrs - 1, k + 1, ptrs);
    }
    MulMono(ptrs, k, ptrs);
  }

  lemma AtLeast(x: nat, k: nat, n: nat)
    requires n > 0 && k * n <= x
    ensures x / n >= k
  {
    assert x == x / n * n + x % n;
    MulMono(x / n + 1, k, n);
    MulNext(x / n, n);
  }

  // ----- Freeing a file

  predicate AllKnown(g: Geometry, xs: seq<nat>)
    requires g.perGroup > 0
  {
    forall i :: 0 <= i < |xs| ==> g.Known(xs[i])
  }

  /** How many blocks of a list go back before the first that cannot. */
  function Leading(g: Geometry, xs: seq<nat>): (k: nat)
    requires g.perGroup > 0
    ensures k <= |xs| && AllKnown(g, xs[..k]) && (k < |xs| ==> !g.Known(xs[k]))
  {
    if xs == [] || !g.Known(xs[0]) then 0
    else
      var k := Leading(g, xs[1..]);
      assert forall i :: 0 <= i < k ==> xs[i + 1] == xs[1..][..k][i];
      k + 1
  }

  function Returned(g: Geometry, xs: seq<nat>): seq<nat>
    requires g.perGroup > 0
  {
    xs[..Leading(g, xs)]
  }

  lemma LeadingIs(g: Geometry, xs: seq<nat>, k: nat)
    requires g.perGroup > 0 && k <= |xs| && AllKnown(g, xs[..k]) && (k < |xs| ==> !g.Known(xs[k]))
    ensures Leading(g, xs) == k
  {
    hide Geometry.Known;
    KnownAt(g, xs, k);
    KnownAt(g, xs, Leading(g, xs));
  }

  lemma KnownAt(g: Geometry, xs: seq<nat>, k: nat)
    requires g.perGroup > 0 && k <= |xs| && AllKnown(g, xs[..k])
    ensures forall i :: 0 <= i < k ==> g.Known(xs[i])
  {
    assert forall i :: 0 <= i < k ==> xs[..k][i] == xs[i];
  }

  lemma KnownParts(g: Geometry, xs: seq<nat>, ys: seq<nat>)
    requires g.perGroup > 0
    ensures AllKnown(g, xs + ys) <==> AllKnown(g, xs) && AllKnown(g, ys)
  {
    hide Geometry.Known;
    if AllKnown(g, xs + ys) {
      assert forall i :: 0 <= i < |xs| ==> xs[i] == (xs + ys)[i];
      assert forall i :: 0 <= i < |ys| ==> ys[i] == (xs + ys)[|xs| + i];
    }
  }

  lemma ReturnedAll(g: Geometry, xs: seq<nat>)
    requires g.perGroup > 0
    ensures AllKnown(g, xs) <==> Returned(g, xs) == xs
  {
    hide Geometry.Known;
    if AllKnown(g, xs) { LeadingIs(g, xs, |xs|); }
  }

  lemma ReturnedConcat(g: Geometry, xs: seq<nat>, ys: seq<nat>)
    requires g.perGroup > 0
    ensures Returned(g, xs + ys) == if AllKnown(g, xs) then xs + Returned(g, ys) else Returned(g, xs)
  {
    hide Geometry.Known, Leading, AllKnown;
    ReturnedAll(g, xs);
    LeadingOk(g, xs);
    LeadingOk(g, ys);
    if AllKnown(g, xs) {
      var k := |xs| + Leading(g, ys);
      KnownParts(g, xs, ys[..Leading(g, ys)]);
      assert (xs + ys)[..k] == xs + ys[..Leading(g, ys)];
      LeadingIs(g, xs + ys, k);
    } else {
      var k := Leading(g, xs);
      assert k < |xs|;
      assert (xs + ys)[..k] == xs[..k];
      LeadingIs(g, xs + ys, k);
    }
  }

  lemma LeadingOk(g: Geometry, xs: seq<nat>)
    requires g.perGroup > 0
    ensures Leading(g, xs) <= |xs| && AllKnown(g, xs[..Leading(g, xs)])
    ensures Leading(g, xs) < |xs| ==> !g.Known(xs[Leading(g, xs)])
  {
  }

  /** A list of which the first `k` blocks go back and the next does not. */
  lemma StopsAt(g: Geometry, xs: seq<nat>, k: nat, more: seq<nat>)
    requires g.perGroup > 0 && k < |xs| && AllKnown(g, xs[..k]) && !g.Known(xs[k])
    ensures !AllKnown(g, xs) && Returned(g, xs) == xs[..k]
    ensures !AllKnown(g, xs + more) && Returned(g, xs + more) == xs[..k]
  {
    hide Geometry.Known;
    LeadingIs(g, xs, k);
    ReturnedConcat(g, xs, more);
    KnownParts(g, xs, more);
  }

  lemma KnownNext(g: Geometry, xs: seq<nat>, k: nat)
    requires g.perGroup > 0 && k < |xs| && AllKnown(g, xs[..k]) && g.Known(xs[k])
    ensures AllKnown(g, xs[..k + 1])
  {
    hide Geometry.Known;
    assert xs[..k + 1] == xs[..k] + [xs[k]];
  }

  /** Index blocks, each behind the blocks it lists. */
  function Spread(mids: seq<nat>, inner: seq<seq<nat>>): seq<nat>
    requires |inner| == |mids|
  {
    if mids == [] then []
    else Spread(mids[..|mids| - 1], inner[..|mids| - 1]) + (inner[|mids| - 1] + [mids[|mids| - 1]])
  }

  /** The blocks of a file in the order in which they are freed. */
  function FreeOrder(sh: Shape): seq<nat>
    requires |sh.inner| == |sh.mids|
  {
    sh.direct + (sh.single + Some(sh.ind)) + (Spread(sh.mids, sh.inner) + Some(sh.ind2))
  }

  lemma {:induction false} SpreadElems(mids: seq<nat>, inner: seq<seq<nat>>)
    requires |inner| == |mids|
    ensures Elems(Spread(mids, inner)) == Elems(mids) + Elems(Concat(inner))
  {
    hide Elems;
    if mids == [] {
      ConcatNothing(mids, inner);
      ElemsConcat([], []);
    } else {
      var n := |mids| - 1;
      SpreadElems(mids[..n], inner[..n]);
      assert mids == mids[..n] + [mids[n]] && inner == inner[..n] + [inner[n]];
      ConcatMore(inner[..n], inner[n]);
      ElemsConcat(mids[..n], [mids[n]]);
      ElemsConcat(Concat(inner[..n]), inner[n]);
      ElemsConcat(Spread(mids[..n], inner[..n]), inner[n] + [mids[n]]);
      ElemsConcat(inner[n], [mids[n]]);
    }
  }

  lemma SpreadUpTo(mids: seq<nat>, inner: seq<seq<nat>>, i: nat)
    requires |inner| == |mids| && i < |mids|
    ensures Spread(mids[..i + 1], inner[..i + 1]) == Spread(mids[..i], inner[..i]) + (inner[i] + [mids[i]])
    ensures mids[..|mids|] == mids && inner[..|mids|] == inner
  {
    assert mids[..i + 1][..i] == mids[..i] && inner[..i + 1][..i] == inner[..i];
  }

  lemma {:induction false} SpreadSplit(mids: seq<nat>, inner: seq<seq<nat>>, i: nat)
    requires |inner| == |mids| && i <= |mids|
    ensures Spread(mids[..i], inner[..i]) <= Spread(mids, inner)
    decreases |mids| - i
  {
    if i == |mids| {
      assert mids[..i] == mids && inner[..i] == inner;
    } else {
      SpreadUpTo(mids, inner, i);
      SpreadSplit(mids, inner, i + 1);
    }
  }

  lemma FreeOrderIs(g: Geometry, sh: Shape)
    requires g.perGroup > 0 && |sh.inner| == |sh.mids|
    ensures Elems(FreeOrder(sh)) == Elems(AllBlocks(sh))
    ensures AllKnown(g, FreeOrder(sh)) <==> AllKnown(g, AllBlocks(sh))
  {
    AllOf(sh);
    SpreadElems(sh.mids, sh.inner);
    ElemsConcat(sh.direct, sh.single + Some(sh.ind));
    ElemsConcat(sh.single, Some(sh.ind));
    ElemsConcat(Spread(sh.mids, sh.inner), Some(sh.ind2));
    ElemsConcat(sh.direct + (sh.single + Some(sh.ind)), Spread(sh.mids, sh.inner) + Some(sh.ind2));
    hide Elems, AllBlocks;
    assert Elems(FreeOrder(sh)) == Elems(AllBlocks(sh));
    SameKnown(g, FreeOrder(sh), AllBlocks(sh));
  }

  lemma SameKnown(g: Geometry, xs: seq<nat>, ys: seq<nat>)
    requires g.perGroup > 0 && Elems(xs) == Elems(ys)
    ensures AllKnown(g, xs) <==> AllKnown(g, ys)
  {
    hide Geometry.Known;
    assert forall i :: 0 <= i < |xs| ==> xs[i] in Elems(ys);
    assert forall i :: 0 <= i < |ys| ==> ys[i] in Elems(xs);
  }

  lemma NoneReturned(g: Geometry, xs: seq<nat>)
    requires g.perGroup > 0
    ensures AllKnown(g, xs[..0]) && Elems(xs[..0]) == {}
  {
  }

  /** The index block goes back after the blocks it lists. */
  lemma LastReturned(g: Geometry, xs: seq<nat>, b: nat)
    requires g.perGroup > 0 && AllKnown(g, xs)
    ensures AllKnown(g, xs + [b]) <==> g.Known(b)
    ensures Elems(Returned(g, xs + [b])) == Elems(xs) + if g.Known(b) then {b} else {}
  {
    hide Geometry.Known, Leading, Elems, AllKnown;
    KnownParts(g, xs, [b]);
    KnownOne(g, b);
    ReturnedConcat(g, xs, [b]);
    ElemsConcat(xs, Returned(g, [b]));
    ElemsOne(b);
    NoneReturned(g, []);
  }

  lemma KnownOne(g: Geometry, b: nat)
    requires g.perGroup > 0
    ensures AllKnown(g, [b]) <==> g.Known(b)
    ensures Returned(g, [b]) == if g.Known(b) then [b] else []
  {
    hide Geometry.Known;
    LeadingIs(g, [b], if g.Known(b) then 1 else 0);
  }

  lemma SpreadStarts(g: Geometry, mids: seq<nat>, inner: seq<seq<nat>>)
    requires g.perGroup > 0 && |inner| == |mids|
    ensures AllKnown(g, Spread(mids[..0], inner[..0])) && Elems(Spread(mids[..0], inner[..0])) == {}
  {
  }

  /** One more index block with what it lists. */
  lemma SpreadNext(g: Geometry, mids: seq<nat>, inner: seq<seq<nat>>, k: nat, ind2: nat)
    requires g.perGroup > 0 && |inner| == |mids| && k < |mids| && AllKnown(g, Spread(mids[..k], inner[..k]))
    ensures var row, before, after := inner[k] + [mids[k]], Spread(mids[..k], inner[..k]), Spread(mids[..k + 1], inner[..k + 1]);
      if AllKnown(g, row) then AllKnown(g, after) && Elems(after) == Elems(before) + Elems(Returned(g, row))
      else !AllKnown(g, Spread(mids, inner) + [ind2])
           && Elems(Returned(g, Spread(mids, inner) + [ind2])) == Elems(before) + Elems(Returned(g, row))
  {
    hide Geometry.Known, Leading, Elems, AllKnown, Spread, Returned;
    var row, before, after := inner[k] + [mids[k]], Spread(mids[..k], inner[..k]), Spread(mids[..k + 1], inner[..k + 1]);
    SpreadUpTo(mids, inner, k);
    KnownParts(g, before, row);
    ReturnedAll(g, row);
    ElemsConcat(before, Returned(g, row));
    if !AllKnown(g, row) {
      SpreadSplit(mids, inner, k + 1);
      var all := Spread(mids, inner) + [ind2];
      var rest := all[|after|..];
      assert all == before + (row + rest);
      KnownParts(g, row, rest);
      KnownParts(g, before, row + rest);
      ReturnedConcat(g, row, rest);
      ReturnedConcat(g, before, row + rest);
    }
  }

  /** The three parts in which a file's blocks go back. */
  lemma ClearOrder(g: Geometry, sh: Shape)
    requires g.perGroup > 0 && |sh.inner| == |sh.mids|
    ensures var a, b, c := sh.direct, sh.single + Some(sh.ind), Spread(sh.mids, sh.inner) + Some(sh.ind2);
      var r := Elems(Returned(g, FreeOrder(sh)));
      && (AllKnown(g, AllBlocks(sh)) <==> AllKnown(g, a) && AllKnown(g, b) && AllKnown(g, c))
      && (AllKnown(g, AllBlocks(sh)) ==> r == Elems(AllBlocks(sh)))
      && r == Elems(Returned(g, a)) + (if AllKnown(g, a) then Elems(Returned(g, b)) else {})
              + (if AllKnown(g, a) && AllKnown(g, b) then Elems(Returned(g, c)) else {})
    ensures sh.ind == 0 && sh.single == [] ==>
      AllKnown(g, sh.single + Some(sh.ind)) && Elems(Returned(g, sh.single + Some(sh.ind))) == {}
    ensures sh.ind2 == 0 && sh.mids == [] ==>
      AllKnown(g, Spread(sh.mids, sh.inner) + Some(sh.ind2)) && Elems(Returned(g, Spread(sh.mids, sh.inner) + Some(sh.ind2))) == {}
  {
    hide Geometry.Known, Leading, Elems, AllKnown, Returned, AllBlocks;
    var a, b, c := sh.direct, sh.single + Some(sh.ind), Spread(sh.mids, sh.inner) + Some(sh.ind2);
    FreeOrderIs(g, sh);
    ReturnedAll(g, FreeOrder(sh));
    ReturnedAll(g, a);
    ReturnedAll(g, b);
    assert FreeOrder(sh) == a + (b + c);
    KnownParts(g, b, c);
    KnownParts(g, a, b + c);
    ReturnedConcat(g, b, c);
    ReturnedConcat(g, a, b + c);
    ElemsConcat(a, Returned(g, b + c));
    ElemsConcat(b, Returned(g, c));
    NothingReturned(g);
  }

  lemma NothingReturned(g: Geometry)
    requires g.perGroup > 0
    ensures AllKnown(g, []) && Elems(Returned(g, [])) == {}
    ensures AllKnown(g, AllBlocks(NOTHING))
  {
  }

  /** Blocks that allocation comes to can be freed again. */
  lemma ReachedKnown(g: Geometry, xs: seq<nat>, s: set<nat>)
    requires g.perGroup > 0 && Elems(xs) <= Reach(g, s)
    ensures AllKnown(g, xs)
  {
    forall i | 0 <= i < |xs|
      ensures g.Known(xs[i])
    {
      assert xs[i] in Elems(xs);
    }
  }

  lemma ElemsConcat(xs: seq<nat>, ys: seq<nat>)
    ensures Elems(xs + ys) == Elems(xs) + Elems(ys)
  {
  }

  lemma ElemsMore(xs: seq<nat>, i: nat)
    requires i < |xs|
    ensures Elems(xs[..i + 1]) == Elems(xs[..i]) + {xs[i]}
    ensures xs[..|xs|] == xs
  {
    assert xs[..i + 1] == xs[..i] + [xs[i]];
  }

  lemma ConcatUpTo(inner: seq<seq<nat>>, i: nat)
    requires i < |inner|
    ensures Concat(inner[..i + 1]) == Concat(inner[..i]) + inner[i]
    ensures inner[..|inner|] == inner
  {
    assert inner[..i + 1][..i] == inner[..i];
  }

  /** The inode's pointers with the first `i` cleared. */
  function Cleared(p: seq<nat>, i: nat): (c: seq<nat>)
    requires i <= |p|
    ensures |c| == |p|
  {
    seq(i, _ => 0) + p[i..]
  }

  lemma ClearNext(p: seq<nat>, i: nat)
    requires i < |p|
    ensures Cleared(p, i)[i := 0] == Cleared(p, i + 1) && Cleared(p, i)[i] == p[i]
    ensures p[i] == 0 ==> Cleared(p, i) == Cleared(p, i + 1)
    ensures Cleared(p, 0) == p
  {
  }

  lemma AllOf(sh: Shape)
    ensures Elems(AllBlocks(sh)) == Elems(sh.direct) + Elems(Some(sh.ind)) + Elems(sh.single) + Elems(Some(sh.ind2)) + Elems(sh.mids) + Elems(Concat(sh.inner))
    ensures Elems(Some(sh.ind)) == if sh.ind == 0 then {} else {sh.ind}
    ensures Elems(Some(sh.ind2)) == if sh.ind2 == 0 then {} else {sh.ind2}
  {
  }

  // ----- Reading a file

  /** The first `want` bytes behind a list of blocks, or all of them. */
  ghost function Taken(d: seq<Block>, xs: seq<nat>, want: nat): Block {
    Start(Flat(d, xs), want)
  }

  function Start(x: Block, n: nat): Block {
    if n < |x| then x[..n] else x
  }

  lemma StartConcat(x: Block, y: Block, want: nat)
    ensures |Start(x, want)| <= want
    ensures Start(x + y, want) == Start(x, want) + Start(y, want - |Start(x, want)|)
  {
  }

  lemma StartTwice(x: Block, n: nat, m: nat)
    requires n <= m
    ensures Start(x, n) == Start(Start(x, m), n)
  {
  }

  lemma TakenConcat(d: seq<Block>, xs: seq<nat>, ys: seq<nat>, want: nat)
    ensures |Taken(d, xs, want)| <= want
    ensures Taken(d, xs + ys, want) == Taken(d, xs, want) + Taken(d, ys, want - |Taken(d, xs, want)|)
  {
    hide Flat, Start;
    FlatConcat(d, xs, ys);
    StartConcat(Flat(d, xs), Flat(d, ys), want);
  }

  lemma TakenNext(d: seq<Block>, xs: seq<nat>, i: nat, want: nat)
    requires i < |xs| && xs[i] < |d|
    ensures |Taken(d, xs[..i], want)| <= want
    ensures var left := want - |Taken(d, xs[..i], want)|;
      Taken(d, xs[..i + 1], want) == Taken(d, xs[..i], want) + d[xs[i]][..if left < |d[xs[i]]| then left else |d[xs[i]]|]
  {
    assert xs[..i + 1] == xs[..i] + [xs[i]];
    TakenConcat(d, xs[..i], [xs[i]], want);
    assert [xs[i]][..0] == [];
    assert Flat(d, [xs[i]]) == d[xs[i]];
  }

  /** The whole list was taken: enough is read, or the list ends here. */
  lemma TakenAll(d: seq<Block>, xs: seq<nat>, i: nat, want: nat)
    requires i <= |xs| && (|Taken(d, xs[..i], want)| == want || i == |xs|)
    ensures Taken(d, xs, want) == Taken(d, xs[..i], want)
  {
    assert xs[..i] + xs[i..] == xs;
    TakenEnough(d, xs[..i], xs[i..], want);
  }

  lemma TakenEnough(d: seq<Block>, xs: seq<nat>, ys: seq<nat>, want: nat)
    ensures |Taken(d, xs, want)| == want ==> Taken(d, xs + ys, want) == Taken(d, xs, want)
    ensures ys == [] ==> xs + ys == xs
  {
    TakenConcat(d, xs, ys, want);
  }

  lemma TakenStart(d: seq<Block>, xs: seq<nat>, want: nat)
    ensures Taken(d, xs[..0], want) == [] && Taken(d, Concat([][..0]), want) == []
  {
  }

  lemma {:induction false} InnerInside(inner: seq<seq<nat>>, k: nat)
    requires k < |inner|
    ensures forall n :: Inside(Concat(inner), n) ==> Inside(inner[k], n)
  {
    var front, last := inner[..|inner| - 1], inner[|inner| - 1];
    forall n | Inside(Concat(inner), n)
      ensures Inside(Concat(front), n) && Inside(last, n)
    {
      InsideParts(Concat(front), last, n);
    }
    if k < |inner| - 1 { InnerInside(front, k); }
  }

  lemma InsideParts(xs: seq<nat>, ys: seq<nat>, n: nat)
    requires Inside(xs + ys, n)
    ensures Inside(xs, n) && Inside(ys, n)
  {
    forall i | 0 <= i < |xs|
      ensures xs[i] < n
    {
      assert (xs + ys)[i] == xs[i];
    }
    forall i | 0 <= i < |ys|
      ensures ys[i] < n
    {
      assert (xs + ys)[|xs| + i] == ys[i];
    }
  }

  lemma {:induction false} ConcatSplit(inner: seq<seq<nat>>, i: nat)
    requires i <= |inner|
    ensures Concat(inner) == Concat(inner[..i]) + Concat(inner[i..])
  {
    hide Concat;
    if i == |inner| {
      ConcatNothing([], inner[i..]);
      assert inner[..i] == inner;
    } else {
      var front, last := inner[..|inner| - 1], inner[|inner| - 1];
      ConcatSplit(front, i);
      ConcatMore(front, last);
      ConcatMore(front[i..], last);
      assert front[..i] == inner[..i] && inner[i..] == front[i..] + [last] && inner == front + [last];
    }
  }

  lemma ConcatNothing(mids: seq<nat>, inner: seq<seq<nat>>)
    requires |inner| == |mids|
    ensures mids == [] ==> Concat(inner) == []
  {
  }

  // ----- A file under construction

  function Meta(sh: Shape): set<nat> {
    Elems(Some(sh.ind)) + Elems(Some(sh.ind2)) + Elems(sh.mids)
  }

  function MetaCount(sh: Shape): nat {
    |Some(sh.ind)| + |Some(sh.ind2)| + |sh.mids|
  }

  /** The pointers lead to this shape, all its blocks were free in `f` and are different, and it
      holds the first `to` bytes of the data. */
  ghost predicate Building(d: seq<Block>, f: set<nat>, d': seq<Block>, f': set<nat>, p: seq<nat>, sh: Shape, data: Block, to: nat) {
    && Laid(d', p, sh) && |Meta(sh)| == MetaCount(sh)
    && Filled(d, f, d', f', Meta(sh), Data(sh), data, 0, to)
  }

  lemma BuildingLaid(d: seq<Block>, f: set<nat>, d': seq<Block>, f': set<nat>, p: seq<nat>, sh: Shape, data: Block, to: nat)
    requires Building(d, f, d', f', p, sh, data, to)
    ensures Laid(d', p, sh) && |p| == 15
  {
  }

  lemma OnlyDirect(d: seq<Block>, f: set<nat>, d': seq<Block>, f': set<nat>, p: seq<nat>, direct: seq<nat>, data: Block, to: nat)
    requires |p| == 15 && |direct| <= 12 && p[12] == p[13] == 0
    requires forall i :: 0 <= i < 12 ==> p[i] == if i < |direct| then direct[i] else 0
    requires Filled(d, f, d', f', {}, direct, data, 0, to)
    ensures Building(d, f, d', f', p, Shape(direct, 0, [], 0, [], []), data, to)
  {
    hide Stores;
    var sh := Shape(direct, 0, [], 0, [], []);
    assert Data(sh) == direct;
    assert Meta(sh) == {};
  }

  lemma LaidSingle(d1: seq<Block>, d2: seq<Block>, p: seq<nat>, direct: seq<nat>, ind: nat, xs: seq<nat>)
    requires Laid(d1, p, Shape(direct, 0, [], 0, [], [])) && |d2| == |d1| && ind != 0 && Listed(d2, ind, xs) && Inside(xs, |d2|)
    ensures Laid(d2, p[12 := ind], Shape(direct, ind, xs, 0, [], []))
  {
    hide Lists;
  }

  lemma AddSingle(d: seq<Block>, f: set<nat>, d1: seq<Block>, f1: set<nat>, d2: seq<Block>, f2: set<nat>, p: seq<nat>, sh: Shape,
                  ind: nat, xs: seq<nat>, data: Block, mid: nat, to: nat)
    requires Building(d, f, d1, f1, p, sh, data, mid) && sh == Shape(sh.direct, 0, [], 0, [], [])
    requires Filled(d1, f1, d2, f2, {ind}, xs, data, mid, to) && Listed(d2, ind, xs) && ind != 0
    ensures |p| == 15 && Building(d, f, d2, f2, p[12 := ind], Shape(sh.direct, ind, xs, 0, [], []), data, to)
  {
    var sh' := Shape(sh.direct, ind, xs, 0, [], []);
    assert |p| == 15;
    FilledInside(d1, f1, d2, f2, {ind}, xs, data, mid, to);
    LaidSingle(d1, d2, p, sh.direct, ind, xs);
    hide Laid, Filled, Listed, Data, Meta;
    FilledBoth(d, f, d1, f1, d2, f2, Meta(sh), Data(sh), {ind}, xs, data, 0, mid, to);
    WithSingle(sh, ind, xs);
  }

  lemma WithSingle(sh: Shape, ind: nat, xs: seq<nat>)
    requires sh == Shape(sh.direct, 0, [], 0, [], []) && ind != 0
    ensures var sh' := Shape(sh.direct, ind, xs, 0, [], []);
      Data(sh') == Data(sh) + xs && Meta(sh') == Meta(sh) + {ind} && MetaCount(sh') == 1 && MetaCount(sh) == 0
  {
    var sh' := Shape(sh.direct, ind, xs, 0, [], []);
    assert Data(sh') == Data(sh) + xs;
    assert Meta(sh') == Meta(sh) + {ind};
  }

  lemma WithDouble(sh: Shape, ind2: nat, mids: seq<nat>, inner: seq<seq<nat>>)
    requires sh == Shape(sh.direct, sh.ind, sh.single, 0, [], []) && ind2 != 0
    ensures var sh' := sh.(ind2 := ind2, mids := mids, inner := inner);
      && Data(sh') == Data(sh) + Concat(inner) && Meta(sh') == Meta(sh) + ({ind2} + Elems(mids))
      && MetaCount(sh') == MetaCount(sh) + 1 + |mids|
  {
    var sh' := sh.(ind2 := ind2, mids := mids, inner := inner);
    assert Data(sh') == Data(sh) + Concat(inner);
    assert Meta(sh') == Meta(sh) + ({ind2} + Elems(mids));
  }

  lemma FilledInside(d: seq<Block>, f: set<nat>, d': seq<Block>, f': set<nat>, meta: set<nat>, xs: seq<nat>, data: Block, from: nat, to: nat)
    requires Filled(d, f, d', f', meta, xs, data, from, to)
    ensures Inside(xs, |d'|) && |d'| == |d|
  {
  }

  lemma LaidDouble(d1: seq<Block>, d2: seq<Block>, p: seq<nat>, sh: Shape, ind2: nat, mids: seq<nat>, inner: seq<seq<nat>>)
    requires Laid(d1, p, sh) && sh == Shape(sh.direct, sh.ind, sh.single, 0, [], [])
    requires |d2| == |d1| && (sh.ind != 0 ==> d2[sh.ind] == d1[sh.ind])
    requires ind2 != 0 && Listed(d2, ind2, mids) && |inner| == |mids| && Inside(mids, |d2|) && Inside(Concat(inner), |d2|)
    requires forall i :: 0 <= i < |mids| ==> Listed(d2, mids[i], inner[i])
    ensures Laid(d2, p[13 := ind2], sh.(ind2 := ind2, mids := mids, inner := inner))
  {
    hide Lists, Concat;
  }

  lemma AddDouble(d: seq<Block>, f: set<nat>, d1: seq<Block>, f1: set<nat>, d2: seq<Block>, f2: set<nat>, p: seq<nat>, sh: Shape,
                  ind2: nat, mids: seq<nat>, inner: seq<seq<nat>>, data: Block, mid: nat, to: nat)
    requires Building(d, f, d1, f1, p, sh, data, mid) && sh == Shape(sh.direct, sh.ind, sh.single, 0, [], [])
    requires Doubled(d1, f1, d2, f2, ind2, mids, inner, data, mid, to) && Listed(d2, ind2, mids) && ind2 != 0
    ensures |p| == 15 && Building(d, f, d2, f2, p[13 := ind2], sh.(ind2 := ind2, mids := mids, inner := inner), data, to)
  {
    var sh' := sh.(ind2 := ind2, mids := mids, inner := inner);
    var meta := {ind2} + Elems(mids);
    IndexInMeta(d, f, d1, f1, p, sh, data, mid);
    hide Laid, Filled, Lists, Concat, Data, Meta, Elems;
    FilledInside(d1, f1, d2, f2, meta, Concat(inner), data, mid, to);
    FilledBoth(d, f, d1, f1, d2, f2, Meta(sh), Data(sh), meta, Concat(inner), data, 0, mid, to);
    MidsInside(d2, mids, inner);
    LaidDouble(d1, d2, p, sh, ind2, mids, inner);
    WithDouble(sh, ind2, mids, inner);
  }

  lemma IndexInMeta(d: seq<Block>, f: set<nat>, d': seq<Block>, f': set<nat>, p: seq<nat>, sh: Shape, data: Block, to: nat)
    requires Building(d, f, d', f', p, sh, data, to)
    ensures |p| == 15 && |d'| == |d| && (sh.ind != 0 ==> sh.ind < |d'| && sh.ind in Meta(sh))
  {
  }

  lemma MidsInside(d: seq<Block>, mids: seq<nat>, inner: seq<seq<nat>>)
    requires Family(d, mids, inner)
    ensures Inside(mids, |d|)
  {
  }

  lemma BuildingCount(d: seq<Block>, f: set<nat>, d': seq<Block>, f': set<nat>, p: seq<nat>, sh: Shape, data: Block, to: nat)
    requires Building(d, f, d', f', p, sh, data, to)
    ensures |f'| == |f| - |AllBlocks(sh)| && to <= |data| && |p| == 15
    ensures |AllBlocks(sh)| == |sh.direct| + |Some(sh.ind)| + |sh.single| + |Some(sh.ind2)| + |sh.mids| + |Concat(sh.inner)|
    ensures |Data(sh)| == |sh.direct| + |sh.single| + |Concat(sh.inner)|
  {
    FilledCount(d, f, d', f', Meta(sh), Data(sh), data, 0, to);
  }

  lemma EmptyFile(d: seq<Block>, f: set<nat>, p: seq<nat>, ptrs: nat)
    requires |p| == 15 && ptrs > 0
    ensures Laid(d, Cleared(p, 14), NOTHING) && |Data(NOTHING)| == 0 && Taken(d, Data(NOTHING), 0) == []
    ensures Grew(d, f, d, f, Elems(AllBlocks(NOTHING)))
    ensures |Elems(AllBlocks(NOTHING))| == |AllBlocks(NOTHING)| == Total(0, ptrs) == 0
  {
  }

  lemma NoMore(meta: set<nat>)
    ensures meta + {} == meta
  {
  }

  lemma BlockNumberOf(b: nat, n: nat)
    requires Inside([b], n)
    ensures b < n
  {
    assert [b][0] == b;
  }

  lemma NotElem(x: nat, xs: seq<nat>)
    requires {x} !! Elems(xs)
    ensures x !in xs
  {
    assert x in xs ==> x in Elems(xs);
  }

  lemma NoBlocks(f: set<nat>)
    ensures f + Elems(AllBlocks(NOTHING)) == f
  {
  }

  lemma NoMeta()
    ensures var none: set<nat> := {}; none + none == none
  {
  }

  lemma NothingGrew(d: seq<Block>, f: set<nat>)
    ensures Grew(d, f, d, f, {})
  {
  }

  /** A finished file: all its blocks were free, are pairwise different and in use now, and reading
      them gives the data. */
  lemma Built(d: seq<Block>, f: set<nat>, d': seq<Block>, f': set<nat>, p: seq<nat>, sh: Shape, data: Block, to: nat, n: nat)
    requires Building(d, f, d', f', p, sh, data, to) && Sized(d', n) && |data| <= |Data(sh)| * n
    ensures Grew(d, f, d', f', Elems(AllBlocks(sh)))
    ensures |Elems(AllBlocks(sh))| == |AllBlocks(sh)|
    ensures Taken(d', Data(sh), |data|) == data
  {
    FilledInside(d, f, d', f', Meta(sh), Data(sh), data, 0, to);
    BuildingCount(d, f, d', f', p, sh, data, to);
    hide Laid, Grew, Lists, Concat;
    FullyStored(d', Data(sh), data, to, n);
    AllOf(sh);
    DataOf(sh);
    hide Data, AllBlocks, Elems, Stores, Taken;
    assert Meta(sh) + Elems(Data(sh)) == Elems(AllBlocks(sh));
  }

  lemma FullyStored(d: seq<Block>, xs: seq<nat>, data: Block, to: nat, n: nat)
    requires Stores(d, xs, data, 0, to) && Sized(d, n) && Inside(xs, |d|) && |data| <= |xs| * n
    ensures Taken(d, xs, |data|) == data
  {
    FlatLength(d, xs, n);
  }

  lemma DataOf(sh: Shape)
    ensures Elems(Data(sh)) == Elems(sh.direct) + Elems(sh.single) + Elems(Concat(sh.inner))
  {
  }

  /** How many blocks the driver allocates for `len` bytes: sizes are 64-bit, the number 32-bit. */
  function Rounded(len: nat, n: nat): nat
    requires n > 0
  {
    (len + n - 1) % TWO64 / n % TWO32
  }

  /** How many of the bytes these blocks hold. */
  function Kept(len: nat, n: nat): nat
    requires n > 0
  {
    if len < Rounded(len, n) * n then len else Rounded(len, n) * n
  }

  lemma EnoughBlocks(len: nat, n: nat)
    requires 0 < n <= 4096
    ensures Kept(len, n) <= len && Kept(len, n) <= Rounded(len, n) * n
    ensures len < TWO32 ==> Kept(len, n) == len
    ensures len == 0 ==> Rounded(len, n) == Kept(len, n) == 0
  {
    if len < TWO32 { FewBlocks(len, n); }
  }

  lemma FewBlocks(len: nat, n: nat)
    requires 0 < n <= 4096 && len < TWO32
    ensures Rounded(len, n) == (len + n - 1) / n <= len <= Rounded(len, n) * n
  {
    var x := len + n - 1;
    var q := x / n;
    assert x == q * n + x % n;
    MulMono(1, n, len);
    DivBelow(x, len, n);
    assert x % TWO64 == x && q % TWO32 == q;
  }

  /** Reading as many bytes as the inode's 32-bit size says. */
  lemma ReadBack(d: seq<Block>, p: seq<nat>, sh: Shape, data: Block, n: nat, back: Block)
    requires 0 < n <= 4096 && Sized(d, n) && Laid(d, p, sh) && |Data(sh)| == Rounded(|data|, n)
    requires Kept(|data|, n) <= |data| && Taken(d, Data(sh), Kept(|data|, n)) == data[..Kept(|data|, n)]
    requires back == Taken(d, Data(sh), |data| % TWO32)
    ensures back == Start(data[..Kept(|data|, n)], |data| % TWO32)
    ensures back == data <==> |data| < TWO32
  {
    hide Rounded, Laid, Flat, Concat, Lists;
    DataInside(d, p, sh);
    FlatLength(d, Data(sh), n);
    EnoughBlocks(|data|, n);
    var x, kept, size := Flat(d, Data(sh)), Kept(|data|, n), |data| % TWO32;
    if size <= kept { StartTwice(x, size, kept); }
  }

  lemma DataInside(d: seq<Block>, p: seq<nat>, sh: Shape)
    requires Laid(d, p, sh)
    ensures Inside(Data(sh), |d|)
  {
  }

  lemma NewKnown(g: Geometry, d: seq<Block>, all: set<nat>, d': seq<Block>, f': set<nat>, sh: Shape)
    requires g.perGroup > 0 && Grew(d, Reach(g, all), d', f', Elems(AllBlocks(sh)))
    ensures AllKnown(g, AllBlocks(sh))
  {
    ReachedKnown(g, AllBlocks(sh), all);
  }

  /** What was taken goes back. */
  lemma AllBack(g: Geometry, d: seq<Block>, all: set<nat>, d': seq<Block>, f': set<nat>, all': set<nat>, sh: Shape)
    requires g.perGroup > 0 && Grew(d, Reach(g, all), d', f', Elems(AllBlocks(sh)))
    requires f' <= all' && all' - f' == all - Reach(g, all)
    ensures all' + Elems(AllBlocks(sh)) == all
  {
    hide AllBlocks, Elems;
    assert Reach(g, all) <= all;
    assert all' == f' + (all' - f');
  }

  /** A file whose blocks are in use and not the ones rewritten keeps its shape and its bytes. */
  lemma OtherFileKept(d: seq<Block>, f: set<nat>, d': seq<Block>, f': set<nat>, new_: set<nat>, p: seq<nat>, sh: Shape)
    requires Grew(d, f, d', f', new_) && Laid(d, p, sh) && Elems(AllBlocks(sh)) !! f
    ensures Laid(d', p, sh) && Flat(d', Data(sh)) == Flat(d, Data(sh))
  {
    AllOf(sh);
    DataOf(sh);
    hide AllBlocks, Data, Lists, Concat;
    forall x | x in Elems(Data(sh)) + Elems(sh.mids) + Elems(Some(sh.ind)) + Elems(Some(sh.ind2))
      ensures x !in new_
    {
      assert x in Elems(AllBlocks(sh));
    }
    forall i | 0 <= i < |Data(sh)| && Data(sh)[i] < |d|
      ensures d'[Data(sh)[i]] == d[Data(sh)[i]]
    {
      assert Data(sh)[i] in Elems(Data(sh));
    }
    FlatSame(d, d', Data(sh));
    forall i | 0 <= i < |sh.mids|
      ensures Listed(d', sh.mids[i], sh.inner[i])
    {
      assert sh.mids[i] in Elems(sh.mids);
    }
  }
}
