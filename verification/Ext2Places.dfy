/** Where kernel/src/fs/ext2.c keeps the bytes of a file: the block of each byte, found from the 15
    pointers of the inode and the bytes of the index blocks alone. */
module Ext2Places {
  import opened Ext2Layout

  /** The `k`th 32-bit pointer of block `b`, lowest byte first; block 0 has none. */
  ghost function Pointer(d: seq<Block>, b: nat, k: nat): nat {
    if b != 0 && b < |d| && 4 * k + 3 < |d[b]| then
      d[b][4 * k] as int + 0x100 * (d[b][4 * k + 1] as int) + 0x1_0000 * (d[b][4 * k + 2] as int) + 0x100_0000 * (d[b][4 * k + 3] as int)
    else 0
  }

  /** The block that holds the bytes from `x * n` of a file; 0 is none. Pointers 0 to 11 are those of
      the first 12 blocks, pointer 12 leads to those of the next `n / 4`, pointer 13 to those of the
      blocks that list the others. */
  ghost function FileBlock(d: seq<Block>, p: seq<nat>, n: nat, x: nat): nat
    requires |p| == 15 && n >= 4
  {
    if x < 12 then p[x]
    else if x < 12 + n / 4 then Pointer(d, p[12], x - 12)
    else Pointer(d, Pointer(d, p[13], (x - 12 - n / 4) / (n / 4)), (x - 12 - n / 4) % (n / 4))
  }

  /** Byte `y` of `data` is byte `y % n` of its block, for all its bytes. */
  ghost predicate HasBytes(d: seq<Block>, p: seq<nat>, n: nat, data: Block) {
    |p| == 15 && n >= 4 && forall y :: 0 <= y < |data| ==> HasByte(d, FileBlock(d, p, n, y / n), y % n, data[y])
  }

  ghost predicate HasByte(d: seq<Block>, b: nat, k: nat, v: Byte) {
    0 < b < |d| && k < |d[b]| && d[b][k] == v
  }

  /** The first `count` blocks are all there. */
  ghost predicate Dense(d: seq<Block>, p: seq<nat>, n: nat, count: nat) {
    |p| == 15 && n >= 4 && forall x :: 0 <= x < count ==> FileBlock(d, p, n, x) != 0
  }

  // ----- Lists behind index blocks

  lemma ListedAt(d: seq<Block>, b: nat, xs: seq<nat>, n: nat, k: nat)
    requires Sized(d, n) && n % 4 == 0 && Listed(d, b, xs) && k < n / 4
    ensures Pointer(d, b, k) == if k < |xs| then xs[k] else 0
    ensures k < |xs| ==> xs[k] != 0
    ensures |xs| <= n / 4
  {
    if b != 0 {
      ListsAt(d[b], xs, k);
      assert 4 * k + 3 < n;
    }
  }

  /** Rows that are full up to one of them. */
  lemma {:induction false} FullLength(inner: seq<seq<nat>>, ptrs: nat)
    requires forall i :: 0 <= i < |inner| ==> |inner[i]| == ptrs
    ensures |Concat(inner)| == |inner| * ptrs
  {
    if inner != [] {
      FullLength(inner[..|inner| - 1], ptrs);
      MulNext(|inner| - 1, ptrs);
    }
  }

  lemma ConcatAt(inner: seq<seq<nat>>, ptrs: nat, y: nat)
    requires ptrs > 0 && y / ptrs < |inner| && y % ptrs < |inner[y / ptrs]|
    requires forall i :: 0 <= i < y / ptrs ==> |inner[i]| == ptrs
    ensures y < |Concat(inner)| && Concat(inner)[y] == inner[y / ptrs][y % ptrs]
  {
    var k, j := y / ptrs, y % ptrs;
    assert y == k * ptrs + j;
    FullLength(inner[..k], ptrs);
    ConcatSplit(inner, k);
    ConcatSplit(inner[k..], 1);
    assert inner[k..][..1] == [inner[k]];
    ConcatMore([], inner[k]);
    assert [] + [inner[k]] == [inner[k]];
    hide Concat;
    var front, row, back := Concat(inner[..k]), inner[k], Concat(inner[k..][1..]);
    assert Concat([inner[k]]) == row by { ConcatNothing([], []); }
    assert Concat(inner) == front + (row + back);
  }

  // ----- The blocks of a shape are where the pointers say

  ghost predicate Blocky(n: nat) {
    n in {1024, 2048, 4096}
  }

  lemma DirectAt(d: seq<Block>, p: seq<nat>, sh: Shape, n: nat, x: nat)
    requires Laid(d, p, sh) && Blocky(n) && x < 12
    ensures FileBlock(d, p, n, x) == if x < |sh.direct| then sh.direct[x] else 0
    ensures FileBlock(d, p, n, x) != 0 ==> x < |sh.direct|
  {
    hide Lists, Concat;
  }

  lemma SingleAt(d: seq<Block>, p: seq<nat>, sh: Shape, n: nat, k: nat)
    requires Laid(d, p, sh) && Sized(d, n) && Blocky(n) && k < n / 4
    ensures |sh.single| <= n / 4
    ensures FileBlock(d, p, n, 12 + k) == if k < |sh.single| then sh.single[k] else 0
    ensures FileBlock(d, p, n, 12 + k) != 0 ==> k < |sh.single|
  {
    hide Lists, Concat;
    ListedAt(d, sh.ind, sh.single, n, k);
  }

  lemma InnerAt(d: seq<Block>, p: seq<nat>, sh: Shape, n: nat, i: nat, j: nat)
    requires Laid(d, p, sh) && Sized(d, n) && Blocky(n) && i < n / 4 && j < n / 4
    ensures |sh.inner| <= n / 4 && (i < |sh.inner| ==> |sh.inner[i]| <= n / 4)
    ensures FileBlock(d, p, n, 12 + n / 4 + (i * (n / 4) + j)) == if i < |sh.inner| && j < |sh.inner[i]| then sh.inner[i][j] else 0
    ensures FileBlock(d, p, n, 12 + n / 4 + (i * (n / 4) + j)) != 0 ==> i < |sh.inner| && j < |sh.inner[i]|
  {
    hide Lists, Concat;
    DivMod(i, j, n / 4);
    ListedAt(d, sh.ind2, sh.mids, n, i);
    if i < |sh.mids| { ListedAt(d, sh.mids[i], sh.inner[i], n, j); }
  }

  /** If the first blocks of a file are all there, reading comes to them in that order. */
  lemma DenseAt(d: seq<Block>, p: seq<nat>, sh: Shape, n: nat, count: nat, x: nat)
    requires Laid(d, p, sh) && Sized(d, n) && Blocky(n) && Dense(d, p, n, count) && x < count
    requires count <= 12 + n / 4 + n / 4 * (n / 4)
    ensures x < |Data(sh)| && Data(sh)[x] == FileBlock(d, p, n, x)
  {
    hide Laid, Concat, Sized, FileBlock;
    var ptrs := n / 4;
    DirectAt(d, p, sh, n, if x < 12 then x else 11);
    if x >= 12 {
      assert FileBlock(d, p, n, 11) != 0;
      DirectsFit(d, p, sh);
      SingleAt(d, p, sh, n, if x < 12 + ptrs then x - 12 else ptrs - 1);
      if x >= 12 + ptrs {
        assert FileBlock(d, p, n, 12 + (ptrs - 1)) != 0;
        DoubleAt(d, p, sh, n, count, x - 12 - ptrs);
      }
    }
  }

  lemma DirectsFit(d: seq<Block>, p: seq<nat>, sh: Shape)
    requires Laid(d, p, sh)
    ensures |sh.direct| <= 12
  {
  }

  lemma DoubleAt(d: seq<Block>, p: seq<nat>, sh: Shape, n: nat, count: nat, y: nat)
    requires Laid(d, p, sh) && Sized(d, n) && Blocky(n) && Dense(d, p, n, count) && 12 + n / 4 + y < count
    requires count <= 12 + n / 4 + n / 4 * (n / 4)
    ensures y < |Concat(sh.inner)| && Concat(sh.inner)[y] == FileBlock(d, p, n, 12 + n / 4 + y)
  {
    hide Laid, Concat, Sized, FileBlock;
    var ptrs := n / 4;
    var k, j := y / ptrs, y % ptrs;
    assert y == k * ptrs + j;
    AtLeastRows(y, ptrs);
    forall i | 0 <= i < k
      ensures i < |sh.inner| && |sh.inner[i]| == ptrs
    {
      MulMono(i + 1, k, ptrs);
      MulNext(i, ptrs);
      assert i * ptrs + (ptrs - 1) < y;
      assert FileBlock(d, p, n, 12 + ptrs + (i * ptrs + (ptrs - 1))) != 0;
      InnerAt(d, p, sh, n, i, ptrs - 1);
    }
    InnerAt(d, p, sh, n, k, j);
    ConcatAt(sh.inner, ptrs, y);
  }

  lemma AtLeastRows(y: nat, ptrs: nat)
    requires ptrs > 0 && y < ptrs * ptrs
    ensures y / ptrs < ptrs
  {
    if y / ptrs >= ptrs { MulMono(ptrs, y / ptrs, ptrs); }
  }

  // ----- Shapes without gaps

  /** Each part is full before the next one begins. */
  ghost predicate Packed(sh: Shape, ptrs: nat) {
    && (sh.single != [] || sh.inner != [] ==> |sh.direct| == 12)
    && (sh.inner != [] ==> |sh.single| == ptrs)
    && Rows(sh.inner, ptrs)
  }

  /** All rows but the last are full. */
  ghost predicate Rows(inner: seq<seq<nat>>, ptrs: nat) {
    forall i :: 0 <= i < |inner| - 1 ==> |inner[i]| == ptrs
  }

  lemma RowsMore(inner: seq<seq<nat>>, xs: seq<nat>, ptrs: nat)
    requires Rows(inner, ptrs) && (inner != [] ==> |inner[|inner| - 1]| == ptrs)
    ensures Rows(inner + [xs], ptrs)
  {
  }

  lemma NoRows(ptrs: nat)
    ensures Rows([], ptrs)
  {
  }

  /** Such a shape has a block at every index up to its length, and none beyond. */
  lemma PackedAt(d: seq<Block>, p: seq<nat>, sh: Shape, n: nat, x: nat)
    requires Laid(d, p, sh) && Sized(d, n) && Blocky(n) && Packed(sh, n / 4) && x < 12 + n / 4 + n / 4 * (n / 4)
    ensures FileBlock(d, p, n, x) != 0 <==> x < |Data(sh)|
  {
    hide Laid, Concat, Sized, FileBlock;
    var ptrs := n / 4;
    DirectsFit(d, p, sh);
    SingleAt(d, p, sh, n, 0);
    if sh.inner == [] { ConcatNothing([], sh.inner); }
    if x < 12 {
      DirectAt(d, p, sh, n, x);
      DirectNonzero(d, p, sh, x);
    } else if x < 12 + ptrs {
      SingleAt(d, p, sh, n, x - 12);
      SingleNonzero(d, p, sh, x - 12);
    } else {
      PackedInner(d, p, sh, n, x - 12 - ptrs);
    }
  }

  lemma DirectNonzero(d: seq<Block>, p: seq<nat>, sh: Shape, x: nat)
    requires Laid(d, p, sh)
    ensures x < |sh.direct| ==> sh.direct[x] != 0
    ensures |sh.direct| <= 12
  {
    hide Lists, Concat;
  }

  lemma SingleNonzero(d: seq<Block>, p: seq<nat>, sh: Shape, k: nat)
    requires Laid(d, p, sh)
    ensures k < |sh.single| ==> sh.single[k] != 0
    ensures |sh.direct| <= 12
  {
    hide Concat;
  }

  lemma InnerNonzero(d: seq<Block>, p: seq<nat>, sh: Shape, i: nat, j: nat)
    requires Laid(d, p, sh) && i < |sh.inner| && j < |sh.inner[i]|
    ensures sh.inner[i][j] != 0
  {
    hide Concat;
    assert Listed(d, sh.mids[i], sh.inner[i]);
  }

  lemma PackedInner(d: seq<Block>, p: seq<nat>, sh: Shape, n: nat, y: nat)
    requires Laid(d, p, sh) && Sized(d, n) && Blocky(n) && Packed(sh, n / 4) && y < n / 4 * (n / 4)
    ensures FileBlock(d, p, n, 12 + n / 4 + y) != 0 <==> y < |Concat(sh.inner)|
    ensures sh.inner == [] ==> |Concat(sh.inner)| == 0
  {
    hide Laid, Concat, Sized, FileBlock;
    var ptrs := n / 4;
    var k, j := y / ptrs, y % ptrs;
    assert y == k * ptrs + j;
    AtLeastRows(y, ptrs);
    InnerAt(d, p, sh, n, k, j);
    if sh.inner == [] {
      ConcatNothing([], sh.inner);
    } else {
      var rows := |sh.inner|;
      InnerAt(d, p, sh, n, rows - 1, 0);
      RowsLength(sh.inner, ptrs);
      if k < rows && j < |sh.inner[k]| {
        InnerNonzero(d, p, sh, k, j);
        ConcatAt(sh.inner, ptrs, y);
      } else if k < rows {
        assert k == rows - 1;
      } else {
        MulMono(rows, k, ptrs);
        MulNext(rows - 1, ptrs);
      }
    }
  }

  lemma RowsLength(inner: seq<seq<nat>>, ptrs: nat)
    requires Rows(inner, ptrs) && inner != []
    ensures |Concat(inner)| == (|inner| - 1) * ptrs + |inner[|inner| - 1]|
  {
    FullLength(inner[..|inner| - 1], ptrs);
  }

  // ----- Bytes

  lemma LastBlock(y: nat, k: nat, n: nat)
    requires k * n <= y < k * n + n
    ensures y / n == k && y % n == y - k * n
  {
    DivMod(k, y - k * n, n);
  }

  lemma {:induction false} FlatAt(d: seq<Block>, xs: seq<nat>, n: nat, y: nat)
    requires Sized(d, n) && n > 0 && Inside(xs, |d|) && y < |xs| * n
    ensures |Flat(d, xs)| == |xs| * n && y / n < |xs| && Flat(d, xs)[y] == d[xs[y / n]][y % n]
  {
    FlatLength(d, xs, n);
    var k := |xs| - 1;
    if k >= 0 {
      var front, last := xs[..k], xs[k];
      FlatLength(d, front, n);
      assert xs == front + [last];
      FlatMore(d, front, last);
      assert BytesOf(d, last) == d[last];
      hide Flat, BytesOf;
      MulNext(k, n);
      if y < k * n {
        FlatAt(d, front, n, y);
      } else {
        LastBlock(y, k, n);
      }
    }
  }

  /** The bytes taken from the blocks of a shape are the bytes at their places. */
  lemma TakenPlace(d: seq<Block>, p: seq<nat>, sh: Shape, n: nat, count: nat, want: nat)
    requires Laid(d, p, sh) && Sized(d, n) && Blocky(n) && Dense(d, p, n, count) && want <= count * n
    requires count <= 12 + n / 4 + n / 4 * (n / 4)
    ensures |Taken(d, Data(sh), want)| == want && HasBytes(d, p, n, Taken(d, Data(sh), want))
  {
    hide Laid, Concat, Sized, FileBlock, Flat, Data;
    DataInside(d, p, sh);
    FlatLength(d, Data(sh), n);
    if count > 0 {
      DenseAt(d, p, sh, n, count, count - 1);
      MulMono(count, |Data(sh)|, n);
    }
    var out := Taken(d, Data(sh), want);
    PointersFit(d, p, sh);
    forall y | 0 <= y < |out|
      ensures HasByte(d, FileBlock(d, p, n, y / n), y % n, out[y])
    {
      BelowTotal(y, count, |Data(sh)|, n);
      FlatAt(d, Data(sh), n, y);
      BlockBelow(y, count, n);
      DenseAt(d, p, sh, n, count, y / n);
      OfSize(d, n, FileBlock(d, p, n, y / n));
    }
  }

  lemma BlockBelow(y: nat, count: nat, n: nat)
    requires n > 0 && y < count * n
    ensures y / n < count
  {
    DivBelow(y, count, n);
  }

  lemma BelowTotal(y: nat, count: nat, blocks: nat, n: nat)
    requires y < count * n && count <= blocks
    ensures y < blocks * n
  {
    MulMono(count, blocks, n);
  }

  lemma OfSize(d: seq<Block>, n: nat, b: nat)
    requires Sized(d, n) && b < |d|
    ensures |d[b]| == n
  {
  }

  lemma PointersFit(d: seq<Block>, p: seq<nat>, sh: Shape)
    requires Laid(d, p, sh)
    ensures |p| == 15
  {
  }

  /** The file ends after `count` blocks. */
  ghost predicate EndsAt(d: seq<Block>, p: seq<nat>, n: nat, count: nat) {
    |p| == 15 && n >= 4 && forall x :: count <= x < 12 + n / 4 + n / 4 * (n / 4) ==> FileBlock(d, p, n, x) == 0
  }

  /** A shape without gaps stores its bytes at their places, and nothing lies beyond them. */
  lemma PackedPlace(d: seq<Block>, p: seq<nat>, sh: Shape, n: nat, want: nat)
    requires Laid(d, p, sh) && Sized(d, n) && Blocky(n) && Packed(sh, n / 4)
    requires |Data(sh)| <= 12 + n / 4 + n / 4 * (n / 4) && want <= |Data(sh)| * n
    ensures Dense(d, p, n, |Data(sh)|) && EndsAt(d, p, n, |Data(sh)|)
    ensures HasBytes(d, p, n, Taken(d, Data(sh), want))
  {
    hide Laid, Sized, FileBlock, Packed, Data, Taken;
    PointersFit(d, p, sh);
    forall x: nat | x < 12 + n / 4 + n / 4 * (n / 4)
      ensures FileBlock(d, p, n, x) != 0 <==> x < |Data(sh)|
    {
      PackedAt(d, p, sh, n, x);
    }
    TakenPlace(d, p, sh, n, |Data(sh)|, want);
  }

  /** What a whole read gives: every byte from its place, when the blocks that the size calls for are
      all there. */
  ghost predicate ReadsWhole(d: seq<Block>, p: seq<nat>, n: nat, size: nat, code: int, out: Block) {
    n > 0 && size <= (12 + n / 4 + n / 4 * (n / 4)) * n && Dense(d, p, n, (size + n - 1) / n) ==>
      code == 0 && |out| == size && HasBytes(d, p, n, out)
  }

  lemma WholeRead(d: seq<Block>, p: seq<nat>, sh: Shape, n: nat, size: nat)
    requires Laid(d, p, sh) && Sized(d, n) && Blocky(n)
    ensures var out := Taken(d, Data(sh), size); ReadsWhole(d, p, n, size, if |out| == size then 0 else -9, out)
  {
    hide Laid, Sized, FileBlock, Data, Taken, Dense, HasBytes;
    var most, count := 12 + n / 4 + n / 4 * (n / 4), (size + n - 1) / n;
    if size <= most * n && Dense(d, p, n, count) {
      Enough(size, n);
      DivBelow(size + n - 1, most, n);
      TakenPlace(d, p, sh, n, count, size);
    }
  }

  lemma Enough(size: nat, n: nat)
    requires n > 0
    ensures size <= (size + n - 1) / n * n
  {
    assert size + n - 1 == (size + n - 1) / n * n + (size + n - 1) % n;
  }

  lemma NothingPlaced(d: seq<Block>, p: seq<nat>, n: nat)
    requires Laid(d, p, NOTHING) && Sized(d, n) && Blocky(n)
    ensures HasBytes(d, p, n, []) && EndsAt(d, p, n, 0)
  {
    PackedPlace(d, p, NOTHING, n, 0);
  }
}
