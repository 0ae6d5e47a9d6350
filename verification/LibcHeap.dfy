/** The heap of userspace/libc/stdlib.c: a first-fit free list over a bump region, kept in
    address order and coalesced, with headers and data in one array of words. */
module LibcHeap {

  const TWO64: nat := 0x1_0000_0000_0000_0000
  type Word = w: int | 0 <= w < TWO64 witness 0

  const HEAP_BYTES: nat := 0x200_0000
  const HEADER: nat := 16       // sizeof(blk_t): size, then next
  const MIN_SPLIT: nat := 24    // a remainder this large becomes a block of its own

  /** `align8` in 64-bit arithmetic: sums over 2^64 wrap. */
  function Align8(n: nat): nat {
    (n + 7) % TWO64 / 8 * 8
  }

  function RoundUp8(n: nat): nat {
    (n + 7) / 8 * 8
  }

  // ----- The heap as a sequence of blocks

  datatype Block = Block(off: nat, size: nat, live: bool) {
    function End(): nat { off + HEADER + size }
  }

  /** The blocks, header included, lie end to end from `from` to `end`. */
  ghost predicate Tiles(bs: seq<Block>, from: nat, end: nat) {
    if bs == [] then from == end else
    bs[0].off == from && from % 8 == 0 && bs[0].size % 8 == 0 && Tiles(bs[1..], bs[0].End(), end)
  }

  ghost predicate NoTouchingFree(bs: seq<Block>) {
    forall i :: 0 <= i < |bs| - 1 ==> bs[i].live || bs[i + 1].live
  }

  /** The offsets of the free blocks, in address order: what the free list should contain. */
  ghost function FreeOffs(bs: seq<Block>): seq<nat> {
    if bs == [] then [] else (if bs[0].live then [] else [bs[0].off]) + FreeOffs(bs[1..])
  }

  lemma {:induction false} TilesJoin(a: seq<Block>, b: seq<Block>, from: nat, mid: nat, end: nat)
    requires Tiles(a, from, mid) && Tiles(b, mid, end)
    ensures Tiles(a + b, from, end)
  {
    if a == [] {
      assert a + b == b;
    } else {
      TilesJoin(a[1..], b, a[0].End(), mid, end);
      assert (a + b)[1..] == a[1..] + b;
    }
  }

  lemma {:induction false} TilesSplit(bs: seq<Block>, i: nat, from: nat, end: nat)
    requires Tiles(bs, from, end) && i < |bs|
    ensures Tiles(bs[..i], from, bs[i].off) && Tiles(bs[i + 1..], bs[i].End(), end)
    ensures bs[i].off % 8 == 0 && bs[i].size % 8 == 0 && from <= bs[i].off
    ensures bs == bs[..i] + [bs[i]] + bs[i + 1..]
  {
    if i > 0 {
      TilesSplit(bs[1..], i - 1, bs[0].End(), end);
      assert bs[1..][..i - 1] == bs[..i][1..];
      assert bs[1..][i..] == bs[i + 1..];
    }
  }

  /** Later blocks lie behind earlier ones, and all of them before the end. */
  lemma {:induction false} TilesOrdered(bs: seq<Block>, from: nat, end: nat)
    requires Tiles(bs, from, end)
    ensures from <= end
    ensures forall i :: 0 <= i < |bs| ==> from <= bs[i].off && bs[i].End() <= end
    ensures forall i :: 0 <= i < |bs| ==> bs[i].off % 8 == 0 && bs[i].size % 8 == 0
    ensures forall i, j :: 0 <= i < j < |bs| ==> bs[i].End() <= bs[j].off
  {
    if bs != [] {
      TilesOrdered(bs[1..], bs[0].End(), end);
      assert forall i :: 0 < i < |bs| ==> bs[i] == bs[1..][i - 1];
    }
  }

  lemma FreeOffsFirst(bs: seq<Block>)
    requires bs != []
    ensures FreeOffs(bs) == (if bs[0].live then [] else [bs[0].off]) + FreeOffs(bs[1..])
  {
  }

  lemma {:induction false} FreeOffsJoin(a: seq<Block>, b: seq<Block>)
    ensures FreeOffs(a + b) == FreeOffs(a) + FreeOffs(b)
  {
    if a == [] {
      assert a + b == b;
    } else {
      hide FreeOffs;
      FreeOffsJoin(a[1..], b);
      FreeOffsFirst(a);
      FreeOffsFirst(a + b);
      assert (a + b)[1..] == a[1..] + b;
      Regroup(if a[0].live then [] else [a[0].off], FreeOffs(a[1..]), FreeOffs(b));
    }
  }

  lemma Regroup(x: seq<nat>, y: seq<nat>, z: seq<nat>)
    ensures x + y + z == x + (y + z)
  {
  }

  lemma FreeOffsMiddle(a: seq<Block>, mid: seq<Block>, c: seq<Block>)
    ensures FreeOffs(a + mid + c) == FreeOffs(a) + FreeOffs(mid) + FreeOffs(c)
  {
    hide FreeOffs;
    FreeOffsJoin(a + mid, c);
    FreeOffsJoin(a, mid);
  }

  lemma TilesMiddle(a: seq<Block>, mid: seq<Block>, c: seq<Block>, from: nat, m1: nat, m2: nat, end: nat)
    requires Tiles(a, from, m1) && Tiles(mid, m1, m2) && Tiles(c, m2, end)
    ensures Tiles(a + mid + c, from, end)
  {
    TilesJoin(a, mid, from, m1, m2);
    TilesJoin(a + mid, c, from, m2, end);
  }

  // ----- What the operations do to the blocks

  ghost function SplitBlock(b: Block, n: nat): seq<Block>
    requires b.size >= n + MIN_SPLIT
  {
    [Block(b.off, n, true), Block(b.off + HEADER + n, b.size - n - HEADER, false)]
  }

  /** Handing out free block `i` for `n` bytes, splitting off a remainder that is worth it. */
  ghost function TakeBlock(bs: seq<Block>, i: nat, n: nat): seq<Block>
    requires i < |bs|
  {
    if bs[i].size >= n + MIN_SPLIT
    then bs[..i] + SplitBlock(bs[i], n) + bs[i + 1..]
    else bs[i := bs[i].(live := true)]
  }

  /** Blocks `i` and `i + 1` as one free block. */
  ghost function Merge(bs: seq<Block>, i: nat): seq<Block>
    requires i + 1 < |bs|
  {
    bs[..i] + [Block(bs[i].off, bs[i].size + HEADER + bs[i + 1].size, false)] + bs[i + 2..]
  }

  ghost function MergeNext(bs: seq<Block>, i: nat): seq<Block>
    requires i < |bs|
  {
    if i + 1 < |bs| && !bs[i + 1].live then Merge(bs, i) else bs
  }

  ghost function MergePrev(bs: seq<Block>, i: nat): seq<Block>
    requires i < |bs|
  {
    if i > 0 && !bs[i - 1].live then Merge(bs, i - 1) else bs
  }

  /** Giving block `i` back: it is joined with the free neighbours it touches. */
  ghost function ReleaseBlock(bs: seq<Block>, i: nat): seq<Block>
    requires i < |bs|
  {
    MergePrev(MergeNext(bs[i := bs[i].(live := false)], i), i)
  }

  lemma TakeBlockKeeps(bs: seq<Block>, end: nat, i: nat, n: nat)
    requires Tiles(bs, 0, end) && NoTouchingFree(bs) && i < |bs| && !bs[i].live && bs[i].size >= n && n % 8 == 0
    ensures Tiles(TakeBlock(bs, i, n), 0, end) && NoTouchingFree(TakeBlock(bs, i, n))
  {
    TilesSplit(bs, i, 0, end);
    var b := bs[i];
    if b.size >= n + MIN_SPLIT {
      SplitTiles(b, n);
      hide Tiles;
      TilesMiddle(bs[..i], SplitBlock(b, n), bs[i + 1..], 0, b.off, b.End(), end);
      assert NoTouchingFree(TakeBlock(bs, i, n));
    } else {
      assert Tiles([b.(live := true)], b.off, b.End());
      hide Tiles;
      TilesMiddle(bs[..i], [b.(live := true)], bs[i + 1..], 0, b.off, b.End(), end);
      assert bs[i := b.(live := true)] == bs[..i] + [b.(live := true)] + bs[i + 1..];
    }
  }

  lemma SplitTiles(b: Block, n: nat)
    requires b.off % 8 == 0 && b.size % 8 == 0 && n % 8 == 0 && b.size >= n + MIN_SPLIT
    ensures Tiles(SplitBlock(b, n), b.off, b.End())
  {
    var s := SplitBlock(b, n);
    assert s[1..] == [s[1]] && s[1..][1..] == [];
  }

  lemma TilesOne(b: Block)
    requires b.off % 8 == 0 && b.size % 8 == 0
    ensures Tiles([b], b.off, b.End())
  {
    assert [b][1..] == [];
  }

  lemma TilesNext(bs: seq<Block>, from: nat, end: nat)
    requires Tiles(bs, from, end) && bs != []
    ensures bs[0].off == from && bs[0].off % 8 == 0 && bs[0].size % 8 == 0 && Tiles(bs[1..], bs[0].End(), end)
  {
  }

  lemma MergeKeeps(bs: seq<Block>, end: nat, i: nat)
    requires Tiles(bs, 0, end) && i + 1 < |bs|
    ensures Tiles(Merge(bs, i), 0, end)
    ensures bs[i].End() == bs[i + 1].off
  {
    hide Tiles;
    TilesSplit(bs, i, 0, end);
    TilesNext(bs[i + 1..], bs[i].End(), end);
    assert bs[i + 1..][1..] == bs[i + 2..];
    var m := Block(bs[i].off, bs[i].size + HEADER + bs[i + 1].size, false);
    TilesOne(m);
    TilesMiddle(bs[..i], [m], bs[i + 2..], 0, bs[i].off, bs[i + 1].End(), end);
  }

  lemma MarkFreeKeeps(bs: seq<Block>, end: nat, i: nat)
    requires Tiles(bs, 0, end) && i < |bs|
    ensures Tiles(bs[i := bs[i].(live := false)], 0, end)
  {
    hide Tiles;
    TilesSplit(bs, i, 0, end);
    TilesOne(bs[i].(live := false));
    TilesMiddle(bs[..i], [bs[i].(live := false)], bs[i + 1..], 0, bs[i].off, bs[i].End(), end);
    assert bs[i := bs[i].(live := false)] == bs[..i] + [bs[i].(live := false)] + bs[i + 1..];
  }

  lemma ReleaseBlockKeeps(bs: seq<Block>, end: nat, i: nat)
    requires Tiles(bs, 0, end) && NoTouchingFree(bs) && i < |bs|
    ensures Tiles(ReleaseBlock(bs, i), 0, end) && NoTouchingFree(ReleaseBlock(bs, i))
  {
    hide Tiles, NoTouchingFree, Merge;
    MarkFreeKeeps(bs, end, i);
    var freed := bs[i := bs[i].(live := false)];
    if i + 1 < |freed| { MergeKeeps(freed, end, i); }
    var next := MergeNext(freed, i);
    MergeNextApart(bs, i);
    if i > 0 { MergeKeeps(next, end, i - 1); }
    MergePrevApart(next, i);
  }

  /** Free blocks may touch only behind block `i`'s predecessor. */
  ghost predicate ApartButBefore(bs: seq<Block>, i: nat) {
    i < |bs| && !bs[i].live && forall k :: 0 <= k < |bs| - 1 && k != i - 1 ==> bs[k].live || bs[k + 1].live
  }

  lemma MergeNextApart(bs: seq<Block>, i: nat)
    requires NoTouchingFree(bs) && i < |bs|
    ensures ApartButBefore(MergeNext(bs[i := bs[i].(live := false)], i), i)
  {
    var freed := bs[i := bs[i].(live := false)];
    var next := MergeNext(freed, i);
    forall k | 0 <= k < |next| - 1 && k != i - 1
      ensures next[k].live || next[k + 1].live
    {
      if next == freed || k < i {
        assert bs[k].live || bs[k + 1].live;
      } else {
        assert bs[k + 1].live || bs[k + 2].live;
      }
    }
  }

  lemma MergePrevApart(next: seq<Block>, i: nat)
    requires ApartButBefore(next, i)
    ensures NoTouchingFree(MergePrev(next, i))
  {
    var last := MergePrev(next, i);
    forall k | 0 <= k < |last| - 1
      ensures last[k].live || last[k + 1].live
    {
      if last == next || k < i - 1 {
        assert k != i - 1 ==> next[k].live || next[k + 1].live;
      } else {
        assert next[k + 1].live || next[k + 2].live;
      }
    }
  }

  /** Freeing a block that was taken from the free list puts the heap back as it was. */
  lemma ReleaseUndoesTake(bs: seq<Block>, end: nat, i: nat, n: nat)
    requires Tiles(bs, 0, end) && NoTouchingFree(bs) && i < |bs| && !bs[i].live && bs[i].size >= n
    ensures ReleaseBlock(TakeBlock(bs, i, n), i) == bs
  {
    var taken := TakeBlock(bs, i, n);
    var freed := taken[i := taken[i].(live := false)];
    if bs[i].size >= n + MIN_SPLIT {
      assert Merge(freed, i) == bs;
    } else {
      assert freed == bs;
    }
  }

  /** With every block freed there is at most one, and it covers the heap used so far. */
  lemma AllFreed(bs: seq<Block>, end: nat)
    requires Tiles(bs, 0, end) && NoTouchingFree(bs) && forall i :: 0 <= i < |bs| ==> !bs[i].live
    ensures if bs == [] then end == 0 else end >= HEADER && bs == [Block(0, end - HEADER, false)]
  {
    if |bs| >= 2 { TwoBlocks(bs); }
  }

  lemma TwoBlocks(bs: seq<Block>)
    requires NoTouchingFree(bs) && |bs| >= 2
    ensures bs[0].live || bs[1].live
  {
  }

  // ----- The blocks in memory

  type Words = seq<Word>

  function SizeWord(off: nat): nat { off / 8 }
  function NextWord(off: nat): nat { off / 8 + 1 }

  /** The size field of every block holds its size. */
  ghost predicate Headers(w: Words, bs: seq<Block>) {
    forall i :: 0 <= i < |bs| ==> NextWord(bs[i].off) < |w| && w[SizeWord(bs[i].off)] == bs[i].size
  }

  /** The next fields chain the blocks at `offs`, in that order, from pointer `first` to pointer `to`. */
  ghost predicate Chain(w: Words, base: nat, first: nat, offs: seq<nat>, to: nat)
    decreases offs
  {
    if offs == [] then first == to else
    first == base + offs[0] && NextWord(offs[0]) < |w| && Chain(w, base, w[NextWord(offs[0])], offs[1..], to)
  }

  /** The heap in memory: blocks that tile it, their headers, and the free list over the free ones. */
  ghost predicate Mem(w: Words, base: nat, first: nat, bs: seq<Block>, end: nat) {
    && 8 * |w| == HEAP_BYTES && end <= HEAP_BYTES && 0 < base
    && Tiles(bs, 0, end) && Headers(w, bs) && Chain(w, base, first, FreeOffs(bs), 0)
  }

  lemma FreeOffsOne(b: Block)
    ensures FreeOffs([b]) == if b.live then [] else [b.off]
    ensures FreeOffs([]) == []
  {
    assert [b][1..] == [];
  }

  lemma FreeOffsAt(bs: seq<Block>, i: nat)
    requires i < |bs|
    ensures FreeOffs(bs) == FreeOffs(bs[..i]) + (if bs[i].live then [] else [bs[i].off]) + FreeOffs(bs[i + 1..])
  {
    FreeOffsOne(bs[i]);
    hide FreeOffs;
    assert bs == bs[..i] + [bs[i]] + bs[i + 1..];
    FreeOffsMiddle(bs[..i], [bs[i]], bs[i + 1..]);
  }

  /** The block behind an entry of the free list. */
  lemma {:induction false} FreeIndex(bs: seq<Block>, k: nat) returns (i: nat)
    requires k < |FreeOffs(bs)|
    ensures i < |bs| && !bs[i].live && bs[i].off == FreeOffs(bs)[k]
    ensures FreeOffs(bs[..i]) == FreeOffs(bs)[..k] && FreeOffs(bs[i + 1..]) == FreeOffs(bs)[k + 1..]
  {
    var d := if bs[0].live then 0 else 1;
    if k < d {
      i := 0;
      assert bs[..0] == [];
    } else {
      var i' := FreeIndex(bs[1..], k - d);
      i := i' + 1;
      assert bs[..i] == [bs[0]] + bs[1..][..i'];
      FreeOffsJoin([bs[0]], bs[1..][..i']);
      assert bs[i + 1..] == bs[1..][i' + 1..];
    }
  }

  /** The entries of the free list lie among the blocks, in address order and headers apart. */
  lemma {:induction false} FreeOffsOrdered(bs: seq<Block>, from: nat, end: nat)
    requires Tiles(bs, from, end)
    ensures forall j :: 0 <= j < |FreeOffs(bs)| ==>
              FreeOffs(bs)[j] % 8 == 0 && from <= FreeOffs(bs)[j] && FreeOffs(bs)[j] + HEADER <= end
    ensures forall j, k :: 0 <= j < k < |FreeOffs(bs)| ==> FreeOffs(bs)[j] + HEADER <= FreeOffs(bs)[k]
  {
    if bs != [] {
      FreeOffsOrdered(bs[1..], bs[0].End(), end);
      TilesOrdered(bs, from, end);
    }
  }

  /** An operation on block `i` sees the list as the entries before the block, perhaps the block,
      and the entries behind it. */
  ghost function Before(bs: seq<Block>, i: nat): seq<nat>
    requires i < |bs|
  {
    FreeOffs(bs[..i])
  }

  ghost function Behind(bs: seq<Block>, i: nat): seq<nat>
    requires i < |bs|
  {
    FreeOffs(bs[i + 1..])
  }

  lemma WordsApart(o: nat, p: nat)
    requires o % 8 == 0 && p % 8 == 0 && o + HEADER <= p
    ensures SizeWord(o) < NextWord(o) < SizeWord(p) < NextWord(p)
  {
  }

  /** The fields of other blocks lie outside block `i`. */
  lemma BlocksApart(bs: seq<Block>, end: nat, i: nat)
    requires Tiles(bs, 0, end) && i < |bs|
    ensures bs[i].off % 8 == 0 && bs[i].size % 8 == 0 && bs[i].End() <= end
    ensures forall j :: 0 <= j < i ==> NextWord(bs[j].off) < SizeWord(bs[i].off)
    ensures forall j :: i < j < |bs| ==> SizeWord(bs[i].End()) <= SizeWord(bs[j].off)
  {
    TilesOrdered(bs, 0, end);
    forall j | 0 <= j < i
      ensures NextWord(bs[j].off) < SizeWord(bs[i].off)
    {
      WordsApart(bs[j].off, bs[i].off);
    }
  }

  /** So do the list entries before and behind it. */
  lemma EntriesApart(bs: seq<Block>, end: nat, i: nat)
    requires Tiles(bs, 0, end) && i < |bs|
    ensures FreeOffs(bs) == Before(bs, i) + (if bs[i].live then [] else [bs[i].off]) + Behind(bs, i)
    ensures forall j :: 0 <= j < |Before(bs, i)| ==> NextWord(Before(bs, i)[j]) < SizeWord(bs[i].off)
    ensures forall j :: 0 <= j < |Behind(bs, i)| ==> SizeWord(bs[i].End()) < NextWord(Behind(bs, i)[j])
    ensures forall j, k :: 0 <= j < k < |Before(bs, i)| ==> NextWord(Before(bs, i)[j]) < NextWord(Before(bs, i)[k])
  {
    FreeOffsAt(bs, i);
    TilesSplit(bs, i, 0, end);
    FreeOffsOrdered(bs[..i], 0, bs[i].off);
    FreeOffsOrdered(bs[i + 1..], bs[i].End(), end);
    hide FreeOffs, Tiles;
    forall j | 0 <= j < |Before(bs, i)|
      ensures NextWord(Before(bs, i)[j]) < SizeWord(bs[i].off)
    {
      WordsApart(Before(bs, i)[j], bs[i].off);
    }
    forall j, k | 0 <= j < k < |Before(bs, i)|
      ensures NextWord(Before(bs, i)[j]) < NextWord(Before(bs, i)[k])
    {
      WordsApart(Before(bs, i)[j], Before(bs, i)[k]);
    }
  }

  // ----- How the stores of an operation change the list and the headers

  lemma {:induction false} ChainJoin(w: Words, base: nat, first: nat, fa: seq<nat>, mid: nat, fc: seq<nat>, to: nat)
    requires Chain(w, base, first, fa, mid) && Chain(w, base, mid, fc, to)
    ensures Chain(w, base, first, fa + fc, to)
    decreases fa
  {
    if fa == [] {
      assert fa + fc == fc;
    } else {
      ChainJoin(w, base, w[NextWord(fa[0])], fa[1..], mid, fc, to);
      assert (fa + fc)[1..] == fa[1..] + fc;
    }
  }

  lemma {:induction false} ChainSplit(w: Words, base: nat, first: nat, fa: seq<nat>, fc: seq<nat>, to: nat) returns (mid: nat)
    requires Chain(w, base, first, fa + fc, to)
    ensures Chain(w, base, first, fa, mid) && Chain(w, base, mid, fc, to)
    ensures fa != [] ==> NextWord(fa[|fa| - 1]) < |w| && w[NextWord(fa[|fa| - 1])] == mid
    decreases fa
  {
    if fa == [] {
      assert fa + fc == fc;
      mid := first;
    } else {
      assert (fa + fc)[1..] == fa[1..] + fc;
      mid := ChainSplit(w, base, w[NextWord(fa[0])], fa[1..], fc, to);
    }
  }

  /** A chain does not notice stores elsewhere. */
  lemma {:induction false} ChainFrame(w: Words, w': Words, base: nat, first: nat, offs: seq<nat>, to: nat)
    requires Chain(w, base, first, offs, to) && |w'| == |w|
    requires forall j :: 0 <= j < |offs| ==> NextWord(offs[j]) < |w| && w'[NextWord(offs[j])] == w[NextWord(offs[j])]
    ensures Chain(w', base, first, offs, to)
    decreases offs
  {
    if offs != [] {
      forall j | 0 <= j < |offs[1..]|
        ensures NextWord(offs[1..][j]) < |w| && w'[NextWord(offs[1..][j])] == w[NextWord(offs[1..][j])]
      {
        assert offs[1..][j] == offs[j + 1];
      }
      ChainFrame(w, w', base, w[NextWord(offs[0])], offs[1..], to);
    }
  }

  lemma {:induction false} ChainInBounds(w: Words, base: nat, first: nat, offs: seq<nat>, to: nat)
    requires Chain(w, base, first, offs, to)
    ensures forall j :: 0 <= j < |offs| ==> NextWord(offs[j]) < |w|
    decreases offs
  {
    if offs != [] {
      ChainInBounds(w, base, w[NextWord(offs[0])], offs[1..], to);
      assert forall j :: 0 < j < |offs| ==> offs[j] == offs[1..][j - 1];
    }
  }

  /** A store to the last next field sends the chain elsewhere. */
  lemma ChainRetarget(w: Words, w': Words, base: nat, first: nat, first': nat, fa: seq<nat>, mid: nat, link: nat)
    requires Chain(w, base, first, fa, mid) && |w'| == |w|
    requires forall j :: 0 <= j < |fa| - 1 ==> NextWord(fa[j]) < |w| && w'[NextWord(fa[j])] == w[NextWord(fa[j])]
    requires if fa == [] then first' == link
             else first' == first && NextWord(fa[|fa| - 1]) < |w| && w'[NextWord(fa[|fa| - 1])] == link
    ensures Chain(w', base, first', fa, link)
  {
    if fa != [] {
      var front, last := fa[..|fa| - 1], fa[|fa| - 1];
      assert fa == front + [last];
      var m := ChainSplit(w, base, first, front, [last], mid);
      ChainFrame(w, w', base, first, front, m);
      assert [last][1..] == [];
      assert Chain(w', base, m, [last], link);
      ChainJoin(w', base, first, front, m, [last], link);
    }
  }

  /** A step of an operation on block `i`: it writes inside the block, and it stores `link` where
      the list entry before the block, or the list head, points. */
  ghost predicate StepOn(w: Words, w': Words, first: nat, first': nat, bs: seq<Block>, i: nat, link: nat)
    requires i < |bs|
  {
    var fa := Before(bs, i);
    && |w'| == |w|
    && (if fa == [] then first' == link
        else first' == first && NextWord(fa[|fa| - 1]) < |w| && w'[NextWord(fa[|fa| - 1])] == link)
    && forall x :: 0 <= x < |w| && !(SizeWord(bs[i].off) <= x < SizeWord(bs[i].End())) ==>
         w'[x] == w[x] || (fa != [] && x == NextWord(fa[|fa| - 1]))
  }

  /** The headers of the other blocks survive such a step. */
  lemma OtherHeaders(w: Words, w': Words, first: nat, first': nat, bs: seq<Block>, end: nat, i: nat, link: nat)
    requires Tiles(bs, 0, end) && Headers(w, bs) && i < |bs| && StepOn(w, w', first, first', bs, i, link)
    ensures |w'| == |w|
    ensures forall j :: 0 <= j < |bs| && j != i ==> w'[SizeWord(bs[j].off)] == bs[j].size
  {
    BlocksApart(bs, end, i);
    var fa := Before(bs, i);
    forall j | 0 <= j < |bs| && j != i
      ensures w'[SizeWord(bs[j].off)] == bs[j].size
    {
      if fa != [] {
        var m := FreeIndex(bs[..i], |fa| - 1);
        TilesOrdered(bs, 0, end);
        if m < j { WordsApart(bs[m].off, bs[j].off); } else if j < m { WordsApart(bs[j].off, bs[m].off); }
      }
    }
  }

  /** The list falls into the part before the block, the block itself and the part behind it. */
  lemma SplitAround(w: Words, base: nat, first: nat, bs: seq<Block>, end: nat, i: nat) returns (m: nat, behind: nat)
    requires Tiles(bs, 0, end) && Chain(w, base, first, FreeOffs(bs), 0) && i < |bs|
    ensures Chain(w, base, first, Before(bs, i), m) && Chain(w, base, behind, Behind(bs, i), 0)
    ensures !bs[i].live ==> NextWord(bs[i].off) < |w| && w[NextWord(bs[i].off)] == behind
  {
    EntriesApart(bs, end, i);
    var fa, fc := Before(bs, i), Behind(bs, i);
    var own := if bs[i].live then [] else [bs[i].off];
    hide FreeOffs, Tiles, Before, Behind, NextWord, SizeWord;
    behind := ChainSplit(w, base, first, fa + own, fc, 0);
    m := ChainSplit(w, base, first, fa, own, behind);
    assert own != [] ==> own[1..] == [];
  }

  /** The list before the block now ends in `link`, the list behind it starts where it did. */
  lemma OtherLinks(w: Words, w': Words, base: nat, first: nat, first': nat, bs: seq<Block>, end: nat, i: nat, link: nat)
    returns (behind: nat)
    requires Tiles(bs, 0, end) && Chain(w, base, first, FreeOffs(bs), 0) && i < |bs|
    requires StepOn(w, w', first, first', bs, i, link)
    ensures Chain(w', base, first', Before(bs, i), link)
    ensures Chain(w', base, behind, Behind(bs, i), 0)
    ensures Chain(w, base, behind, Behind(bs, i), 0)
    ensures !bs[i].live ==> NextWord(bs[i].off) < |w| && w[NextWord(bs[i].off)] == behind
  {
    hide FreeOffs, Tiles, Before, Behind, NextWord, SizeWord, Chain;
    var m;
    m, behind := SplitAround(w, base, first, bs, end, i);
    var fa, fc := Before(bs, i), Behind(bs, i);
    EntriesApart(bs, end, i);
    BlockWords(bs[i]);
    ChainInBounds(w, base, first, fa, m);
    ChainInBounds(w, base, behind, fc, 0);
    ChainFrame(w, w', base, behind, fc, 0);
    ChainRetarget(w, w', base, first, first', fa, m, link);
  }

  lemma BlockWords(b: Block)
    ensures SizeWord(b.off) < NextWord(b.off) < SizeWord(b.End())
  {
  }

  /** An entry between two chains makes one chain. */
  lemma ChainThrough(w: Words, base: nat, first: nat, fa: seq<nat>, s: nat, fc: seq<nat>, behind: nat)
    requires Chain(w, base, first, fa, base + s) && NextWord(s) < |w| && w[NextWord(s)] == behind
    requires Chain(w, base, behind, fc, 0)
    ensures Chain(w, base, first, fa + [s] + fc, 0)
  {
    assert [s][1..] == [];
    assert Chain(w, base, base + s, [s], behind);
    hide Chain;
    ChainJoin(w, base, first, fa, base + s, [s], behind);
    ChainJoin(w, base, first, fa + [s], behind, fc, 0);
  }

  lemma TakeSplitMem(w: Words, w': Words, base: nat, first: nat, first': nat, bs: seq<Block>, end: nat, i: nat, n: nat)
    requires Mem(w, base, first, bs, end) && NoTouchingFree(bs) && i < |bs| && !bs[i].live
    requires n % 8 == 0 && bs[i].size >= n + MIN_SPLIT
    requires StepOn(w, w', first, first', bs, i, base + bs[i].off + HEADER + n)
    requires NextWord(bs[i].off + HEADER + n) < |w| && NextWord(bs[i].off) < |w|
    requires w'[SizeWord(bs[i].off)] == n
    requires w'[SizeWord(bs[i].off + HEADER + n)] == bs[i].size - n - HEADER
    requires w'[NextWord(bs[i].off + HEADER + n)] == w[NextWord(bs[i].off)]
    ensures Mem(w', base, first', TakeBlock(bs, i, n), end) && NoTouchingFree(TakeBlock(bs, i, n))
  {
    hide Tiles, StepOn, Chain, FreeOffs, SizeWord, NextWord;
    var s := bs[i].off + HEADER + n;
    TakeBlockKeeps(bs, end, i, n);
    OtherHeaders(w, w', first, first', bs, end, i, base + s);
    TakeSplitHeaders(w, w', bs, i, n);
    var behind := OtherLinks(w, w', base, first, first', bs, end, i, base + s);
    TakeSplitOffs(bs, i, n);
    ChainThrough(w', base, first', Before(bs, i), s, Behind(bs, i), behind);
  }

  lemma TakeSplitHeaders(w: Words, w': Words, bs: seq<Block>, i: nat, n: nat)
    requires Headers(w, bs) && i < |bs| && bs[i].size >= n + MIN_SPLIT && |w'| == |w|
    requires forall j :: 0 <= j < |bs| && j != i ==> w'[SizeWord(bs[j].off)] == bs[j].size
    requires NextWord(bs[i].off + HEADER + n) < |w|
    requires w'[SizeWord(bs[i].off)] == n
    requires w'[SizeWord(bs[i].off + HEADER + n)] == bs[i].size - n - HEADER
    ensures Headers(w', TakeBlock(bs, i, n))
  {
    hide SizeWord, NextWord;
    var t := TakeBlock(bs, i, n);
    forall j | 0 <= j < |t|
      ensures NextWord(t[j].off) < |w'| && SizeWord(t[j].off) < |w'| && w'[SizeWord(t[j].off)] == t[j].size
    {
      BlockWords(t[j]);
      assert j < i ==> t[j] == bs[j];
      assert j > i + 1 ==> t[j] == bs[j - 1];
    }
  }

  lemma TakeSplitOffs(bs: seq<Block>, i: nat, n: nat)
    requires i < |bs| && !bs[i].live && bs[i].size >= n + MIN_SPLIT
    ensures FreeOffs(TakeBlock(bs, i, n)) == Before(bs, i) + [bs[i].off + HEADER + n] + Behind(bs, i)
  {
    hide FreeOffs;
    var sp := SplitBlock(bs[i], n);
    FreeOffsOne(sp[0]);
    FreeOffsOne(sp[1]);
    assert sp == [sp[0]] + [sp[1]];
    FreeOffsJoin([sp[0]], [sp[1]]);
    assert FreeOffs(sp) == [sp[1].off];
    FreeOffsMiddle(bs[..i], sp, bs[i + 1..]);
  }

  lemma TakeWholeMem(w: Words, w': Words, base: nat, first: nat, first': nat, bs: seq<Block>, end: nat, i: nat, n: nat)
    requires Mem(w, base, first, bs, end) && NoTouchingFree(bs) && i < |bs| && !bs[i].live
    requires n % 8 == 0 && n <= bs[i].size < n + MIN_SPLIT && NextWord(bs[i].off) < |w|
    requires StepOn(w, w', first, first', bs, i, w[NextWord(bs[i].off)])
    requires w'[SizeWord(bs[i].off)] == bs[i].size
    ensures Mem(w', base, first', TakeBlock(bs, i, n), end) && NoTouchingFree(TakeBlock(bs, i, n))
  {
    hide Tiles, StepOn, Chain, FreeOffs;
    TakeBlockKeeps(bs, end, i, n);
    OtherHeaders(w, w', first, first', bs, end, i, w[NextWord(bs[i].off)]);
    var behind := OtherLinks(w, w', base, first, first', bs, end, i, w[NextWord(bs[i].off)]);
    SetLiveOffs(bs, i, true);
    ChainJoin(w', base, first', Before(bs, i), behind, Behind(bs, i), 0);
  }

  lemma SetLiveOffs(bs: seq<Block>, i: nat, live: bool)
    requires i < |bs|
    ensures FreeOffs(bs[i := bs[i].(live := live)]) ==
            if live then Before(bs, i) + Behind(bs, i) else Before(bs, i) + [bs[i].off] + Behind(bs, i)
  {
    hide FreeOffs;
    FreeOffsOne(bs[i].(live := live));
    FreeOffsMiddle(bs[..i], [bs[i].(live := live)], bs[i + 1..]);
    assert bs[i := bs[i].(live := live)] == bs[..i] + [bs[i].(live := live)] + bs[i + 1..];
    assert Before(bs, i) + [] + Behind(bs, i) == Before(bs, i) + Behind(bs, i);
  }

  /** Where a list starts is determined by its entries. */
  lemma ChainFrom(w: Words, base: nat, first: nat, first': nat, offs: seq<nat>)
    requires Chain(w, base, first, offs, 0) && Chain(w, base, first', offs, 0)
    ensures first == first'
  {
  }

  /** The first stores of free: the block is put into the list. */
  lemma InsertMem(w: Words, w': Words, base: nat, first: nat, first': nat, bs: seq<Block>, end: nat, i: nat)
    requires Mem(w, base, first, bs, end) && i < |bs| && bs[i].live && NextWord(bs[i].off) < |w|
    requires StepOn(w, w', first, first', bs, i, base + bs[i].off)
    requires w'[SizeWord(bs[i].off)] == bs[i].size
    requires Chain(w, base, w'[NextWord(bs[i].off)], Behind(bs, i), 0)
    ensures Mem(w', base, first', bs[i := bs[i].(live := false)], end)
  {
    hide Tiles, StepOn, FreeOffs, Before, Behind;
    MarkFreeKeeps(bs, end, i);
    var behind := OtherLinks(w, w', base, first, first', bs, end, i, base + bs[i].off);
    OtherHeaders(w, w', first, first', bs, end, i, base + bs[i].off);
    ChainFrom(w, base, behind, w'[NextWord(bs[i].off)], Behind(bs, i));
    hide Chain;
    SetLiveOffs(bs, i, false);
    ChainThrough(w', base, first', Before(bs, i), bs[i].off, Behind(bs, i), behind);
  }

  /** A merge: the first block swallows its successor and the successor's place in the list. */
  lemma MergeMem(w: Words, w': Words, base: nat, first: nat, bs: seq<Block>, end: nat, i: nat)
    requires Mem(w, base, first, bs, end) && i + 1 < |bs| && !bs[i].live && !bs[i + 1].live
    requires NextWord(bs[i + 1].off) < |w| && NextWord(bs[i].off) < |w|
    requires |w'| == |w|
    requires forall x :: 0 <= x < |w| && x != SizeWord(bs[i].off) && x != NextWord(bs[i].off) ==> w'[x] == w[x]
    requires w'[SizeWord(bs[i].off)] == bs[i].size + HEADER + bs[i + 1].size
    requires w'[NextWord(bs[i].off)] == w[NextWord(bs[i + 1].off)]
    ensures Mem(w', base, first, Merge(bs, i), end)
  {
    MergeKeeps(bs, end, i);
    MergeHeaders(w, w', bs, end, i);
    hide Tiles, FreeOffs;
    EntriesApart(bs, end, i);
    MergeOffs(bs, i);
    var fa, fc := Before(bs, i), Behind(bs, i + 1);
    hide Before, Behind, SizeWord, NextWord;
    BlockWords(bs[i]);
    assert forall j :: 0 <= j < |fc| ==> ([bs[i + 1].off] + fc)[j + 1] == fc[j];
    MergeChain(w, w', base, first, fa, bs[i].off, bs[i + 1].off, fc);
  }

  lemma MergeChain(w: Words, w': Words, base: nat, first: nat, fa: seq<nat>, x: nat, y: nat, fc: seq<nat>)
    requires Chain(w, base, first, fa + ([x, y] + fc), 0) && |w'| == |w|
    requires forall j :: 0 <= j < |fa| && NextWord(fa[j]) < |w| ==> w'[NextWord(fa[j])] == w[NextWord(fa[j])]
    requires forall j :: 0 <= j < |fc| && NextWord(fc[j]) < |w| ==> w'[NextWord(fc[j])] == w[NextWord(fc[j])]
    requires NextWord(x) < |w| && NextWord(y) < |w| && w'[NextWord(x)] == w[NextWord(y)]
    ensures Chain(w', base, first, fa + [x] + fc, 0)
  {
    hide NextWord;
    var m := ChainSplit(w, base, first, fa, [x, y] + fc, 0);
    ChainTwo(w, base, m, x, y, fc);
    ChainInBounds(w, base, first, fa, m);
    ChainInBounds(w, base, w[NextWord(y)], fc, 0);
    hide Chain;
    ChainFrame(w, w', base, first, fa, m);
    ChainFrame(w, w', base, w[NextWord(y)], fc, 0);
    ChainThrough(w', base, first, fa, x, fc, w[NextWord(y)]);
  }

  lemma MergeHeaders(w: Words, w': Words, bs: seq<Block>, end: nat, i: nat)
    requires Tiles(bs, 0, end) && Headers(w, bs) && i + 1 < |bs|
    requires NextWord(bs[i].off) < |w| && |w'| == |w|
    requires forall x :: 0 <= x < |w| && x != SizeWord(bs[i].off) && x != NextWord(bs[i].off) ==> w'[x] == w[x]
    requires w'[SizeWord(bs[i].off)] == bs[i].size + HEADER + bs[i + 1].size
    ensures Headers(w', Merge(bs, i))
  {
    BlocksApart(bs, end, i);
    BlockWords(bs[i]);
    hide Tiles, SizeWord, NextWord;
    var t := Merge(bs, i);
    assert forall j :: 0 <= j < i ==> SizeWord(bs[j].off) < NextWord(bs[j].off) by { forall j | 0 <= j < i { BlockWords(bs[j]); } }
    forall j | 0 <= j < |t|
      ensures NextWord(t[j].off) < |w'| && w'[SizeWord(t[j].off)] == t[j].size
    {
      assert j < i ==> t[j] == bs[j];
      assert j > i ==> t[j] == bs[j + 1];
    }
  }

  lemma ChainTwo(w: Words, base: nat, first: nat, x: nat, y: nat, fc: seq<nat>)
    requires Chain(w, base, first, [x, y] + fc, 0)
    ensures first == base + x && NextWord(y) < |w| && Chain(w, base, w[NextWord(y)], fc, 0)
  {
    assert ([x, y] + fc)[1..] == [y] + fc;
    assert ([y] + fc)[1..] == fc;
  }

  lemma MergeOffs(bs: seq<Block>, i: nat)
    requires i + 1 < |bs| && !bs[i].live && !bs[i + 1].live
    ensures FreeOffs(bs) == Before(bs, i) + ([bs[i].off, bs[i + 1].off] + Behind(bs, i + 1))
    ensures Behind(bs, i) == [bs[i + 1].off] + Behind(bs, i + 1)
    ensures FreeOffs(Merge(bs, i)) == Before(bs, i) + [bs[i].off] + Behind(bs, i + 1)
  {
    var m := Block(bs[i].off, bs[i].size + HEADER + bs[i + 1].size, false);
    FreeOffsOne(m);
    FreeOffsOne(bs[i + 1]);
    hide FreeOffs;
    FreeOffsAt(bs, i);
    assert bs[i + 1..] == [bs[i + 1]] + bs[i + 2..];
    FreeOffsJoin([bs[i + 1]], bs[i + 2..]);
    FreeOffsMiddle(bs[..i], [m], bs[i + 2..]);
    PairUp(Before(bs, i), bs[i].off, bs[i + 1].off, Behind(bs, i + 1));
  }

  lemma PairUp(a: seq<nat>, x: nat, y: nat, c: seq<nat>)
    ensures a + [x] + ([y] + c) == a + ([x, y] + c)
  {
  }

  /** A step on block `i` leaves the data of every other live block alone. */
  lemma DataKept(w: Words, w': Words, first: nat, first': nat, bs: seq<Block>, end: nat, i: nat, link: nat, j: nat)
    requires Tiles(bs, 0, end) && i < |bs| && j < |bs| && j != i && bs[j].live
    requires StepOn(w, w', first, first', bs, i, link)
    ensures Data(w', bs[j]) == Data(w, bs[j])
  {
    BlocksApart(bs, end, i);
    TilesOrdered(bs, 0, end);
    var fa := Before(bs, i);
    if fa != [] {
      var m := FreeIndex(bs[..i], |fa| - 1);
      if m < j { WordsApart(bs[m].off, bs[j].off); }
    }
    var lo, hi := SizeWord(bs[j].off) + 2, SizeWord(bs[j].End());
    if lo <= hi <= |w| {
      assert forall x :: lo <= x < hi ==> w'[x] == w[x];
    }
  }

  // ----- First fit

  predicate Fits(b: Block, n: nat) {
    !b.live && b.size >= n
  }

  /** The first free block that can hold `n` bytes, |bs| when there is none. */
  ghost function FirstFit(bs: seq<Block>, n: nat): (i: nat)
    ensures i <= |bs| && (i < |bs| ==> Fits(bs[i], n))
    ensures forall j :: 0 <= j < i ==> !Fits(bs[j], n)
  {
    if bs == [] || Fits(bs[0], n) then 0 else
    var i := FirstFit(bs[1..], n);
    assert forall j :: 0 < j < |bs| ==> bs[j] == bs[1..][j - 1];
    i + 1
  }

  lemma OffInFree(bs: seq<Block>, j: nat)
    requires j < |bs| && !bs[j].live
    ensures exists r :: 0 <= r < |FreeOffs(bs)| && FreeOffs(bs)[r] == bs[j].off
  {
    FreeOffsAt(bs, j);
    assert FreeOffs(bs)[|FreeOffs(bs[..j])|] == bs[j].off;
  }

  /** Blocks whose list entries were all seen to be too small do not fit. */
  lemma SeenTooSmall(w: Words, bs: seq<Block>, n: nat, j: nat)
    requires Headers(w, bs) && j < |bs|
    requires forall r :: 0 <= r < |FreeOffs(bs)| ==> SizeWord(FreeOffs(bs)[r]) < |w| && w[SizeWord(FreeOffs(bs)[r])] < n
    ensures !Fits(bs[j], n)
  {
    if !bs[j].live { OffInFree(bs, j); }
  }

  /** The walk stops at the first block that fits. */
  lemma WalkFindsFirstFit(w: Words, bs: seq<Block>, n: nat, i: nat)
    requires Headers(w, bs) && i <= |bs| && (i < |bs| ==> Fits(bs[i], n))
    requires forall r :: 0 <= r < |FreeOffs(bs[..i])| ==>
               SizeWord(FreeOffs(bs[..i])[r]) < |w| && w[SizeWord(FreeOffs(bs[..i])[r])] < n
    ensures FirstFit(bs, n) == i
  {
    forall j | 0 <= j < i
      ensures !Fits(bs[j], n)
    {
      SeenTooSmall(w, bs[..i], n, j);
    }
  }

  lemma WalkStart(w: Words, base: nat, first: nat, bs: seq<Block>, end: nat)
    requires Mem(w, base, first, bs, end)
    ensures Headers(w, bs) && 0 < base
    ensures Chain(w, base, first, FreeOffs(bs)[..0], first) && Chain(w, base, first, FreeOffs(bs)[0..], 0)
  {
    assert FreeOffs(bs)[0..] == FreeOffs(bs);
  }

  lemma WalkFound(w: Words, base: nat, bs: seq<Block>, n: nat, k: nat) returns (i: nat)
    requires Headers(w, bs) && k < |FreeOffs(bs)| && SizeWord(FreeOffs(bs)[k]) < |w| && w[SizeWord(FreeOffs(bs)[k])] >= n
    requires forall r :: 0 <= r < k ==> SizeWord(FreeOffs(bs)[r]) < |w| && w[SizeWord(FreeOffs(bs)[r])] < n
    ensures i == FirstFit(bs, n) && i < |bs| && bs[i].off == FreeOffs(bs)[k]
    ensures PrevPtr(base, bs, i) == if k == 0 then 0 else base + FreeOffs(bs)[k - 1]
  {
    i := FreeIndex(bs, k);
    WalkFindsFirstFit(w, bs, n, i);
  }

  /** The next pointer the walk follows. */
  lemma ChainNext(w: Words, base: nat, first: nat, fl: seq<nat>, k: nat, cur: nat)
    requires 0 < base && k <= |fl| && Chain(w, base, first, fl[..k], cur) && Chain(w, base, cur, fl[k..], 0)
    ensures cur == 0 <==> k == |fl|
    ensures cur != 0 ==> cur == base + fl[k] && NextWord(fl[k]) < |w|
    ensures cur != 0 ==> Chain(w, base, first, fl[..k + 1], w[NextWord(fl[k])]) && Chain(w, base, w[NextWord(fl[k])], fl[k + 1..], 0)
  {
    if k < |fl| {
      assert fl[k..][1..] == fl[k + 1..];
      assert [fl[k]][1..] == [];
      assert Chain(w, base, cur, [fl[k]], w[NextWord(fl[k])]);
      ChainJoin(w, base, first, fl[..k], cur, [fl[k]], w[NextWord(fl[k])]);
      assert fl[..k] + [fl[k]] == fl[..k + 1];
    }
  }

  // ----- The heap

  /** The words of a block's data. */
  function Data(w: Words, b: Block): Words {
    if SizeWord(b.off) + 2 <= SizeWord(b.End()) <= |w| then w[SizeWord(b.off) + 2..SizeWord(b.End())] else []
  }

  /** Every live block of before, but for the one at `except`, is still there with its data. */
  ghost predicate Undisturbed(w: Words, bs: seq<Block>, w': Words, bs': seq<Block>, except: nat) {
    forall j :: 0 <= j < |bs| && bs[j].live && bs[j].off != except ==> bs[j] in bs' && Data(w', bs[j]) == Data(w, bs[j])
  }

  /** The request and its header, rounded up, can be added to the break without wrapping. */
  predicate NoWrap(size: nat, brk: nat) {
    brk + HEADER + RoundUp8(size) < TWO64
  }

  lemma TakeUndisturbed(w: Words, w': Words, base: nat, first: nat, first': nat, bs: seq<Block>, end: nat, i: nat, link: nat, n: nat)
    requires Mem(w, base, first, bs, end) && i < |bs| && !bs[i].live && StepOn(w, w', first, first', bs, i, link)
    ensures Undisturbed(w, bs, w', TakeBlock(bs, i, n), HEAP_BYTES)
  {
    hide StepOn, Tiles;
    var t := TakeBlock(bs, i, n);
    forall j | 0 <= j < |bs| && bs[j].live
      ensures bs[j] in t && Data(w', bs[j]) == Data(w, bs[j])
    {
      DataKept(w, w', first, first', bs, end, i, link, j);
      assert bs[j] == t[if j < i || |t| == |bs| then j else j + 1];
    }
  }

  // ----- The words an operation touches

  /** What `prev` is when the walk stands at block `i`: 0 for the list head. */
  ghost function PrevPtr(base: nat, bs: seq<Block>, i: nat): nat
    requires i < |bs|
  {
    if Before(bs, i) == [] then 0 else base + Before(bs, i)[|Before(bs, i)| - 1]
  }

  lemma BlockInMemory(w: Words, base: nat, first: nat, bs: seq<Block>, end: nat, i: nat)
    requires Mem(w, base, first, bs, end) && i < |bs|
    ensures bs[i].off % 8 == 0 && bs[i].size % 8 == 0 && bs[i].End() <= end <= HEAP_BYTES && 0 < base
    ensures SizeWord(bs[i].off) < NextWord(bs[i].off) < |w| && SizeWord(bs[i].End()) <= |w|
    ensures w[SizeWord(bs[i].off)] == bs[i].size
    ensures PrevPtr(base, bs, i) != 0 ==>
              base <= PrevPtr(base, bs, i) && NextWord(PrevPtr(base, bs, i) - base) < SizeWord(bs[i].off)
    ensures PrevPtr(base, bs, i) == 0 <==> Before(bs, i) == []
  {
    BlocksApart(bs, end, i);
    EntriesApart(bs, end, i);
  }

  lemma SplitInMemory(b: Block, n: nat)
    requires b.off % 8 == 0 && n % 8 == 0 && b.size >= n + MIN_SPLIT
    ensures SizeWord(b.off) < NextWord(b.off) < SizeWord(b.off + HEADER + n) < NextWord(b.off + HEADER + n) < SizeWord(b.End())
  {
  }

  /** The list is redirected and nothing else stored. */
  lemma LinkStore(w: Words, w': Words, base: nat, first: nat, first': nat, bs: seq<Block>, end: nat, i: nat, link: nat)
    requires Mem(w, base, first, bs, end) && i < |bs| && |w'| == |w|
    requires PrevPtr(base, bs, i) == 0 ==> first' == link && w' == w
    requires PrevPtr(base, bs, i) != 0 ==>
               && link < TWO64 && base <= PrevPtr(base, bs, i) && NextWord(PrevPtr(base, bs, i) - base) < |w|
               && first' == first && w' == w[NextWord(PrevPtr(base, bs, i) - base) := link]
    ensures StepOn(w, w', first, first', bs, i, link) && w'[SizeWord(bs[i].off)] == bs[i].size
  {
    hide Tiles, Before;
    BlockInMemory(w, base, first, bs, end, i);
  }

  lemma SplitStores(w: Words, w': Words, base: nat, first: nat, first': nat, bs: seq<Block>, end: nat, i: nat, n: Word)
    requires Mem(w, base, first, bs, end) && i < |bs| && n % 8 == 0 && bs[i].size >= n + MIN_SPLIT && base + HEAP_BYTES <= TWO64
    requires |w'| == |w| && NextWord(bs[i].off) < |w| && NextWord(bs[i].off + HEADER + n) < |w| && SizeWord(bs[i].off) < |w|
    requires SizeWord(bs[i].off + HEADER + n) < |w| && bs[i].off + HEADER + n < HEAP_BYTES && bs[i].size < TWO64
    requires
      var s := bs[i].off + HEADER + n;
      var w1 := w[SizeWord(s) := bs[i].size - n - HEADER][NextWord(s) := w[NextWord(bs[i].off)]];
      if PrevPtr(base, bs, i) == 0
      then first' == base + s && w' == w1[SizeWord(bs[i].off) := n]
      else base <= PrevPtr(base, bs, i) && NextWord(PrevPtr(base, bs, i) - base) < |w| && first' == first
           && w' == w1[NextWord(PrevPtr(base, bs, i) - base) := base + s][SizeWord(bs[i].off) := n]
    ensures StepOn(w, w', first, first', bs, i, base + bs[i].off + HEADER + n)
    ensures w'[SizeWord(bs[i].off)] == n
    ensures w'[SizeWord(bs[i].off + HEADER + n)] == bs[i].size - n - HEADER
    ensures w'[NextWord(bs[i].off + HEADER + n)] == w[NextWord(bs[i].off)]
  {
    hide Tiles, Before, SizeWord, NextWord;
    BlockInMemory(w, base, first, bs, end, i);
    SplitInMemory(bs[i], n);
  }

  class Heap {
    const words: array<Word>
    const base: nat
    var heapBreak: nat
    var freeHead: Word
    ghost var blocks: seq<Block>

    ghost predicate Valid()
      reads this, words
    {
      && 8 * words.Length == HEAP_BYTES && 0 < base && base % 8 == 0 && base + HEAP_BYTES <= TWO64
      && Mem(words[..], base, freeHead, blocks, heapBreak) && NoTouchingFree(blocks)
    }

    predicate InHeap(p: nat) {
      base <= p < base + HEAP_BYTES
    }

    constructor (words: array<Word>, base: nat)
      requires 8 * words.Length == HEAP_BYTES && 0 < base && base % 8 == 0 && base + HEAP_BYTES <= TWO64
      ensures Valid() && this.words == words && this.base == base && blocks == [] && heapBreak == 0
    {
      this.words := words;
      this.base := base;
      heapBreak, freeHead, blocks := 0, 0, [];
    }

    /** `*prev = v` */
    method StorePrev(prev: nat, v: Word)
      requires prev == 0 || (base <= prev && NextWord(prev - base) < words.Length)
      modifies this`freeHead, words
      ensures prev == 0 ==> freeHead == v && words[..] == old(words[..])
      ensures prev != 0 ==> freeHead == old(freeHead) && words[..] == old(words[..])[NextWord(prev - base) := v]
    {
      if prev == 0 { freeHead := v; } else { words[NextWord(prev - base)] := v; }
    }

    /** Takes block `i`, found at `cur` with its list predecessor at `prev`. */
    method TakeFrom(prev: nat, cur: nat, n: Word, ghost i: nat)
      requires Valid() && i < |blocks| && Fits(blocks[i], n) && n % 8 == 0 && cur == base + blocks[i].off
      requires prev == PrevPtr(base, blocks, i)
      modifies this`freeHead, this`blocks, words
      ensures Valid() && blocks == TakeBlock(old(blocks), i, n)
      ensures Undisturbed(old(words[..]), old(blocks), words[..], blocks, HEAP_BYTES)
    {
      hide Mem, Tiles, FreeOffs, NoTouchingFree, Before, Behind, TakeBlock, Undisturbed, SizeWord, NextWord, StepOn;
      ghost var w, bs, first, end := words[..], blocks, freeHead, heapBreak;
      BlockInMemory(w, base, first, bs, end, i);
      var off := cur - base;
      var remaining := words[SizeWord(off)] - n;
      if remaining >= MIN_SPLIT {
        SplitInMemory(bs[i], n);
        var split := off + HEADER + n;
        words[SizeWord(split)] := remaining - HEADER;
        words[NextWord(split)] := words[NextWord(off)];
        StorePrev(prev, base + split);
        words[SizeWord(off)] := n;
        blocks := TakeBlock(bs, i, n);
        SplitStores(w, words[..], base, first, freeHead, bs, end, i, n);
        TakeSplitMem(w, words[..], base, first, freeHead, bs, end, i, n);
        TakeUndisturbed(w, words[..], base, first, freeHead, bs, end, i, base + split, n);
      } else {
        StorePrev(prev, words[NextWord(off)]);
        blocks := TakeBlock(bs, i, n);
        LinkStore(w, words[..], base, first, freeHead, bs, end, i, w[NextWord(off)]);
        TakeWholeMem(w, words[..], base, first, freeHead, bs, end, i, n);
        TakeUndisturbed(w, words[..], base, first, freeHead, bs, end, i, w[NextWord(off)], n);
      }
    }

    /** The walk over the free list: to the first block that fits, or to the end. */
    method FindFit(n: Word) returns (prev: nat, cur: nat, ghost i: nat)
      requires Valid()
      ensures i == FirstFit(blocks, n)
      ensures cur == if i < |blocks| then base + blocks[i].off else 0
      ensures i < |blocks| ==> prev == PrevPtr(base, blocks, i)
    {
      hide Mem, FreeOffs, NoTouchingFree, Chain, FirstFit;
      ghost var w, fl, k: nat := words[..], FreeOffs(blocks), 0;
      WalkStart(w, base, freeHead, blocks, heapBreak);
      prev, cur := 0, freeHead;
      while cur != 0
        invariant k <= |fl| && Chain(w, base, freeHead, fl[..k], cur) && Chain(w, base, cur, fl[k..], 0)
        invariant prev == if k == 0 then 0 else base + fl[k - 1]
        invariant forall r :: 0 <= r < k ==> SizeWord(fl[r]) < |w| && w[SizeWord(fl[r])] < n
        decreases |fl| - k
      {
        ChainNext(w, base, freeHead, fl, k, cur);
        if words[SizeWord(cur - base)] >= n {
          i := WalkFound(w, base, blocks, n, k);
          return;
        }
        prev := cur;
        cur := words[NextWord(cur - base)];
        k := k + 1;
      }
      ChainNext(w, base, freeHead, fl, k, cur);
      i := |blocks|;
      assert blocks[..i] == blocks;
      WalkFindsFirstFit(w, blocks, n, i);
    }

    /** Hands out the first free block that is large enough, or moves the break; when neither
        works the system is asked, and `fallback` is its answer. All of this is 64-bit arithmetic:
        the request is served with a block that can hold it, in a heap that is well formed, if and
        only if the sums do not mislead it. */
    method Malloc(size: Word, fallback: nat) returns (p: nat, ghost asked: bool)
      requires Valid() && (fallback == 0 || !InHeap(fallback))
      modifies this, words
      ensures size == 0 || asked || (exists bs :: Serves(words[..], base, freeHead, bs, heapBreak, old(blocks), p, size)) <==>
        !Misled(size, old(heapBreak), old(freeHead) != 0)
      ensures !Breaks(size, old(heapBreak)) ==>
        && Valid() && blocks == Malloced(old(blocks), old(heapBreak), size)
        && heapBreak == BreakAfter(old(blocks), old(heapBreak), size)
        && asked == (size != 0 && !Served(old(blocks), old(heapBreak), size))
        && p == (if size == 0 then 0 else if asked then fallback else base + blocks[FirstFit(old(blocks), Align8(size))].off + HEADER)
        && Undisturbed(old(words[..]), old(blocks), words[..], blocks, HEAP_BYTES)
      ensures Breaks(size, old(heapBreak)) ==>
        && p == base + old(heapBreak) + HEADER && heapBreak == old(heapBreak) + HEADER + RoundUp8(size) - TWO64
        && blocks == old(blocks) && freeHead == old(freeHead) && (heapBreak == old(heapBreak) ==> Valid())
        && words[..] == if old(heapBreak) < HEAP_BYTES then old(words[..])[SizeWord(old(heapBreak)) := Align8(size)] else old(words[..])
    {
      hide Mem, NoTouchingFree, TakeBlock, FirstFit, Undisturbed, Align8, RoundUp8, Serves, NextWord;
      ghost var w, bs, first, brk := words[..], blocks, freeHead, heapBreak;
      asked := false;
      if size == 0 {
        UndisturbedSame(w, bs);
        return 0, asked;
      }
      var n := Align8(size);
      Requested(w, base, first, bs, brk, size);
      ghost var i;
      var prev, cur;
      prev, cur, i := FindFit(n);
      if cur != 0 {
        BlockInMemory(w, base, first, bs, brk, i);
        TakeFrom(prev, cur, n, i);
        TakenBlock(bs, i, n);
        p := cur + HEADER;
        ServesOrNot(w, base, first, bs, brk, words[..], freeHead, blocks, heapBreak, p, size);
        return;
      }
      UndisturbedSame(w, bs);
      var off := Align8(heapBreak);
      var need := (off + HEADER + n) % TWO64;
      if need <= HEAP_BYTES {
        p := base + off + HEADER;
        if off < HEAP_BYTES { words[SizeWord(off)] := n; }
        heapBreak := need;
        if Breaks(size, brk) {
          TooLarge(size, brk, first != 0);
          NoneServes(words[..], base, freeHead, heapBreak, bs, p, size);
          if need == brk { BeyondBreak(w, words[..], base, first, bs, brk, n); }
        } else {
          blocks := blocks + [Block(off, n, true)];
          AppendMem(w, words[..], base, first, bs, off, n);
          ServesOrNot(w, base, first, bs, brk, words[..], freeHead, blocks, heapBreak, p, size);
        }
        return;
      }
      NoneFree(w, base, first, bs, brk, n);
      p, asked := fallback, true;
    }

    /** A request that wraps to nothing leaves the break where it is: the next request is granted
        the same address, though the first block was never given back. */
    method AskTwice(fallback: nat) returns (p: nat, q: nat)
      requires Valid() && freeHead == 0 && heapBreak + HEADER + 8 <= HEAP_BYTES && (fallback == 0 || !InHeap(fallback))
      modifies this, words
      ensures p == q == base + old(heapBreak) + HEADER && InHeap(p)
    {
      hide Mem, NoTouchingFree, Undisturbed, Serves;
      ghost var w, bs, brk := words[..], blocks, heapBreak;
      EndAligned(w, base, freeHead, bs, brk);
      NoneFree(w, base, freeHead, bs, brk, 8);
      ghost var asked;
      p, asked := Malloc(TWO64 - 16, fallback);
      q, asked := Malloc(8, fallback);
    }

    /** The walk of free: past all list entries below block `i`. */
    method FindPlace(ghost i: nat, block: nat) returns (prev: nat, cur: Word)
      requires Valid() && i < |blocks| && blocks[i].live && block == base + blocks[i].off
      ensures prev == PrevPtr(base, blocks, i)
      ensures Chain(words[..], base, cur, Behind(blocks, i), 0)
    {
      hide Mem, FreeOffs, NoTouchingFree, Chain, Before, Behind, NextWord;
      ghost var w, fl, k: nat := words[..], FreeOffs(blocks), 0;
      WalkStart(w, base, freeHead, blocks, heapBreak);
      ListAround(w, base, freeHead, blocks, heapBreak, i);
      prev, cur := 0, freeHead;
      ChainNext(w, base, freeHead, fl, k, cur);
      while cur != 0 && cur < block
        invariant k <= |Before(blocks, i)|
        invariant Chain(w, base, freeHead, fl[..k], cur) && Chain(w, base, cur, fl[k..], 0)
        invariant prev == if k == 0 then 0 else base + fl[k - 1]
        invariant cur == 0 <==> k == |fl|
        invariant cur != 0 ==> cur == base + fl[k] && NextWord(fl[k]) < |w|
        decreases |fl| - k
      {
        ChainNext(w, base, freeHead, fl, k, cur);
        prev := cur;
        cur := words[NextWord(cur - base)];
        k := k + 1;
        ChainNext(w, base, freeHead, fl, k, cur);
      }
      PlaceFound(base, blocks, i, k, prev);
    }

    /** Puts block `i` on the list. */
    method Insert(ghost i: nat, block: nat)
      requires Valid() && i < |blocks| && blocks[i].live && block == base + blocks[i].off
      modifies this`freeHead, this`blocks, words
      ensures ValidButTouching() && blocks == old(blocks)[i := old(blocks)[i].(live := false)]
      ensures Undisturbed(old(words[..]), old(blocks), words[..], blocks, old(blocks)[i].off)
    {
      hide Mem, Tiles, FreeOffs, NoTouchingFree, Before, Behind, Undisturbed, SizeWord, NextWord, StepOn, Chain;
      ghost var w, bs, first, end := words[..], blocks, freeHead, heapBreak;
      BlockInMemory(w, base, first, bs, end, i);
      var prev, next := FindPlace(i, block);
      words[NextWord(block - base)] := next;
      StorePrev(prev, block);
      blocks := bs[i := bs[i].(live := false)];
      InsertStores(w, words[..], base, first, freeHead, bs, end, i, next);
      InsertMem(w, words[..], base, first, freeHead, bs, end, i);
      FreeUndisturbed(w, words[..], base, first, freeHead, bs, end, i);
    }

    /** All of `Valid`, but free blocks may touch. */
    ghost predicate ValidButTouching()
      reads this, words
    {
      && 8 * words.Length == HEAP_BYTES && 0 < base && base % 8 == 0 && base + HEAP_BYTES <= TWO64
      && Mem(words[..], base, freeHead, blocks, heapBreak)
    }

    /** Joins free block `i` with its successor on the list when the two touch. */
    method Coalesce(ghost i: nat, block: nat)
      requires ValidButTouching() && i < |blocks| && !blocks[i].live && block == base + blocks[i].off
      modifies this`blocks, words
      ensures ValidButTouching() && blocks == MergeNext(old(blocks), i)
      ensures Undisturbed(old(words[..]), old(blocks), words[..], blocks, HEAP_BYTES)
    {
      hide Mem, Tiles, FreeOffs, NoTouchingFree, Before, Behind, Undisturbed, SizeWord, NextWord, Chain;
      ghost var w, bs, end := words[..], blocks, heapBreak;
      BlockInMemory(w, base, freeHead, bs, end, i);
      var off := block - base;
      var next := words[NextWord(off)];
      NextTouches(w, base, freeHead, bs, end, i);
      if next != 0 && off + HEADER + words[SizeWord(off)] == next - base {
        BlockInMemory(w, base, freeHead, bs, end, i + 1);
        MergeWordsApart(bs, end, i, w, base, freeHead);
        words[SizeWord(off)] := words[SizeWord(off)] + HEADER + words[SizeWord(next - base)];
        words[NextWord(off)] := words[NextWord(next - base)];
        blocks := Merge(bs, i);
        MergeMem(w, words[..], base, freeHead, bs, end, i);
        MergeUndisturbed(w, words[..], base, freeHead, bs, end, i);
      } else {
        UndisturbedSame(w, bs);
      }
    }

    /** The second walk of free: to the list entry whose next is the block, 0 when there is none. */
    method FindPredecessor(ghost i: nat, block: nat) returns (p: nat)
      requires ValidButTouching() && i < |blocks| && !blocks[i].live && block == base + blocks[i].off
      ensures p == PrevPtr(base, blocks, i)
    {
      hide Mem, FreeOffs, Chain, Before, Behind, NextWord;
      ghost var w, fl, k: nat := words[..], FreeOffs(blocks), 0;
      WalkStart(w, base, freeHead, blocks, heapBreak);
      ListAround(w, base, freeHead, blocks, heapBreak, i);
      p := freeHead;
      ChainNext(w, base, freeHead, fl, k, p);
      if p == block {
        return 0;
      }
      while p != 0 && words[NextWord(p - base)] != block
        invariant k < |Before(blocks, i)| && p == base + fl[k] && NextWord(fl[k]) < |w|
        invariant Chain(w, base, freeHead, fl[..k], p) && Chain(w, base, p, fl[k..], 0)
        decreases |fl| - k
      {
        ChainNext(w, base, freeHead, fl, k, p);
        p := words[NextWord(p - base)];
        k := k + 1;
        ChainNext(w, base, freeHead, fl, k, p);
      }
      ChainNext(w, base, freeHead, fl, k, p);
      ChainNext(w, base, freeHead, fl, k + 1, block);
    }

    /** Gives a block back and joins it with the free blocks it touches. A pointer outside the heap
        goes to the system. */
    method Free(ptr: nat, ghost i: nat)
      requires Valid()
      requires InHeap(ptr) ==> i < |blocks| && blocks[i].live && ptr == base + blocks[i].off + HEADER
      modifies this, words
      ensures Valid() && heapBreak == old(heapBreak)
      ensures blocks == if InHeap(ptr) then ReleaseBlock(old(blocks), i) else old(blocks)
      ensures Undisturbed(old(words[..]), old(blocks), words[..], blocks, if InHeap(ptr) then old(blocks)[i].off else HEAP_BYTES)
    {
      hide Mem, Tiles, FreeOffs, NoTouchingFree, Before, Behind, Undisturbed, SizeWord, NextWord, Chain;
      ghost var w0, bs0 := words[..], blocks;
      UndisturbedSame(w0, bs0);
      if ptr != 0 && InHeap(ptr) {
        var block := ptr - HEADER;
        Insert(i, block);
        ghost var w1, bs1 := words[..], blocks;
        OffsInHeap(w1, base, freeHead, bs1, heapBreak);
        Coalesce(i, block);
        ghost var w2, bs2 := words[..], blocks;
        OffsInHeap(w2, base, freeHead, bs2, heapBreak);
        UndisturbedTransitive(w0, bs0, w1, bs1, w2, bs2, bs0[i].off);
        var p := FindPredecessor(i, block);
        if p != 0 {
          ghost var m := Predecessor(base, bs2, i);
          Coalesce(m, p);
          UndisturbedTransitive(w0, bs0, w2, bs2, words[..], blocks, bs0[i].off);
        } else {
          NoPredecessor(base, bs2, i);
        }
        ReleaseKeeps(w0, base, old(freeHead), bs0, heapBreak, i);
      }
    }

    /** `memcpy` of whole words between the data of two blocks. */
    method CopyWords(dst: nat, src: nat, count: nat)
      requires dst + count <= words.Length && src + count <= words.Length
      requires dst + count <= src || src + count <= dst
      modifies words
      ensures forall x :: 0 <= x < words.Length && !(dst <= x < dst + count) ==> words[x] == old(words[x])
      ensures words[dst..dst + count] == old(words[src..src + count])
    {
      for k := 0 to count
        invariant forall x :: 0 <= x < words.Length && !(dst <= x < dst + k) ==> words[x] == old(words[x])
        invariant words[dst..dst + k] == old(words[src..src + k])
      {
        words[dst + k] := words[src + k];
        assert words[dst..dst + k + 1] == words[dst..dst + k] + [words[dst + k]];
        assert old(words[src..src + k + 1]) == old(words[src..src + k]) + [old(words[src + k])];
      }
    }

    /** `memcpy(n, ptr, old->size)`, between two live blocks. */
    method CopyBlock(ptr: nat, p: nat, oldSize: nat, ghost i: nat, ghost j: nat)
      requires Valid() && i < |blocks| && j < |blocks| && i != j && blocks[i].live && blocks[j].live
      requires ptr == base + blocks[i].off + HEADER && p == base + blocks[j].off + HEADER
      requires oldSize == blocks[i].size <= blocks[j].size
      modifies words
      ensures Valid() && blocks[i].off != blocks[j].off
      ensures forall k :: 0 <= k < |blocks| && blocks[k].live && k != j ==> Data(words[..], blocks[k]) == Data(old(words[..]), blocks[k])
      ensures StartsWith(words[..], blocks[j], old(words[..]), blocks[i])
    {
      hide Mem, Tiles, FreeOffs, NoTouchingFree, SizeWord, NextWord, StartsWith, Data;
      ghost var w, bs := words[..], blocks;
      CopyFits(w, base, freeHead, bs, heapBreak, i, j);
      var dst, src, count := SizeWord(p - base), SizeWord(ptr - base), oldSize / 8;
      CopyWords(dst, src, count);
      assert words[..][dst..dst + count] == w[src..src + count];
      BlockCopied(w, words[..], base, freeHead, bs, heapBreak, i, j);
    }

    /** `memcpy(n, ptr, old->size); free(ptr)`, between two live blocks. */
    method MoveAndFree(ptr: nat, p: nat, oldSize: nat, ghost i: nat, ghost j: nat)
      requires Valid() && i < |blocks| && j < |blocks| && i != j && blocks[i].live && blocks[j].live
      requires ptr == base + blocks[i].off + HEADER && p == base + blocks[j].off + HEADER
      requires oldSize == blocks[i].size <= blocks[j].size
      modifies this, words
      ensures Valid()
      ensures UndisturbedButOne(old(words[..]), old(blocks), words[..], blocks, old(blocks)[i].off, j)
      ensures Moved(old(words[..]), old(blocks)[i], words[..], blocks, p - base, old(blocks)[j].size)
      ensures blocks == if InHeap(ptr) then ReleaseBlock(old(blocks), i) else old(blocks)
    {
      hide Mem, Tiles, FreeOffs, NoTouchingFree, Undisturbed, SizeWord, NextWord, UndisturbedButOne, Moved, ReleaseBlock, Data, MergePrev, MergeNext, StartsWith;
      ghost var w1, bs1, first, end := words[..], blocks, freeHead, heapBreak;
      CopyBlock(ptr, p, oldSize, i, j);
      ghost var w2 := words[..];
      Free(ptr, i);
      OffsInHeap(w2, base, first, bs1, end);
      WeakenUnless(InHeap(ptr), w2, bs1, words[..], blocks, bs1[i].off);
      StoredThenFreed(w1, w2, words[..], bs1, blocks, bs1[i].off, j);
      MovedData(w1, w2, words[..], bs1, blocks, i, j);
    }

    /** Keeps a block that is large enough, otherwise moves its contents to a new one. It is `spoiled`
        exactly when it has to ask for a new block and the sums mislead that request; the model stops
        there, before it copies into a block that cannot hold the data. */
    method Realloc(ptr: nat, size: Word, fallback: nat, ghost i: nat) returns (p: nat, spoiled: bool)
      requires Valid() && (fallback == 0 || !InHeap(fallback))
      requires ptr != 0 ==> i < |blocks| && blocks[i].live && ptr == base + blocks[i].off + HEADER
      modifies this, words
      ensures spoiled <==> (ptr == 0 || size > old(blocks)[i].size) && Misled(size, old(heapBreak), old(freeHead) != 0)
      ensures spoiled ==> forall bs :: !Serves(words[..], base, freeHead, bs, heapBreak, old(blocks), p, size)
      ensures !spoiled ==> Valid()
      ensures !spoiled ==> Undisturbed(old(words[..]), old(blocks), words[..], blocks, if ptr == 0 then HEAP_BYTES else old(blocks)[i].off)
      ensures ptr == 0 && !spoiled ==> blocks == Malloced(old(blocks), old(heapBreak), size)
      ensures ptr != 0 && size == 0 ==> p == 0 && blocks == if InHeap(ptr) then ReleaseBlock(old(blocks), i) else old(blocks)
      ensures ptr != 0 && 0 < size <= old(blocks)[i].size ==> p == ptr && blocks == old(blocks) && words[..] == old(words[..])
      ensures ptr != 0 && size > old(blocks)[i].size && !spoiled && p == 0 ==> blocks == old(blocks)
      ensures ptr != 0 && size > old(blocks)[i].size && !spoiled ==> p == Answer(old(blocks), old(heapBreak), base, size, fallback)
      ensures ptr != 0 && size > old(blocks)[i].size && !spoiled && p != 0 ==>
                GivenBack(Malloced(old(blocks), old(heapBreak), size), old(blocks)[i].off, InHeap(ptr), blocks)
      ensures ptr != 0 && size > old(blocks)[i].size && !spoiled && InHeap(p) ==>
                Moved(old(words[..]), old(blocks)[i], words[..], blocks, p - base, size)
    {
      hide Mem, Tiles, FreeOffs, NoTouchingFree, Undisturbed, TakeBlock, Chain, FirstFit, Serves, GivenBack, Malloced;
      ghost var w0, bs0, brk0 := words[..], blocks, heapBreak;
      UndisturbedSame(w0, bs0);
      spoiled := false;
      if ptr != 0 { BlockInMemory(w0, base, freeHead, bs0, heapBreak, i); }
      OffsInHeap(w0, base, freeHead, bs0, heapBreak);
      var misled := Misled(size, heapBreak, freeHead != 0);
      ghost var asked;
      if ptr == 0 {
        p, asked := Malloc(size, fallback);
        return p, misled;
      }
      if size == 0 {
        Free(ptr, i);
        WeakenUnless(InHeap(ptr), w0, bs0, words[..], blocks, bs0[i].off);
        return 0, spoiled;
      }
      var src := ptr - HEADER - base;
      var oldSize := words[SizeWord(src)];
      if oldSize >= size {
        return ptr, spoiled;
      }
      p, asked := Malloc(size, fallback);
      if misled { return p, true; }
      if Served(bs0, brk0, size) { ServedIndex(bs0, brk0, size); }
      ghost var w1, bs1 := words[..], blocks;
      ServedSoundly(w0, base, old(freeHead), bs0, brk0, size);
      if p == 0 {
        NotServed(bs0, brk0, size);
        UndisturbedWeaken(w0, bs0, w1, bs1, bs0[i].off);
        return;
      }
      ghost var i1 := StillThere(w0, bs0, w1, bs1, i);
      if InHeap(p) {
        ghost var j := MallocServes(w0, base, old(freeHead), bs0, brk0, size);
        MoveAndFree(ptr, p, oldSize, i1, j);
        UndisturbedAround(w0, bs0, w1, bs1, words[..], blocks, bs0[i].off, j);
        GivesBack(bs1, i1, InHeap(ptr), blocks);
      } else {
        BlockInMemory(w1, base, freeHead, bs1, heapBreak, i1);
        OffsInHeap(w1, base, freeHead, bs1, heapBreak);
        Free(ptr, i1);
        WeakenUnless(InHeap(ptr), w1, bs1, words[..], blocks, bs1[i1].off);
        UndisturbedThenFreed(w0, bs0, w1, bs1, words[..], blocks, bs0[i].off);
        GivesBack(bs1, i1, InHeap(ptr), blocks);
      }
    }

    /** Zeroed memory for `nmemb` * `size` bytes, unless the product does not fit a `size_t`. It is
        `spoiled` exactly when the sums of `Malloc` mislead the request for the product; the model stops
        there, before it clears more bytes than there are. */
    method Calloc(nmemb: Word, size: Word, fallback: nat) returns (p: nat, spoiled: bool)
      requires Valid() && (fallback == 0 || !InHeap(fallback))
      modifies this, words
      ensures spoiled <==> 0 < nmemb * size < TWO64 && Misled(nmemb * size, old(heapBreak), old(freeHead) != 0)
      ensures spoiled ==> forall bs :: !Serves(words[..], base, freeHead, bs, heapBreak, old(blocks), p, nmemb * size)
      ensures nmemb * size == 0 || nmemb * size >= TWO64 ==> p == 0 && blocks == old(blocks) && words[..] == old(words[..])
      ensures 0 < nmemb * size < TWO64 && !spoiled ==> blocks == Malloced(old(blocks), old(heapBreak), nmemb * size)
      ensures 0 < nmemb * size < TWO64 && !spoiled ==> InHeap(p) == Served(old(blocks), old(heapBreak), nmemb * size)
      ensures !spoiled ==> Valid() && Undisturbed(old(words[..]), old(blocks), words[..], blocks, HEAP_BYTES)
      ensures !spoiled && InHeap(p) ==> exists b :: b in blocks && b.live && p == base + b.off + HEADER && Zeroed(Data(words[..], b), nmemb * size)
    {
      hide Mem, Tiles, FreeOffs, NoTouchingFree, Undisturbed, TakeBlock, Chain, FirstFit, SizeWord, NextWord, Malloced, BytesPower, Serves;
      UndisturbedSame(words[..], blocks);
      spoiled := false;
      if nmemb == 0 || size == 0 {
        return 0, spoiled;
      }
      ProductFits(nmemb, size);
      if nmemb > (TWO64 - 1) / size {
        return 0, spoiled;
      }
      var total := nmemb * size;
      ghost var w0, bs0, first0, brk0 := words[..], blocks, freeHead, heapBreak;
      OffsInHeap(w0, base, first0, bs0, brk0);
      spoiled := Misled(total, heapBreak, freeHead != 0);
      ghost var asked;
      p, asked := Malloc(total, fallback);
      if spoiled { return; }
      ServedSoundly(w0, base, first0, bs0, brk0, total);
      ghost var w1 := words[..];
      ghost var j := FirstFit(bs0, Align8(total));
      if Served(bs0, brk0, total) {
        j := MallocServes(w0, base, first0, bs0, brk0, total);
        DataWords(blocks[j]);
        BlockInMemory(w1, base, freeHead, blocks, heapBreak, j);
      }
      if InHeap(p) {
        ZeroBytes(SizeWord(p - base), total);
        DataStores(w1, words[..], base, freeHead, blocks, heapBreak, j);
        ClearedUndisturbed(w0, w1, words[..], bs0, blocks, j);
        ZeroedData(words[..], blocks[j], total);
      }
    }

    /** `memset(p, 0, total)` from word `at` on; a last partial word keeps its upper bytes. */
    method ZeroBytes(at: nat, total: nat)
      requires at + (total + 7) / 8 <= words.Length
      modifies words
      ensures forall x :: 0 <= x < words.Length && !(at <= x < at + (total + 7) / 8) ==> words[x] == old(words[x])
      ensures forall x :: at <= x < at + total / 8 ==> words[x] == 0
      ensures total % 8 != 0 ==> Multiple(words[at + total / 8], BytesPower(total % 8))
    {
      for k := 0 to total / 8
        invariant forall x :: 0 <= x < words.Length && !(at <= x < at + k) ==> words[x] == old(words[x])
        invariant forall x :: at <= x < at + k ==> words[x] == 0
      {
        words[at + k] := 0;
      }
      if total % 8 != 0 {
        var v := words[at + total / 8];
        var m := BytesPower(total % 8);
        LowBytesCleared(v, m);
        words[at + total / 8] := v - v % m;
      }
    }
  }

  // ----- Requests served

  /** The block a request is served with: live, large enough, and where no live block was. */
  lemma MallocServes(w: Words, base: nat, first: nat, bs: seq<Block>, brk: nat, size: nat) returns (j: nat)
    requires Mem(w, base, first, bs, brk) && size != 0 && size + 7 < TWO64 && Served(bs, brk, size)
    ensures j == FirstFit(bs, Align8(size)) < |Malloced(bs, brk, size)|
    ensures var b := Malloced(bs, brk, size)[j];
            && b.live && b.size >= size && RoundUp8(size) <= b.size
            && forall k :: 0 <= k < |bs| && bs[k].live ==> bs[k].off != b.off
  {
    RoundUp8Grows(size);
    AlignWithoutWrap(size);
    TilesOrdered(bs, 0, brk);
    hide Mem, Tiles, RoundUp8, Align8;
    j := FirstFit(bs, Align8(size));
    if j < |bs| { TakenBlock(bs, j, Align8(size)); }
  }

  // ----- Requests that wrap

  /** The sum at the break wraps to something that passes the check. */
  predicate Breaks(size: nat, brk: nat) {
    0 < size && size + 7 < TWO64 <= brk + HEADER + RoundUp8(size) <= TWO64 + HEAP_BYTES
  }

  /** Malloc takes the request for a smaller one: rounding it up wraps to nothing and there is a free
      block, or room for a header, to be had for nothing; or the sum at the break wraps. */
  predicate Misled(size: nat, brk: nat, anyFree: bool) {
    Breaks(size, brk) || (size + 7 >= TWO64 && (anyFree || brk + HEADER <= HEAP_BYTES))
  }

  /** `p` is a live block of a well-formed heap, holds `size` bytes, and was not live before. */
  ghost predicate Serves(w: Words, base: nat, first: nat, bs: seq<Block>, end: nat, before: seq<Block>, p: nat, size: nat) {
    && Mem(w, base, first, bs, end) && NoTouchingFree(bs)
    && exists j :: 0 <= j < |bs| && bs[j].live && bs[j].size >= size && p == base + bs[j].off + HEADER
                   && forall k :: 0 <= k < |before| && before[k].live ==> before[k].off != bs[j].off
  }

  /** The numbers malloc computes with. */
  lemma Requested(w: Words, base: nat, first: nat, bs: seq<Block>, brk: nat, size: Word)
    requires Mem(w, base, first, bs, brk) && size > 0
    ensures Align8(size) % 8 == 0 && Align8(size) < TWO64 && Align8(brk) == brk && brk % 8 == 0 && brk <= HEAP_BYTES == 8 * |w| && 0 < base
    ensures size + 7 < TWO64 ==> Align8(size) == RoundUp8(size) && size <= RoundUp8(size)
    ensures size + 7 >= TWO64 ==> Align8(size) == 0
    ensures Breaks(size, brk) ==> FirstFit(bs, Align8(size)) == |bs| && (brk + HEADER + Align8(size)) % TWO64 == brk + HEADER + RoundUp8(size) - TWO64 <= HEAP_BYTES
    ensures !Breaks(size, brk) ==> ((brk + HEADER + Align8(size)) % TWO64 <= HEAP_BYTES <==> brk + HEADER + Align8(size) <= HEAP_BYTES)
    ensures brk + HEADER + Align8(size) <= HEAP_BYTES ==> (brk + HEADER + Align8(size)) % TWO64 == brk + HEADER + Align8(size)
  {
    EndAligned(w, base, first, bs, brk);
    AlignWithoutWrap(size);
    RoundUp8Grows(size);
    TilesOrdered(bs, 0, brk);
    hide Mem, Tiles, Align8, RoundUp8;
    if Breaks(size, brk) { assert forall j :: 0 <= j < |bs| ==> !Fits(bs[j], Align8(size)); }
  }

  lemma TooLarge(size: nat, brk: nat, anyFree: bool)
    requires Misled(size, brk, anyFree) && brk <= HEAP_BYTES
    ensures size > HEAP_BYTES
  {
  }

  lemma NoneServes(w: Words, base: nat, first: nat, end: nat, before: seq<Block>, p: nat, size: nat)
    requires size > HEAP_BYTES
    ensures forall bs :: !Serves(w, base, first, bs, end, before, p, size)
  {
    forall bs | Mem(w, base, first, bs, end)
      ensures !Serves(w, base, first, bs, end, before, p, size)
    {
      TilesOrdered(bs, 0, end);
      hide Mem, Tiles;
    }
  }

  /** The list is empty when there is no free block, and nothing fits then. */
  lemma NoneFree(w: Words, base: nat, first: nat, bs: seq<Block>, brk: nat, n: nat)
    requires Mem(w, base, first, bs, brk)
    ensures first == 0 ==> FirstFit(bs, n) == |bs|
    ensures first != 0 ==> FirstFit(bs, 0) < |bs|
  {
    var i, k := FirstFit(bs, n), FirstFit(bs, 0);
    if i < |bs| { OffInFree(bs, i); }
    if k == |bs| { NothingFree(bs); }
    hide Tiles, FirstFit, FreeOffs;
  }

  lemma {:induction false} NothingFree(bs: seq<Block>)
    requires forall j :: 0 <= j < |bs| ==> bs[j].live
    ensures FreeOffs(bs) == []
  {
    if bs != [] { NothingFree(bs[1..]); }
  }

  /** A request that is not misled and gets a block is rounded up without wrapping. */
  lemma ServedSoundly(w: Words, base: nat, first: nat, bs: seq<Block>, brk: nat, size: Word)
    requires Mem(w, base, first, bs, brk) && size > 0 && !Misled(size, brk, first != 0)
    ensures !Breaks(size, brk) && (Served(bs, brk, size) ==> size + 7 < TWO64)
  {
    NoneFree(w, base, first, bs, brk, Align8(size));
    AlignWithoutWrap(size);
    hide Mem, Align8, FirstFit;
  }

  /** What a request gets that is granted in the heap. */
  lemma ServesOrNot(w: Words, base: nat, first: nat, bs: seq<Block>, brk: nat, w': Words, first': nat, bs': seq<Block>, brk': nat, p: nat, size: Word)
    requires Mem(w, base, first, bs, brk) && Mem(w', base, first', bs', brk') && NoTouchingFree(bs') && !Breaks(size, brk)
    requires size > 0 && Served(bs, brk, size) && bs' == Malloced(bs, brk, size) && FirstFit(bs, Align8(size)) < |bs'|
    requires p == base + bs'[FirstFit(bs, Align8(size))].off + HEADER
    ensures (exists c :: Serves(w', base, first', c, brk', bs, p, size)) <==> !Misled(size, brk, first != 0)
  {
    if Misled(size, brk, first != 0) {
      TooLarge(size, brk, first != 0);
      NoneServes(w', base, first', brk', bs, p, size);
    } else {
      ServedSoundly(w, base, first, bs, brk, size);
      var j := MallocServes(w, base, first, bs, brk, size);
      hide Mem, Malloced, FirstFit;
      assert Serves(w', base, first', bs', brk', bs, p, size);
    }
  }

  /** A store behind the break is none of the heap's. */
  lemma BeyondBreak(w: Words, w': Words, base: nat, first: nat, bs: seq<Block>, end: nat, n: Word)
    requires Mem(w, base, first, bs, end) && end % 8 == 0
    requires w' == if end < HEAP_BYTES && SizeWord(end) < |w| then w[SizeWord(end) := n] else w
    ensures Mem(w', base, first, bs, end)
  {
    TilesOrdered(bs, 0, end);
    FreeOffsOrdered(bs, 0, end);
    hide Tiles, FreeOffs;
    forall j | 0 <= j < |bs|
      ensures NextWord(bs[j].off) < SizeWord(end)
    {
      WordsApart(bs[j].off, end);
    }
    forall r | 0 <= r < |FreeOffs(bs)|
      ensures NextWord(FreeOffs(bs)[r]) < SizeWord(end)
    {
      WordsApart(FreeOffs(bs)[r], end);
    }
    ChainInBounds(w, base, first, FreeOffs(bs), 0);
    ChainFrame(w, w', base, first, FreeOffs(bs), 0);
  }

  lemma WeakenUnless(inHeap: bool, w: Words, bs: seq<Block>, w': Words, bs': seq<Block>, except: nat)
    requires Undisturbed(w, bs, w', bs', if inHeap then except else HEAP_BYTES) && forall b <- bs :: b.off < HEAP_BYTES
    ensures Undisturbed(w, bs, w', bs', except)
  {
  }

  lemma DataWords(b: Block)
    ensures b.off % 8 == 0 && b.size % 8 == 0 ==>
              SizeWord(b.off + HEADER) == SizeWord(b.off) + 2 && SizeWord(b.off + HEADER) + b.size / 8 == SizeWord(b.End())
  {
  }

  lemma NotServed(bs: seq<Block>, brk: nat, size: nat)
    requires !Served(bs, brk, size)
    ensures Malloced(bs, brk, size) == bs
  {
  }

  lemma UndisturbedWeaken(w: Words, bs: seq<Block>, w': Words, bs': seq<Block>, except: nat)
    requires Undisturbed(w, bs, w', bs', HEAP_BYTES) && forall b <- bs :: b.off < HEAP_BYTES
    ensures Undisturbed(w, bs, w', bs', except)
  {
  }

  lemma StillThere(w: Words, bs: seq<Block>, w': Words, bs': seq<Block>, i: nat) returns (i': nat)
    requires Undisturbed(w, bs, w', bs', HEAP_BYTES) && i < |bs| && bs[i].live && bs[i].off < HEAP_BYTES
    ensures i' < |bs'| && bs'[i'] == bs[i] && Data(w', bs[i]) == Data(w, bs[i])
  {
    i' :| 0 <= i' < |bs'| && bs'[i'] == bs[i];
  }

  lemma TwoBlocksApart(w: Words, base: nat, first: nat, bs: seq<Block>, end: nat, i: nat, j: nat)
    requires Mem(w, base, first, bs, end) && i < |bs| && j < |bs| && i != j
    ensures bs[i].off != bs[j].off && (SizeWord(bs[i].End()) <= SizeWord(bs[j].off) || SizeWord(bs[j].End()) <= SizeWord(bs[i].off))
  {
    TilesOrdered(bs, 0, end);
    BlocksApart(bs, end, if i < j then i else j);
  }

  /** Stores into the data of one live block change neither the heap's structure nor other data. */
  lemma DataStores(w: Words, w': Words, base: nat, first: nat, bs: seq<Block>, end: nat, j: nat)
    requires Mem(w, base, first, bs, end) && j < |bs| && bs[j].live && |w'| == |w|
    requires forall x :: 0 <= x < |w| && !(SizeWord(bs[j].off) + 2 <= x < SizeWord(bs[j].End())) ==> w'[x] == w[x]
    ensures Mem(w', base, first, bs, end)
    ensures forall k :: 0 <= k < |bs| && bs[k].live && k != j ==> Data(w', bs[k]) == Data(w, bs[k])
  {
    BlocksApart(bs, end, j);
    BlockWords(bs[j]);
    EntriesApart(bs, end, j);
    assert forall k :: 0 <= k < |bs| && k != j ==> NextWord(bs[k].off) < SizeWord(bs[j].off) || SizeWord(bs[j].End()) <= SizeWord(bs[k].off);
    forall r | 0 <= r < |FreeOffs(bs)| && NextWord(FreeOffs(bs)[r]) < |w|
      ensures w'[NextWord(FreeOffs(bs)[r])] == w[NextWord(FreeOffs(bs)[r])]
    {
      var fa := Before(bs, j);
      assert FreeOffs(bs)[r] == if r < |fa| then fa[r] else Behind(bs, j)[r - |fa|];
    }
    ChainInBounds(w, base, first, FreeOffs(bs), 0);
    ChainFrame(w, w', base, first, FreeOffs(bs), 0);
    forall k | 0 <= k < |bs| && k != j
      ensures Data(w', bs[k]) == Data(w, bs[k])
    {
      TwoBlocksApart(w, base, first, bs, end, j, k);
      OtherData(w, w', bs[j], bs[k]);
    }
  }

  lemma OtherData(w: Words, w': Words, b: Block, c: Block)
    requires |w'| == |w|
    requires forall x :: 0 <= x < |w| && !(SizeWord(b.off) + 2 <= x < SizeWord(b.End())) ==> w'[x] == w[x]
    requires SizeWord(b.End()) <= SizeWord(c.off) || SizeWord(c.End()) <= SizeWord(b.off)
    ensures Data(w', c) == Data(w, c)
  {
    var lo, hi := SizeWord(c.off) + 2, SizeWord(c.End());
    if lo <= hi <= |w| {
      assert forall z :: lo <= z < hi ==> w'[z] == w[z];
    }
  }

  lemma UndisturbedThenFreed(w: Words, bs: seq<Block>, w1: Words, bs1: seq<Block>, w2: Words, bs2: seq<Block>, except: nat)
    requires Undisturbed(w, bs, w1, bs1, HEAP_BYTES) && Undisturbed(w1, bs1, w2, bs2, except)
    requires forall b <- bs :: b.off < HEAP_BYTES
    ensures Undisturbed(w, bs, w2, bs2, except)
  {
  }

  /** Stores into the data of a block that was not live before disturb nobody. */
  lemma ClearedUndisturbed(w: Words, w1: Words, w2: Words, bs: seq<Block>, bs1: seq<Block>, j: nat)
    requires Undisturbed(w, bs, w1, bs1, HEAP_BYTES) && j < |bs1|
    requires forall b <- bs :: b.off < HEAP_BYTES
    requires forall k :: 0 <= k < |bs| && bs[k].live ==> bs[k].off != bs1[j].off
    requires forall k :: 0 <= k < |bs1| && bs1[k].live && k != j ==> Data(w2, bs1[k]) == Data(w1, bs1[k])
    ensures Undisturbed(w, bs, w2, bs1, HEAP_BYTES)
  {
  }

  /** Like `Undisturbed`, with the data of block `j` not spoken for. */
  ghost predicate UndisturbedButOne(w: Words, bs: seq<Block>, w': Words, bs': seq<Block>, except: nat, j: nat) {
    forall k :: 0 <= k < |bs| && k != j && bs[k].live && bs[k].off != except ==> bs[k] in bs' && Data(w', bs[k]) == Data(w, bs[k])
  }

  lemma StoredThenFreed(w1: Words, w2: Words, w3: Words, bs1: seq<Block>, bs3: seq<Block>, except: nat, j: nat)
    requires forall k :: 0 <= k < |bs1| && bs1[k].live && k != j ==> Data(w2, bs1[k]) == Data(w1, bs1[k])
    requires Undisturbed(w2, bs1, w3, bs3, except)
    ensures UndisturbedButOne(w1, bs1, w3, bs3, except, j)
  {
  }

  lemma UndisturbedAround(w: Words, bs: seq<Block>, w1: Words, bs1: seq<Block>, w3: Words, bs3: seq<Block>, except: nat, j: nat)
    requires Undisturbed(w, bs, w1, bs1, HEAP_BYTES) && UndisturbedButOne(w1, bs1, w3, bs3, except, j) && j < |bs1|
    requires forall b <- bs :: b.off < HEAP_BYTES
    requires forall k :: 0 <= k < |bs| && bs[k].live ==> bs[k].off != bs1[j].off
    ensures Undisturbed(w, bs, w3, bs3, except)
  {
  }

  /** The data of one block begins with the data of another. */
  ghost predicate StartsWith(w': Words, c: Block, w: Words, b: Block) {
    b.size / 8 <= |Data(w', c)| && Data(w', c)[..b.size / 8] == Data(w, b)
  }

  /** The data of a block fits into a block as large, and the two lie apart. */
  lemma CopyFits(w: Words, base: nat, first: nat, bs: seq<Block>, end: nat, i: nat, j: nat)
    requires Mem(w, base, first, bs, end) && i < |bs| && j < |bs| && i != j && bs[i].size <= bs[j].size
    ensures bs[i].off != bs[j].off
    ensures var dst, src, n := SizeWord(bs[j].off + HEADER), SizeWord(bs[i].off + HEADER), bs[i].size / 8;
            dst + n <= |w| && src + n <= |w| && (dst + n <= src || src + n <= dst)
  {
    hide Mem, SizeWord, NextWord;
    BlockInMemory(w, base, first, bs, end, i);
    BlockInMemory(w, base, first, bs, end, j);
    DataWords(bs[i]);
    DataWords(bs[j]);
    TwoBlocksApart(w, base, first, bs, end, i, j);
  }

  lemma BlockCopied(w: Words, w': Words, base: nat, first: nat, bs: seq<Block>, end: nat, i: nat, j: nat)
    requires Mem(w, base, first, bs, end) && i < |bs| && j < |bs| && i != j && bs[j].live && bs[i].size <= bs[j].size && |w'| == |w|
    requires var dst, src, n := SizeWord(bs[j].off + HEADER), SizeWord(bs[i].off + HEADER), bs[i].size / 8;
             && dst + n <= |w| && src + n <= |w| && w'[dst..dst + n] == w[src..src + n]
             && forall x :: 0 <= x < |w| && !(dst <= x < dst + n) ==> w'[x] == w[x]
    ensures Mem(w', base, first, bs, end) && StartsWith(w', bs[j], w, bs[i])
    ensures forall k :: 0 <= k < |bs| && bs[k].live && k != j ==> Data(w', bs[k]) == Data(w, bs[k])
  {
    hide Mem, SizeWord, NextWord, Data, StartsWith;
    BlockInMemory(w, base, first, bs, end, i);
    BlockInMemory(w, base, first, bs, end, j);
    DataWords(bs[j]);
    CopiedData(w, w', bs[i], bs[j]);
    DataStores(w, w', base, first, bs, end, j);
  }

  lemma CopiedData(w: Words, w': Words, b: Block, c: Block)
    requires b.off % 8 == 0 && b.size % 8 == 0 && c.off % 8 == 0 && c.size % 8 == 0 && b.size <= c.size
    requires SizeWord(c.End()) <= |w'| && SizeWord(b.End()) <= |w|
    requires w'[SizeWord(c.off + HEADER)..SizeWord(c.off + HEADER) + b.size / 8] == w[SizeWord(b.off + HEADER)..SizeWord(b.off + HEADER) + b.size / 8]
    ensures StartsWith(w', c, w, b)
  {
    DataWords(b);
    DataWords(c);
    hide SizeWord;
    var k := SizeWord(c.off + HEADER);
    assert Data(w', c) == w'[k..k + c.size / 8];
    assert Data(w', c)[..b.size / 8] == w'[k..k + b.size / 8];
  }

  lemma MovedData(w1: Words, w2: Words, w3: Words, bs1: seq<Block>, bs3: seq<Block>, i: nat, j: nat)
    requires i < |bs1| && j < |bs1| && bs1[j].live && bs1[j].off != bs1[i].off
    requires Undisturbed(w2, bs1, w3, bs3, bs1[i].off) && StartsWith(w2, bs1[j], w1, bs1[i])
    ensures Moved(w1, bs1[i], w3, bs3, bs1[j].off + HEADER, bs1[j].size)
  {
    hide Data;
    assert bs1[j] in bs3 && Data(w3, bs1[j]) == Data(w2, bs1[j]);
  }

  lemma ZeroedData(w: Words, b: Block, total: nat)
    requires b.off % 8 == 0 && b.size % 8 == 0 && b.size >= total && SizeWord(b.End()) <= |w|
    requires forall x :: SizeWord(b.off + HEADER) <= x < SizeWord(b.off + HEADER) + total / 8 ==> w[x] == 0
    requires total % 8 != 0 ==>
               && SizeWord(b.off + HEADER) + total / 8 < |w|
               && Multiple(w[SizeWord(b.off + HEADER) + total / 8], BytesPower(total % 8))
    ensures Zeroed(Data(w, b), total)
  {
    assert SizeWord(b.off + HEADER) == SizeWord(b.off) + 2;
  }

  /** The block at an offset is no longer live, unless it lay outside the heap. */
  ghost predicate GivenBack(bs: seq<Block>, off: nat, inHeap: bool, after: seq<Block>) {
    exists j: nat :: j < |bs| && bs[j].live && bs[j].off == off && after == if inHeap then ReleaseBlock(bs, j) else bs
  }

  lemma GivesBack(bs: seq<Block>, j: nat, inHeap: bool, after: seq<Block>)
    requires j < |bs| && bs[j].live && after == if inHeap then ReleaseBlock(bs, j) else bs
    ensures GivenBack(bs, bs[j].off, inHeap, after)
  {
  }

  /** A block of `bs` at offset `off` + header that holds `size` bytes and starts with the data of `b`. */
  ghost predicate Moved(w: Words, b: Block, w': Words, bs': seq<Block>, at: int, size: nat) {
    exists c :: c in bs' && c.live && c.off + HEADER == at && c.size >= size
                && b.size / 8 <= |Data(w', c)| && Data(w', c)[..b.size / 8] == Data(w, b)
  }

  function BytesPower(k: nat): (m: nat)
    ensures m > 0
  {
    if k == 0 then 1 else 256 * BytesPower(k - 1)
  }

  /** The low bytes below `m` are zero. */
  ghost predicate Multiple(v: nat, m: nat) {
    exists q: nat :: v == q * m
  }

  lemma LowBytesCleared(v: nat, m: nat)
    requires m > 0
    ensures 0 <= v - v % m <= v && Multiple(v - v % m, m)
  {
    assert v - v % m == (v / m) * m;
  }

  /** The first `total` bytes of some data are zero. */
  ghost predicate Zeroed(d: Words, total: nat) {
    && total / 8 <= |d|
    && (forall x :: 0 <= x < total / 8 ==> d[x] == 0)
    && (total % 8 != 0 ==> total / 8 < |d| && Multiple(d[total / 8], BytesPower(total % 8)))
  }

  lemma ProductFits(a: Word, b: Word)
    requires b > 0
    ensures a > (TWO64 - 1) / b <==> a * b >= TWO64
  {
    var q := (TWO64 - 1) / b;
    assert q * b <= TWO64 - 1 < (q + 1) * b;
    if a > q { assert a * b >= (q + 1) * b; } else { assert a * b <= q * b; }
  }

  // ----- Steps of free

  /** The list as seen from block `i`: entries below the block's address, then the rest. */
  lemma ListAround(w: Words, base: nat, first: nat, bs: seq<Block>, end: nat, i: nat)
    requires Mem(w, base, first, bs, end) && i < |bs|
    ensures FreeOffs(bs) == Before(bs, i) + (if bs[i].live then [] else [bs[i].off]) + Behind(bs, i)
    ensures forall j :: 0 <= j < |Before(bs, i)| ==> FreeOffs(bs)[j] < bs[i].off
    ensures forall j :: |Before(bs, i)| <= j < |FreeOffs(bs)| && (!bs[i].live ==> j > |Before(bs, i)|) ==> FreeOffs(bs)[j] > bs[i].off
  {
    FreeOffsAt(bs, i);
    TilesSplit(bs, i, 0, end);
    FreeOffsOrdered(bs[..i], 0, bs[i].off);
    FreeOffsOrdered(bs[i + 1..], bs[i].End(), end);
  }

  lemma PlaceFound(base: nat, bs: seq<Block>, i: nat, k: nat, prev: nat)
    requires i < |bs| && bs[i].live && k == |Before(bs, i)|
    requires FreeOffs(bs) == Before(bs, i) + [] + Behind(bs, i)
    requires prev == if k == 0 then 0 else base + FreeOffs(bs)[k - 1]
    ensures FreeOffs(bs)[k..] == Behind(bs, i) && prev == PrevPtr(base, bs, i)
  {
  }

  lemma InsertStores(w: Words, w': Words, base: nat, first: nat, first': nat, bs: seq<Block>, end: nat, i: nat, next: Word)
    requires Mem(w, base, first, bs, end) && i < |bs| && NextWord(bs[i].off) < |w| && |w'| == |w| && base + HEAP_BYTES <= TWO64
    requires SizeWord(bs[i].off) < |w| && base + bs[i].off < TWO64
    requires if PrevPtr(base, bs, i) == 0
             then first' == base + bs[i].off && w' == w[NextWord(bs[i].off) := next]
             else base <= PrevPtr(base, bs, i) && NextWord(PrevPtr(base, bs, i) - base) < |w| && first' == first
                  && w' == w[NextWord(bs[i].off) := next][NextWord(PrevPtr(base, bs, i) - base) := base + bs[i].off]
    ensures StepOn(w, w', first, first', bs, i, base + bs[i].off)
    ensures w'[SizeWord(bs[i].off)] == bs[i].size && w'[NextWord(bs[i].off)] == next
  {
    hide Tiles, Before, SizeWord, NextWord;
    BlockInMemory(w, base, first, bs, end, i);
    BlockWords(bs[i]);
  }

  lemma FreeUndisturbed(w: Words, w': Words, base: nat, first: nat, first': nat, bs: seq<Block>, end: nat, i: nat)
    requires Mem(w, base, first, bs, end) && i < |bs| && StepOn(w, w', first, first', bs, i, base + bs[i].off)
    ensures Undisturbed(w, bs, w', bs[i := bs[i].(live := false)], bs[i].off)
  {
    hide StepOn, Tiles;
    forall j | 0 <= j < |bs| && bs[j].live && bs[j].off != bs[i].off
      ensures bs[j] in bs[i := bs[i].(live := false)] && Data(w', bs[j]) == Data(w, bs[j])
    {
      DataKept(w, w', first, first', bs, end, i, base + bs[i].off, j);
      assert bs[i := bs[i].(live := false)][j] == bs[j];
    }
  }

  /** The next entry of the list starts where block `i` ends exactly when block `i + 1` is free. */
  lemma NextTouches(w: Words, base: nat, first: nat, bs: seq<Block>, end: nat, i: nat)
    requires Mem(w, base, first, bs, end) && i < |bs| && !bs[i].live && NextWord(bs[i].off) < |w|
    ensures var next := w[NextWord(bs[i].off)];
            (next != 0 && bs[i].End() == next - base <==> i + 1 < |bs| && !bs[i + 1].live)
    ensures i + 1 < |bs| && !bs[i + 1].live ==> w[NextWord(bs[i].off)] == base + bs[i + 1].off
  {
    EntriesApart(bs, end, i);
    var fa, fc := Before(bs, i), Behind(bs, i);
    assert FreeOffs(bs) == fa + ([bs[i].off] + fc);
    var m := ChainSplit(w, base, first, fa, [bs[i].off] + fc, 0);
    assert ([bs[i].off] + fc)[1..] == fc;
    assert w[NextWord(bs[i].off)] == if fc == [] then 0 else base + fc[0];
    TilesOrdered(bs, 0, end);
    if i + 1 < |bs| && !bs[i + 1].live {
      MergeKeeps(bs, end, i);
      MergeOffs(bs, i);
    } else if fc != [] {
      var j := FreeIndex(bs[i + 1..], 0);
      assert bs[i + 1..][j] == bs[i + 1 + j];
      assert j > 0;
    }
  }

  lemma MergeWordsApart(bs: seq<Block>, end: nat, i: nat, w: Words, base: nat, first: nat)
    requires Mem(w, base, first, bs, end) && i + 1 < |bs|
    ensures NextWord(bs[i].off) < SizeWord(bs[i + 1].off) < NextWord(bs[i + 1].off)
  {
    BlocksApart(bs, end, i + 1);
  }

  lemma OffsInHeap(w: Words, base: nat, first: nat, bs: seq<Block>, end: nat)
    requires Mem(w, base, first, bs, end)
    ensures forall b <- bs :: b.off < HEAP_BYTES
  {
    TilesOrdered(bs, 0, end);
  }

  lemma MergeUndisturbed(w: Words, w': Words, base: nat, first: nat, bs: seq<Block>, end: nat, i: nat)
    requires Mem(w, base, first, bs, end) && i + 1 < |bs| && !bs[i].live && !bs[i + 1].live
    requires NextWord(bs[i].off) < |w| && |w'| == |w|
    requires forall x :: 0 <= x < |w| && x != SizeWord(bs[i].off) && x != NextWord(bs[i].off) ==> w'[x] == w[x]
    ensures Undisturbed(w, bs, w', Merge(bs, i), HEAP_BYTES)
  {
    TilesOrdered(bs, 0, end);
    BlocksApart(bs, end, i);
    BlockWords(bs[i]);
    hide Mem;
    var t := Merge(bs, i);
    forall j | 0 <= j < |bs| && bs[j].live
      ensures bs[j] in t && Data(w', bs[j]) == Data(w, bs[j])
    {
      assert bs[j] == t[if j < i then j else j - 1];
      SameData(w, w', bs[j], SizeWord(bs[i].off), NextWord(bs[i].off));
    }
  }

  lemma SameData(w: Words, w': Words, b: Block, x: nat, y: nat)
    requires |w'| == |w| && forall z :: 0 <= z < |w| && z != x && z != y ==> w'[z] == w[z]
    requires x <= y && (y < SizeWord(b.off) || SizeWord(b.End()) <= x)
    ensures Data(w', b) == Data(w, b)
  {
    var lo, hi := SizeWord(b.off) + 2, SizeWord(b.End());
    if lo <= hi <= |w| {
      assert forall z :: lo <= z < hi ==> w'[z] == w[z];
    }
  }

  lemma UndisturbedTransitive(w: Words, bs: seq<Block>, w1: Words, bs1: seq<Block>, w2: Words, bs2: seq<Block>, except: nat)
    requires Undisturbed(w, bs, w1, bs1, except) && Undisturbed(w1, bs1, w2, bs2, HEAP_BYTES)
    requires forall b <- bs1 :: b.off < HEAP_BYTES
    ensures Undisturbed(w, bs, w2, bs2, except)
  {
  }

  /** The free block the predecessor pointer of block `i` denotes; it touches the block exactly when
      the block before is free. */
  lemma Predecessor(base: nat, bs: seq<Block>, i: nat) returns (m: nat)
    requires i < |bs| && PrevPtr(base, bs, i) != 0 && 0 < base
    ensures m < i && !bs[m].live && PrevPtr(base, bs, i) == base + bs[m].off
    ensures MergeNext(bs, m) == if !bs[i].live then MergePrev(bs, i) else bs
  {
    m := FreeIndex(bs[..i], |Before(bs, i)| - 1);
    if m + 1 < i && !bs[m + 1].live {
      OffInFree(bs[..i][m + 1..], 0);
    }
    if m + 1 < i && !bs[i - 1].live {
      OffInFree(bs[..i][m + 1..], i - 1 - (m + 1));
    }
  }

  lemma NoPredecessor(base: nat, bs: seq<Block>, i: nat)
    requires i < |bs| && PrevPtr(base, bs, i) == 0 && 0 < base
    ensures MergePrev(bs, i) == bs
  {
    if i > 0 && !bs[i - 1].live { OffInFree(bs[..i], i - 1); }
  }

  lemma ReleaseKeeps(w: Words, base: nat, first: nat, bs: seq<Block>, end: nat, i: nat)
    requires Mem(w, base, first, bs, end) && NoTouchingFree(bs) && i < |bs|
    ensures NoTouchingFree(ReleaseBlock(bs, i))
  {
    ReleaseBlockKeeps(bs, end, i);
  }

  lemma UndisturbedSame(w: Words, bs: seq<Block>)
    ensures forall except: nat :: Undisturbed(w, bs, w, bs, except)
  {
  }

  lemma RoundUp8Grows(n: nat)
    ensures n <= RoundUp8(n) <= n + 7 && RoundUp8(n) % 8 == 0
  {
  }

  lemma TakenBlock(bs: seq<Block>, i: nat, n: nat)
    requires i < |bs| && Fits(bs[i], n)
    ensures |TakeBlock(bs, i, n)| > i && TakeBlock(bs, i, n)[i].off == bs[i].off
    ensures TakeBlock(bs, i, n)[i].live && TakeBlock(bs, i, n)[i].size >= n
  {
  }

  lemma EndAligned(w: Words, base: nat, first: nat, bs: seq<Block>, end: nat)
    requires Mem(w, base, first, bs, end)
    ensures Align8(end) == end && end % 8 == 0 && end <= HEAP_BYTES == 8 * |w| && 0 < base
  {
    TilesAligned(bs, 0, end);
  }

  lemma AlignWithoutWrap(size: Word)
    ensures Align8(size) % 8 == 0
    ensures size + 7 < TWO64 ==> Align8(size) == RoundUp8(size)
    ensures size + 7 >= TWO64 ==> Align8(size) == 0
  {
    EighthsOf((size + 7) % TWO64);
    if size + 7 >= TWO64 { assert (size + 7) % TWO64 == size + 7 - TWO64; }
  }

  lemma EighthsOf(n: nat)
    ensures n / 8 * 8 % 8 == 0 && (n < 8 ==> n / 8 == 0)
  {
  }

  /** What malloc decides at the break, in 64-bit arithmetic. */
  predicate Granted(size: Word, brk: nat) {
    (Align8(brk) + HEADER + Align8(size)) % TWO64 <= HEAP_BYTES
  }

  /** The comparison with free blocks is sound for a size exactly when rounding it up does not
      wrap, and a block granted at the break really has room for the request exactly when the sum
      does not wrap. Every misled request wraps; one that wraps and is not misled is refused. */
  lemma WrapMisleads(size: Word, brk: nat, anyFree: bool)
    requires size > 0 && brk <= HEAP_BYTES && brk % 8 == 0
    ensures Align8(size) >= size <==> size + 7 < TWO64
    ensures Granted(size, brk) ==> (brk + HEADER + size <= HEAP_BYTES <==> NoWrap(size, brk))
    ensures NoWrap(size, brk) ==> !Misled(size, brk, anyFree)
    ensures !NoWrap(size, brk) ==> (Misled(size, brk, anyFree) <==> Granted(size, brk) || (anyFree && size + 7 >= TWO64))
  {
    hide Align8, RoundUp8;
    AlignWithoutWrap(size);
    RoundUp8Grows(size);
    AlignWithoutWrap(brk);
    RoundUp8Aligned(brk);
  }

  lemma RoundUp8Aligned(n: nat)
    requires n % 8 == 0
    ensures RoundUp8(n) == n
  {
  }

  /** On an empty heap the largest request gets a block of no bytes, and one of 16 bytes less than
      2^64 moves the break nowhere; at a full heap the largest multiple of eight is refused. */
  lemma WrapExample()
    ensures Misled(TWO64 - 1, 0, false) && Misled(TWO64 - 16, 0, false) && Breaks(TWO64 - 16, 0)
    ensures !NoWrap(TWO64 - 8, HEAP_BYTES) && !Misled(TWO64 - 8, HEAP_BYTES, false)
  {
    assert RoundUp8(TWO64 - 16) == TWO64 - 16 && RoundUp8(TWO64 - 8) == TWO64 - 8;
  }

  lemma {:induction false} TilesAligned(bs: seq<Block>, from: nat, end: nat)
    requires Tiles(bs, from, end) && from % 8 == 0
    ensures end % 8 == 0
  {
    if bs != [] { TilesAligned(bs[1..], bs[0].End(), end); }
  }

  /** Moving the break adds a live block at the end. */
  lemma AppendMem(w: Words, w': Words, base: nat, first: nat, bs: seq<Block>, end: nat, n: nat)
    requires Mem(w, base, first, bs, end) && NoTouchingFree(bs) && end % 8 == 0 && n % 8 == 0
    requires end + HEADER + n <= HEAP_BYTES && |w'| == |w|
    requires w' == w[SizeWord(end) := n]
    ensures Mem(w', base, first, bs + [Block(end, n, true)], end + HEADER + n)
    ensures NoTouchingFree(bs + [Block(end, n, true)])
    ensures Undisturbed(w, bs, w', bs + [Block(end, n, true)], HEAP_BYTES)
  {
    AppendData(w, w', bs, end, n);
    var b := Block(end, n, true);
    var t := bs + [b];
    TilesOrdered(bs, 0, end);
    FreeOffsOrdered(bs, 0, end);
    TilesJoin(bs, [b], 0, end, b.End());
    FreeOffsOne(b);
    FreeOffsJoin(bs, [b]);
    assert FreeOffs(t) == FreeOffs(bs) + [] == FreeOffs(bs);
    hide Tiles, FreeOffs, Undisturbed;
    forall j | 0 <= j < |bs|
      ensures NextWord(bs[j].off) < SizeWord(end) && SizeWord(bs[j].End()) <= SizeWord(end)
    {
      WordsApart(bs[j].off, end);
    }
    forall r | 0 <= r < |FreeOffs(bs)|
      ensures NextWord(FreeOffs(bs)[r]) < SizeWord(end)
    {
      WordsApart(FreeOffs(bs)[r], end);
    }
    ChainInBounds(w, base, first, FreeOffs(bs), 0);
    ChainFrame(w, w', base, first, FreeOffs(bs), 0);
  }

  lemma AppendData(w: Words, w': Words, bs: seq<Block>, end: nat, n: nat)
    requires Tiles(bs, 0, end) && SizeWord(end) < |w| && n < TWO64 && w' == w[SizeWord(end) := n]
    ensures Undisturbed(w, bs, w', bs + [Block(end, n, true)], HEAP_BYTES)
  {
    TilesOrdered(bs, 0, end);
    forall j | 0 <= j < |bs|
      ensures bs[j] in bs + [Block(end, n, true)] && Data(w', bs[j]) == Data(w, bs[j])
    {
      assert (bs + [Block(end, n, true)])[j] == bs[j];
      assert SizeWord(bs[j].End()) <= SizeWord(end);
    }
  }

  ghost predicate Served(bs: seq<Block>, brk: nat, size: nat) {
    FirstFit(bs, Align8(size)) < |bs| || brk + HEADER + Align8(size) <= HEAP_BYTES
  }

  ghost function Malloced(bs: seq<Block>, brk: nat, size: nat): seq<Block> {
    var n := Align8(size);
    var i := FirstFit(bs, n);
    if size == 0 then bs
    else if i < |bs| then TakeBlock(bs, i, n)
    else if brk + HEADER + n <= HEAP_BYTES then bs + [Block(brk, n, true)]
    else bs
  }

  /** The pointer that malloc gives: to the data of the block served, or what the system gave. */
  ghost function Answer(bs: seq<Block>, brk: nat, base: nat, size: nat, fallback: nat): nat {
    var j := FirstFit(bs, Align8(size));
    if Served(bs, brk, size) && j < |Malloced(bs, brk, size)| then base + Malloced(bs, brk, size)[j].off + HEADER else fallback
  }

  lemma ServedIndex(bs: seq<Block>, brk: nat, size: nat)
    requires size > 0 && Served(bs, brk, size)
    ensures FirstFit(bs, Align8(size)) < |Malloced(bs, brk, size)|
  {
  }

  ghost function BreakAfter(bs: seq<Block>, brk: nat, size: nat): nat {
    var n := Align8(size);
    if size != 0 && FirstFit(bs, n) == |bs| && brk + HEADER + n <= HEAP_BYTES then brk + HEADER + n else brk
  }
}
