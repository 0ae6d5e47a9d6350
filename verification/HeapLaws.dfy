/** What malloc and free do to the heap, said of the blocks and words before and after in plain numbers
    and without the functions that the operations are specified by. */
module HeapLaws {
  import opened LibcHeap

  /** A free block of at least `n` bytes. */
  predicate Room(b: Block, n: nat) {
    !b.live && b.size >= n
  }

  /** Block `i` is the one with the lowest address among those with room. */
  ghost predicate Lowest(bs: seq<Block>, i: nat, n: nat) {
    i < |bs| && Room(bs[i], n) && forall j :: 0 <= j < |bs| && Room(bs[j], n) ==> bs[i].off <= bs[j].off
  }

  /** A request of `n` bytes, a multiple of eight, is cut off the front of block `i`; a remainder of 24
      bytes or more, header included, stays a free block, a smaller one goes along. */
  ghost predicate CutFrom(bs: seq<Block>, i: nat, n: nat, after: seq<Block>)
    requires i < |bs|
  {
    var b := bs[i];
    if b.size >= n + 24 then after == bs[..i] + [Block(b.off, n, true), Block(b.off + 16 + n, b.size - n - 16, false)] + bs[i + 1..]
    else after == bs[..i] + [Block(b.off, b.size, true)] + bs[i + 1..]
  }

  /** The size rounded up to a multiple of eight. */
  ghost predicate Rounds(size: nat, n: nat) {
    n % 8 == 0 && size <= n < size + 8
  }

  /** First fit, then the break, then nothing: for every size whose rounding does not wrap. */
  lemma MallocLaw(w: Words, base: nat, first: nat, bs: seq<Block>, brk: nat, size: nat, n: nat)
    requires Mem(w, base, first, bs, brk) && size > 0 && Rounds(size, n) && n < TWO64
    ensures forall i: nat :: Lowest(bs, i, n) ==> CutFrom(bs, i, n, Malloced(bs, brk, size)) && FirstFit(bs, Align8(size)) == i
    ensures (forall i :: 0 <= i < |bs| ==> !Room(bs[i], n)) ==>
      Malloced(bs, brk, size) == bs + if brk + 16 + n <= 33554432 then [Block(brk, n, true)] else []
    ensures Served(bs, brk, size) <==> (exists i: nat :: Lowest(bs, i, n)) || brk + 16 + n <= 33554432
  {
    hide Mem, CutFrom, Lowest, Rounds, TakeBlock, Room, Fits;
    AlignIs(size, n);
    InOrder(w, base, first, bs, brk);
    FirstIsLowest(bs, n);
    forall i: nat | Lowest(bs, i, n)
      ensures FirstFit(bs, n) == i < |bs| && CutFrom(bs, i, n, TakeBlock(bs, i, n))
    {
      LowestIsFirst(bs, i, n);
      CutIs(bs, i, n);
    }
  }

  ghost predicate Ordered(bs: seq<Block>) {
    forall j, k :: 0 <= j < k < |bs| ==> bs[j].off < bs[k].off
  }

  lemma InOrder(w: Words, base: nat, first: nat, bs: seq<Block>, end: nat)
    requires Mem(w, base, first, bs, end)
    ensures Ordered(bs)
  {
    TilesOrdered(bs, 0, end);
  }

  lemma AlignIs(size: nat, n: nat)
    requires Rounds(size, n) && n < TWO64
    ensures Align8(size) == n
  {
  }

  lemma LowestIsFirst(bs: seq<Block>, i: nat, n: nat)
    requires Lowest(bs, i, n) && Ordered(bs)
    ensures FirstFit(bs, n) == i < |bs|
  {
    var f := FirstFit(bs, n);
    assert f < |bs| ==> Room(bs[f], n);
    assert Fits(bs[i], n);
  }

  /** There is room exactly if a search finds it. */
  lemma FirstIsLowest(bs: seq<Block>, n: nat)
    requires Ordered(bs)
    ensures FirstFit(bs, n) < |bs| ==> Lowest(bs, FirstFit(bs, n), n) && Room(bs[FirstFit(bs, n)], n)
    ensures FirstFit(bs, n) == |bs| ==> forall i: nat :: !Lowest(bs, i, n)
  {
    var f := FirstFit(bs, n);
    assert forall j :: 0 <= j < |bs| ==> Fits(bs[j], n) == Room(bs[j], n);
  }

  lemma CutIs(bs: seq<Block>, i: nat, n: nat)
    requires i < |bs|
    ensures CutFrom(bs, i, n, TakeBlock(bs, i, n))
  {
    assert bs[i := bs[i].(live := true)] == bs[..i] + [Block(bs[i].off, bs[i].size, true)] + bs[i + 1..];
  }

  /** The run of free blocks around block `i` once it is free: from block `a` to block `z`. */
  ghost predicate FreeRun(bs: seq<Block>, i: nat, a: nat, z: nat) {
    && a <= i <= z < |bs| && i <= a + 1 && z <= i + 1
    && (a < i <==> i > 0 && !bs[i - 1].live) && (i < z <==> i + 1 < |bs| && !bs[i + 1].live)
  }

  /** The bytes behind the header of the first block up to the end of the last. */
  function Span(bs: seq<Block>, a: nat, z: nat): nat
    requires a <= z < |bs|
    decreases z - a
  {
    if a == z then bs[a].size else bs[a].size + 16 + Span(bs, a + 1, z)
  }

  /** Giving a block back makes one free block of it and its free neighbours, headers included. */
  lemma FreeLaw(bs: seq<Block>, i: nat, a: nat, z: nat)
    requires i < |bs| && FreeRun(bs, i, a, z)
    ensures ReleaseBlock(bs, i) == bs[..a] + [Block(bs[a].off, Span(bs, a, z), false)] + bs[z + 1..]
  {
    var freed := bs[i := bs[i].(live := false)];
    var next := MergeNext(freed, i);
    if i < z {
      assert next == bs[..i] + [Block(bs[i].off, bs[i].size + 16 + bs[i + 1].size, false)] + bs[i + 2..];
    } else {
      assert next == bs[..i] + [Block(bs[i].off, bs[i].size, false)] + bs[i + 1..];
    }
    assert Span(bs, i, z) == next[i].size && next[i].off == bs[i].off;
    assert next[..i] == bs[..i] && next[i + 1..] == bs[z + 1..];
    if a < i {
      assert Span(bs, a, z) == bs[a].size + 16 + Span(bs, i, z);
      assert next[i - 1] == bs[i - 1];
      assert next[..i - 1] == bs[..i - 1];
    }
  }

  // ----- The words

  /** No free block between blocks `i` and `j`. */
  ghost predicate NoneBetween(bs: seq<Block>, i: int, j: nat) {
    forall k :: i < k < j && 0 <= k < |bs| ==> bs[k].live
  }

  /** A block's first word is its size; a free block's second word is the address of the next free
      block, or 0, and the list head that of the first one. */
  lemma HeaderLaw(w: Words, base: nat, first: nat, bs: seq<Block>, end: nat)
    requires Mem(w, base, first, bs, end)
    ensures forall i :: 0 <= i < |bs| ==> 0 <= bs[i].off / 8 < |w| && w[bs[i].off / 8] == bs[i].size
    ensures forall i: nat, j: nat :: i < j < |bs| && !bs[i].live && !bs[j].live && NoneBetween(bs, i, j) ==>
      bs[i].off / 8 + 1 < |w| && w[bs[i].off / 8 + 1] == base + bs[j].off
    ensures forall i: nat :: i < |bs| && !bs[i].live && NoneBetween(bs, i, |bs|) ==> bs[i].off / 8 + 1 < |w| && w[bs[i].off / 8 + 1] == 0
    ensures forall j: nat :: j < |bs| && !bs[j].live && NoneBetween(bs, -1, j) ==> first == base + bs[j].off
    ensures NoneBetween(bs, -1, |bs|) ==> first == 0
  {
    hide Tiles, Mem;
    assert Headers(w, bs) && Chain(w, base, first, FreeOffs(bs), 0) by { MemParts(w, base, first, bs, end); }
    forall i: nat, j: nat | i < j < |bs| && !bs[i].live && !bs[j].live && NoneBetween(bs, i, j)
      ensures bs[i].off / 8 + 1 < |w| && w[bs[i].off / 8 + 1] == base + bs[j].off
    {
      LinkAt(w, base, first, bs, i, j);
    }
    forall i: nat | i < |bs| && !bs[i].live && NoneBetween(bs, i, |bs|)
      ensures bs[i].off / 8 + 1 < |w| && w[bs[i].off / 8 + 1] == 0
    {
      LastLink(w, base, first, bs, i);
    }
    forall j: nat | j < |bs| && !bs[j].live && NoneBetween(bs, -1, j)
      ensures first == base + bs[j].off
    {
      FirstLink(w, base, first, bs, j);
    }
    if NoneBetween(bs, -1, |bs|) { NoFree(bs); }
  }

  lemma MemParts(w: Words, base: nat, first: nat, bs: seq<Block>, end: nat)
    requires Mem(w, base, first, bs, end)
    ensures Headers(w, bs) && Chain(w, base, first, FreeOffs(bs), 0)
  {
  }

  lemma {:induction false} NoFree(bs: seq<Block>)
    requires forall k :: 0 <= k < |bs| ==> bs[k].live
    ensures FreeOffs(bs) == []
  {
    if bs != [] { NoFree(bs[1..]); }
  }

  lemma FirstLink(w: Words, base: nat, first: nat, bs: seq<Block>, j: nat)
    requires Chain(w, base, first, FreeOffs(bs), 0) && j < |bs| && !bs[j].live && NoneBetween(bs, -1, j)
    ensures first == base + bs[j].off
  {
    NoFree(bs[..j]);
    FreeOffsAt(bs, j);
  }

  /** The list from free block `i` on. */
  lemma ListFrom(w: Words, base: nat, first: nat, bs: seq<Block>, i: nat)
    requires Chain(w, base, first, FreeOffs(bs), 0) && i < |bs| && !bs[i].live
    ensures bs[i].off / 8 + 1 < |w| && Chain(w, base, w[bs[i].off / 8 + 1], FreeOffs(bs[i + 1..]), 0)
  {
    hide FreeOffs;
    FreeOffsAt(bs, i);
    var before, behind := FreeOffs(bs[..i]), FreeOffs(bs[i + 1..]);
    assert FreeOffs(bs) == before + ([bs[i].off] + behind);
    var cur := ChainDrop(w, base, first, before, [bs[i].off] + behind);
    assert ([bs[i].off] + behind)[1..] == behind;
  }

  lemma {:induction false} ChainDrop(w: Words, base: nat, first: nat, a: seq<nat>, b: seq<nat>) returns (cur: nat)
    requires Chain(w, base, first, a + b, 0)
    ensures Chain(w, base, cur, b, 0)
    decreases a
  {
    if a == [] {
      cur := first;
      assert a + b == b;
    } else {
      assert (a + b)[1..] == a[1..] + b;
      cur := ChainDrop(w, base, w[NextWord(a[0])], a[1..], b);
    }
  }

  lemma LinkAt(w: Words, base: nat, first: nat, bs: seq<Block>, i: nat, j: nat)
    requires Chain(w, base, first, FreeOffs(bs), 0) && i < j < |bs| && !bs[i].live && !bs[j].live && NoneBetween(bs, i, j)
    ensures bs[i].off / 8 + 1 < |w| && w[bs[i].off / 8 + 1] == base + bs[j].off
  {
    hide FreeOffs;
    ListFrom(w, base, first, bs, i);
    var later := bs[i + 1..];
    assert forall k :: 0 <= k < |later| ==> later[k] == bs[i + 1 + k];
    FirstLink(w, base, w[bs[i].off / 8 + 1], later, j - i - 1);
  }

  lemma LastLink(w: Words, base: nat, first: nat, bs: seq<Block>, i: nat)
    requires Chain(w, base, first, FreeOffs(bs), 0) && i < |bs| && !bs[i].live && NoneBetween(bs, i, |bs|)
    ensures bs[i].off / 8 + 1 < |w| && w[bs[i].off / 8 + 1] == 0
  {
    ListFrom(w, base, first, bs, i);
    var later := bs[i + 1..];
    assert forall k :: 0 <= k < |later| ==> later[k] == bs[i + 1 + k];
    NoFree(later);
  }

  /** The data of a block are the words behind its two header words. */
  lemma DataLaw(w: Words, base: nat, first: nat, bs: seq<Block>, end: nat, i: nat)
    requires Mem(w, base, first, bs, end) && i < |bs|
    ensures (bs[i].off + 16 + bs[i].size) / 8 <= |w| == 4194304 && |Data(w, bs[i])| == bs[i].size / 8
    ensures forall k: nat :: k < bs[i].size / 8 ==> Data(w, bs[i])[k] == w[bs[i].off / 8 + 2 + k]
  {
    BlockInMemory(w, base, first, bs, end, i);
  }
}
