/** The address spaces of kernel/src/elf/module_loader.c: a root table that shares the kernel half,
    mapped page by page with fresh memory and torn down by scanning its tables. */
module AddressSpace {
  import opened PageTree
  import opened UserSpace
  import opened Hardware
  import Pmm
  import opened Addresses

  /** The lower half of `root` is a user tree over the allocator of `k`. */
  ghost predicate IsSpace(k: Machine, root: nat)
    reads k, k.pmm, k.pmm.bits
  {
    k.Valid() && UserTree(k.mem, k.Free(), root, k.pmm.totalPages)
  }

  /** A new root: empty below, the kernel's entries above. */
  method ClonePml4(k: Machine) returns (root: nat)
    requires k.Valid() && k.cr3 < |k.mem| && k.cr3 !in k.Free()
    modifies k`mem, k.pmm, k.pmm.bits
    ensures k.Valid() && |k.mem| == |old(k.mem)|
    ensures root == 0 <==> old(k.Free()) == {}
    ensures root == 0 ==> k.mem == old(k.mem) && k.Free() == {}
    ensures root != 0 ==> root in old(k.Free()) && k.Free() == old(k.Free()) - {root}
    ensures root != 0 ==> IsSpace(k, root) && Owned(k.mem, root) == {}
    ensures root != 0 ==> forall j: nat :: UPPER_HALF <= j < ENTRIES ==> k.mem[root][j] == k.mem[k.cr3][j]
    ensures root != 0 ==> forall f: nat :: f < |k.mem| && f != root ==> k.mem[f] == old(k.mem)[f]
  {
    hide Owned, UserTree;
    root := k.pmm.AllocPage();
    if root == 0 {
      return;
    }
    ghost var m := k.mem;
    k.ZeroPage(root);
    for i := UPPER_HALF to ENTRIES
      modifies k`mem
      invariant |k.mem| == |m| && forall f: nat :: f < |m| && f != root ==> k.mem[f] == m[f]
      invariant forall j: nat :: UPPER_HALF <= j < i ==> k.mem[root][j] == m[k.cr3][j]
      invariant forall j: nat :: j < UPPER_HALF ==> k.mem[root][j] == ZERO_ENTRY
    {
      k.WriteEntry(root, i, k.mem[k.cr3][i]);
    }
    EmptySpace(k.mem, k.Free(), root, k.pmm.totalPages);
  }

  lemma EmptySpace(m: Memory, free: set<nat>, root: nat, limit: nat)
    requires limit <= |m| && 0 < root < limit && root !in free
    requires forall j: nat :: j < UPPER_HALF ==> m[root][j] == ZERO_ENTRY
    ensures UserTree(m, free, root, limit) && Owned(m, root) == {}
  {
    forall p: Path | Lower(p) && p != []
      ensures At(m, root, p) == None && !EntryAt(m, root, p).Present()
    {
      var first := p[..1];
      assert Front(first) == [] && Last(first) == p[0];
      DeadBelow(m, root, first, p);
    }
  }

  /** One of the four levels of `map_user_page_pml4`: links a fresh page where the entry is absent,
      otherwise makes the entry writable for user code. */
  method EnsureEntry(k: Machine, root: nat, ghost p: Path, table: nat, i: nat) returns (ok: bool, e: Entry)
    requires IsSpace(k, root) && |p| <= 3 && Lower(p + [i]) && At(k.mem, root, p) == Some(table)
    modifies k`mem, k.pmm, k.pmm.bits
    ensures IsSpace(k, root) && Conserved(old(k.mem), old(k.Free()), k.mem, k.Free(), root)
    ensures !ok ==> k.mem == old(k.mem) && k.Free() == old(k.Free()) == {}
    ensures !ok ==> At(k.mem, root, p + [i]).None?
    ensures ok ==> old(At(k.mem, root, p + [i])).None? || old(At(k.mem, root, p + [i])) == Some(e.frame)
    ensures ok ==> PathsExcept(old(k.mem), k.mem, root, UPPER_HALF, p + [i], Some(e.frame))
    ensures ok && 1 <= |p| <= 2 ==> !e.IsHuge()
    ensures ok ==> Opened(k.mem, root, p + [i])
    ensures StaysOpen(old(k.mem), k.mem, root) && DataKept(old(k.mem), k.mem, root)
    ensures ok && old(At(k.mem, root, p + [i])).None? ==> Zeroed(k.mem, e.frame)
  {
    hide UserTree, Conserved, Owned, Slot, PathsExcept, Pmm.IsNextFit, Pmm.Clear, At, EntryAt, DataKept, StaysOpen, Open, EntriesExcept, LargePage;
    ghost var m, free := k.mem, k.Free();
    EnterSlot(m, free, root, k.pmm.totalPages, p, i);
    LowerFront(p, i);
    e := k.mem[table][i];
    if !e.Present() {
      var page := k.pmm.AllocPage();
      if page == 0 {
        ConservedReflexive(m, free, root);
        NothingDone(m, free, root, k.pmm.totalPages);
        return false, e;
      }
      k.ZeroPage(page);
      ghost var zeroed := k.mem;
      e := Entry(page, PRESENT | WRITABLE | USER);
      k.WriteEntry(table, i, e);
      LinkPage(m, free, root, k.pmm.totalPages, p, i, page, zeroed, k.mem);
      NewFlags();
      OtherPages(m, free, root, k.pmm.totalPages, p, page);
      TableStepKeepsData(m, free, k.mem, root, k.pmm.totalPages, p, i, page, Some(page));
    } else {
      k.WriteEntry(table, i, e.With(USER | WRITABLE));
      MarkKeeps(m, free, root, k.pmm.totalPages, p, i, k.mem);
      TableStepKeepsData(m, free, k.mem, root, k.pmm.totalPages, p, i, table, At(m, root, p + [i]));
    }
    OpenedStays(m, k.mem, root, p + [i]);
    return true, e;
  }

  lemma NothingDone(m: Memory, free: set<nat>, root: nat, limit: nat)
    requires UserTree(m, free, root, limit)
    ensures StaysOpen(m, m, root) && DataKept(m, m, root)
  {
  }

  lemma LowerFront(p: Path, i: nat)
    requires Lower(p + [i])
    ensures Lower(p)
  {
    assert forall k :: 0 <= k < |p| ==> p[k] == (p + [i])[k];
  }

  /** A page from the allocator is none of the tables. */
  lemma OtherPages(m: Memory, free: set<nat>, root: nat, limit: nat, p: Path, page: nat)
    requires UserTree(m, free, root, limit) && Lower(p) && At(m, root, p).Some? && page in free
    ensures At(m, root, p).value != page
  {
  }

  /** Maps one page of the lower half for user code, creating the tables on the way. Running out
      of pages leaves the tables created so far in place. */
  method MapUserPage(k: Machine, root: nat, vaddr: nat) returns (ok: bool)
    requires IsSpace(k, root) && Lower(Indices(vaddr))
    modifies k`mem, k.pmm, k.pmm.bits
    ensures IsSpace(k, root) && Conserved(old(k.mem), old(k.Free()), k.mem, k.Free(), root)
    ensures ok <==> At(k.mem, root, Indices(vaddr)).Some?
    ensures !ok ==> k.Free() == {}
    ensures GrownAlong(old(k.mem), k.mem, root, Indices(vaddr))
    ensures StaysOpen(old(k.mem), k.mem, root) && DataKept(old(k.mem), k.mem, root)
    ensures ok ==> Usable(k.mem, root, Indices(vaddr))
    ensures ok && old(At(k.mem, root, Indices(vaddr))).None? ==> Zeroed(k.mem, At(k.mem, root, Indices(vaddr)).value)
  {
    hide UserTree, Conserved, Owned, PathsExcept, GrownAlong, At, Indices, Lower, OpenTo, StaysOpen, DataKept, Opened, Zeroed, Usable;
    ghost var m, free := k.mem, k.Free();
    var idx := Indices(vaddr);
    assert |idx| == 4;
    ghost var m1, m2, m3, free1, free2, free3;
    var e: Entry;

    AlongStart(m, free, k.pmm.totalPages, root, idx);
    OpenStart(m, free, k.pmm.totalPages, root, idx);
    ok, e := EnsureEntry(k, root, idx[..0], root, idx[0]);
    OpenNext(m, m, k.mem, root, idx, 0, ok, e.frame);
    if !ok { AlongStop(m, k.mem, root, idx, 0); return false; }
    m1, free1 := k.mem, k.Free();
    AlongNext(m, m, k.mem, root, idx, 0, e.frame);

    ok, e := EnsureEntry(k, root, idx[..1], e.frame, idx[1]);
    ConservedTransitive(m, free, m1, free1, k.mem, k.Free(), root);
    OpenNext(m, m1, k.mem, root, idx, 1, ok, e.frame);
    if !ok { AlongStop(m, k.mem, root, idx, 1); return false; }
    if e.IsHuge() { assert false; }
    m2, free2 := k.mem, k.Free();
    AlongNext(m, m1, k.mem, root, idx, 1, e.frame);

    ok, e := EnsureEntry(k, root, idx[..2], e.frame, idx[2]);
    ConservedTransitive(m, free, m2, free2, k.mem, k.Free(), root);
    OpenNext(m, m2, k.mem, root, idx, 2, ok, e.frame);
    if !ok { AlongStop(m, k.mem, root, idx, 2); return false; }
    if e.IsHuge() { assert false; }
    m3, free3 := k.mem, k.Free();
    AlongNext(m, m2, k.mem, root, idx, 2, e.frame);

    ok, e := EnsureEntry(k, root, idx[..3], e.frame, idx[3]);
    ConservedTransitive(m, free, m3, free3, k.mem, k.Free(), root);
    OpenNext(m, m3, k.mem, root, idx, 3, ok, e.frame);
    if !ok { AlongStop(m, k.mem, root, idx, 3); return false; }
    AlongNext(m, m3, k.mem, root, idx, 3, e.frame);
    assert idx[..4] == idx;
    assert idx[..3] + [idx[3]] == idx;
    OpenEnd(m, k.mem, root, idx);
  }

  /** The first `n` entries of the path are open; what was open is, and data are as before. */
  ghost predicate OpenTo(m: Memory, m': Memory, root: nat, p: Path, n: nat) {
    && StaysOpen(m, m', root) && DataKept(m, m', root) && |p| == 4
    && (forall k: nat :: 1 <= k <= n <= 4 ==> Opened(m', root, p[..k]))
    && (n < 4 ==> At(m', root, p) == At(m, root, p))
  }

  lemma OpenStart(m: Memory, free: set<nat>, limit: nat, root: nat, p: Path)
    requires UserTree(m, free, root, limit) && |p| == 4
    ensures OpenTo(m, m, root, p, 0)
  {
    NothingDone(m, free, root, limit);
  }

  lemma OpenNext(m: Memory, m1: Memory, m': Memory, root: nat, p: Path, n: nat, ok: bool, next: nat)
    requires Lower(p) && |p| == 4 && n < 4 && OpenTo(m, m1, root, p, n) && StaysOpen(m1, m', root) && DataKept(m1, m', root)
    requires ok ==> Opened(m', root, p[..n] + [p[n]]) && PathsExcept(m1, m', root, UPPER_HALF, p[..n] + [p[n]], Some(next))
    requires !ok ==> m' == m1
    ensures ok ==> OpenTo(m, m', root, p, n + 1)
    ensures ok && n < 3 ==> At(m', root, p) == At(m, root, p)
    ensures StaysOpen(m, m', root) && DataKept(m, m', root)
  {
    hide At, Opened;
    assert p[..n] + [p[n]] == p[..n + 1];
    DataKeptOn(m, m1, m', root);
    assert forall k: nat :: 1 <= k <= 4 ==> Lower(p[..k]);
    assert n < 3 ==> p != p[..n + 1];
  }

  lemma OpenEnd(m: Memory, m': Memory, root: nat, p: Path)
    requires OpenTo(m, m', root, p, 4)
    ensures Usable(m', root, p)
  {
    hide EntryAt, StaysOpen, DataKept;
    assert forall k: nat :: 1 <= k <= 4 ==> Opened(m', root, p[..k]);
  }

  /** Only paths along `p` may lead somewhere new; every path that led somewhere still does. */
  ghost predicate GrownAlong(m: Memory, m': Memory, root: nat, p: Path) {
    forall q: Path :: Lower(q) && (q <= p ==> At(m, root, q).Some?) ==> At(m', root, q) == At(m, root, q)
  }

  lemma AlongStart(m: Memory, free: set<nat>, limit: nat, root: nat, p: Path)
    requires Lower(p) && |p| == 4
    requires UserTree(m, free, root, limit)
    ensures GrownAlong(m, m, root, p) && At(m, root, p[..0]) == Some(root) && Lower(p[..0] + [p[0]])
  {
  }

  /** A level that could not be entered was missing, so the whole path leads nowhere. */
  lemma AlongStop(m: Memory, m': Memory, root: nat, p: Path, n: nat)
    requires Lower(p) && |p| == 4 && n < 4 && At(m', root, p[..n] + [p[n]]).None?
    ensures At(m', root, p).None?
  {
    DeadBelow(m', root, p[..n] + [p[n]], p);
  }

  lemma AlongNext(m: Memory, m1: Memory, m': Memory, root: nat, p: Path, n: nat, next: nat)
    requires Lower(p) && |p| == 4 && n < 4 && GrownAlong(m, m1, root, p)
    requires PathsExcept(m1, m', root, UPPER_HALF, p[..n] + [p[n]], Some(next))
    requires At(m1, root, p[..n] + [p[n]]).None? || At(m1, root, p[..n] + [p[n]]) == Some(next)
    ensures GrownAlong(m, m', root, p)
    ensures At(m', root, p[..n + 1]) == Some(next)
    ensures n < 3 ==> Lower(p[..n + 1] + [p[n + 1]])
  {
    assert p[..n] + [p[n]] == p[..n + 1];
    assert n < 3 ==> p[..n + 1] + [p[n + 1]] == p[..n + 2];
  }

  // ----- Ranges

  const LOWER_END: nat := 0x8000_0000_0000   // 2^47: the end of the lower half
  const PAGES_PER_TOP: nat := 0x800_0000     // 2^27 pages below one root entry

  /** Everything mapped below lies on pages `lo` to `hi`, and every root entry in use is one of theirs. */
  ghost predicate Confined(m: Memory, root: nat, lo: nat, hi: nat) {
    && (forall p: Path :: Lower(p) && |p| == 4 && At(m, root, p).Some? ==> lo <= Unindex(p) < hi)
    && (forall i: nat :: i < UPPER_HALF && At(m, root, [i]).Some? ==> lo / PAGES_PER_TOP <= i <= (hi - 1) / PAGES_PER_TOP)
  }

  lemma LowerIndices(v: nat)
    requires v < LOWER_END
    ensures Lower(Indices(v)) && Unindex(Indices(v)) == v / PAGE_SIZE
    ensures Indices(v)[0] == v / PAGE_SIZE / PAGES_PER_TOP
  {
    IndicesAreThePage(v);
  }

  lemma ConfinedAlong(m: Memory, m': Memory, root: nat, v: nat, lo: nat, hi: nat)
    requires v < LOWER_END && lo <= v / PAGE_SIZE < hi
    requires Confined(m, root, lo, hi) && GrownAlong(m, m', root, Indices(v))
    ensures Confined(m', root, lo, hi)
  {
    hide Indices, Unindex, At;
    LowerIndices(v);
    var p := Indices(v);
    forall q: Path | Lower(q) && |q| == 4 && At(m', root, q).Some?
      ensures lo <= Unindex(q) < hi
    {
      if q != p { assert !(q <= p); }
    }
    forall i: nat | i < UPPER_HALF && At(m', root, [i]).Some?
      ensures lo / PAGES_PER_TOP <= i <= (hi - 1) / PAGES_PER_TOP
    {
      if i != p[0] { assert !([i] <= p); assert Lower([i]); }
    }
  }

  lemma StaysMapped(m: Memory, m': Memory, root: nat, v: nat, w: nat)
    requires GrownAlong(m, m', root, Indices(v)) && w < LOWER_END && At(m, root, Indices(w)).Some?
    ensures At(m', root, Indices(w)).Some?
  {
    LowerIndices(w);
  }

  /** Maps a page for every 4096 bytes from `start` on and stops at the first that cannot be mapped.
      From an unaligned start that may miss the last page of the range. */
  method MapUserRange(k: Machine, root: nat, start: nat, end: nat, ghost lo: nat, ghost hi: nat) returns (ok: bool)
    requires IsSpace(k, root) && end <= LOWER_END
    requires lo <= start / PAGE_SIZE && (end + PAGE_SIZE - 1) / PAGE_SIZE <= hi && Confined(k.mem, root, lo, hi)
    modifies k`mem, k.pmm, k.pmm.bits
    ensures IsSpace(k, root) && Conserved(old(k.mem), old(k.Free()), k.mem, k.Free(), root)
    ensures Confined(k.mem, root, lo, hi)
    ensures ok <==> start < end && AllMapped(k.mem, root, start, end)
    ensures !ok && start < end ==> k.Free() == {}
    ensures ok ==>
              (Throughout(k.mem, root, start, end) <==> !MissesLast(start, end) || old(At(k.mem, root, Indices(end - 1))).Some?)
    ensures StaysOpen(old(k.mem), k.mem, root) && DataKept(old(k.mem), k.mem, root)
    ensures ok ==> forall j: nat :: RangePage(start, j) < end ==> Usable(k.mem, root, Indices(RangePage(start, j)))
    ensures forall j: nat :: RangePage(start, j) < end ==> FreshIsZero(old(k.mem), k.mem, root, Indices(RangePage(start, j)))
  {
    hide UserTree, Conserved, Owned, GrownAlong, At, Indices, Lower, Confined, MissesLast, Throughout, StaysOpen, DataKept, Usable, FreshIsZero;
    ghost var m, free := k.mem, k.Free();
    SpaceRoot(m, free, root, k.pmm.totalPages);
    ConservedReflexive(m, free, root);
    NothingDone(m, free, root, k.pmm.totalPages);
    NothingFresh(m, root);
    if end <= start { return false; }
    var v := start;
    ghost var n: nat := 0;
    while v < end
      invariant v == RangePage(start, n)
      invariant IsSpace(k, root) && Conserved(m, free, k.mem, k.Free(), root)
      invariant Confined(k.mem, root, lo, hi)
      invariant MissesLast(start, end) ==> At(k.mem, root, Indices(end - 1)) == At(m, root, Indices(end - 1))
      invariant forall j: nat :: j < n && RangePage(start, j) < end ==> At(k.mem, root, Indices(RangePage(start, j))).Some?
      invariant StaysOpen(m, k.mem, root) && DataKept(m, k.mem, root)
      invariant forall j: nat :: j < n && RangePage(start, j) < end ==> Usable(k.mem, root, Indices(RangePage(start, j)))
      invariant forall j: nat :: RangePage(start, j) < end ==> FreshIsZero(m, k.mem, root, Indices(RangePage(start, j)))
    {
      ghost var m1, free1 := k.mem, k.Free();
      LowerIndices(v);
      ok := MapUserPage(k, root, v);
      ConservedTransitive(m, free, m1, free1, k.mem, k.Free(), root);
      ConfinedAlong(m1, k.mem, root, v, lo, hi);
      OpenOn(m, m1, k.mem, root);
      forall j: nat | RangePage(start, j) < end
        ensures FreshIsZero(m, k.mem, root, Indices(RangePage(start, j)))
        ensures j < n ==> Usable(k.mem, root, Indices(RangePage(start, j)))
      {
        FreshOn(m, m1, k.mem, root, v, RangePage(start, j), ok);
        LowerIndices(RangePage(start, j));
        if j < n { UsableStays(m1, k.mem, root, Indices(RangePage(start, j))); }
      }
      if !ok { return; }
      if MissesLast(start, end) {
        LastNotVisited(start, end, n);
        OtherPage(m1, k.mem, root, v, end - 1);
      }
      forall j: nat | j <= n && RangePage(start, j) < end
        ensures At(k.mem, root, Indices(RangePage(start, j))).Some?
      {
        if j < n { StaysMapped(m1, k.mem, root, v, RangePage(start, j)); }
      }
      v := v + PAGE_SIZE;
      n := n + 1;
    }
    AllOrLast(k.mem, root, start, end);
    return true;
  }

  /** A page that was not mapped before is full of zeros. */
  ghost predicate FreshIsZero(m: Memory, m': Memory, root: nat, p: Path) {
    At(m, root, p).None? && At(m', root, p).Some? ==> Zeroed(m', At(m', root, p).value)
  }

  lemma NothingFresh(m: Memory, root: nat)
    ensures forall p: Path :: FreshIsZero(m, m, root, p)
  {
  }

  lemma OpenOn(m: Memory, m1: Memory, m': Memory, root: nat)
    requires StaysOpen(m, m1, root) && DataKept(m, m1, root) && StaysOpen(m1, m', root) && DataKept(m1, m', root)
    ensures StaysOpen(m, m', root) && DataKept(m, m', root)
  {
    hide At, Opened;
    DataKeptOn(m, m1, m', root);
  }

  lemma FreshOn(m: Memory, m1: Memory, m': Memory, root: nat, v: nat, w: nat, ok: bool)
    requires v < LOWER_END && w < LOWER_END && DataKept(m1, m', root) && FreshIsZero(m, m1, root, Indices(w))
    requires GrownAlong(m1, m', root, Indices(v)) && (ok <==> At(m', root, Indices(v)).Some?)
    requires ok && At(m1, root, Indices(v)).None? ==> Zeroed(m', At(m', root, Indices(v)).value)
    ensures FreshIsZero(m, m', root, Indices(w))
  {
    hide At, Indices;
    LowerIndices(v);
    LowerIndices(w);
    if Indices(w) != Indices(v) { assert !(Indices(w) <= Indices(v)); }
  }

  /** Every address of the range is mapped. */
  ghost predicate Throughout(m: Memory, root: nat, start: nat, end: nat) {
    forall w: nat :: start <= w < end ==> At(m, root, Indices(w)).Some?
  }

  /** The range ends in a page at a smaller offset than it starts at. */
  predicate MissesLast(start: nat, end: nat) {
    start < end && (end - 1) % PAGE_SIZE < start % PAGE_SIZE
  }

  /** The loop comes to the page of every address but for the last page of such a range. */
  lemma Visited(start: nat, end: nat, w: nat)
    requires start <= w < end && (!MissesLast(start, end) || w / PAGE_SIZE != (end - 1) / PAGE_SIZE)
    ensures w / PAGE_SIZE >= start / PAGE_SIZE
    ensures var j := w / PAGE_SIZE - start / PAGE_SIZE;
            RangePage(start, j) < end && RangePage(start, j) / PAGE_SIZE == w / PAGE_SIZE
  {
  }

  lemma LastNotVisited(start: nat, end: nat, j: nat)
    requires MissesLast(start, end) && RangePage(start, j) < end
    ensures RangePage(start, j) / PAGE_SIZE != (end - 1) / PAGE_SIZE
  {
  }

  lemma OtherPage(m: Memory, m': Memory, root: nat, v: nat, w: nat)
    requires GrownAlong(m, m', root, Indices(v)) && v < LOWER_END && w < LOWER_END && v / PAGE_SIZE != w / PAGE_SIZE
    ensures At(m', root, Indices(w)) == At(m, root, Indices(w))
  {
    hide At, Indices;
    LowerIndices(v);
    LowerIndices(w);
    assert !(Indices(w) <= Indices(v));
  }

  lemma AllOrLast(m: Memory, root: nat, start: nat, end: nat)
    requires start < end <= LOWER_END && AllMapped(m, root, start, end)
    ensures Throughout(m, root, start, end) <==> !MissesLast(start, end) || At(m, root, Indices(end - 1)).Some?
  {
    hide At, Indices, MissesLast, RangePage;
    if !MissesLast(start, end) || At(m, root, Indices(end - 1)).Some? {
      forall w: nat | start <= w < end
        ensures At(m, root, Indices(w)).Some?
      {
        if MissesLast(start, end) && w / PAGE_SIZE == (end - 1) / PAGE_SIZE {
          PagesEqual(w, end - 1);
        } else {
          Visited(start, end, w);
          PagesEqual(w, RangePage(start, w / PAGE_SIZE - start / PAGE_SIZE));
        }
      }
    }
  }

  lemma PagesEqual(v: nat, w: nat)
    requires v / PAGE_SIZE == w / PAGE_SIZE && v < LOWER_END && w < LOWER_END
    ensures Indices(v) == Indices(w)
  {
    hide Indices;
    SamePageSameIndices(v, w);
  }

  ghost predicate AllMapped(m: Memory, root: nat, start: nat, end: nat) {
    forall j: nat :: RangePage(start, j) < end ==> At(m, root, Indices(RangePage(start, j))).Some?
  }

  lemma SpaceRoot(m: Memory, free: set<nat>, root: nat, limit: nat)
    requires UserTree(m, free, root, limit)
    ensures 0 < root < limit <= |m| && root !in free
  {
    assert At(m, root, []) == Some(root);
  }

  // ----- Teardown

  /** The first scan, one page: gives a mapped page back and clears its entry. A page whose
      tables are missing is skipped. */
  method ClearLeaf(k: Machine, root: nat, v: nat)
    requires IsSpace(k, root) && v < LOWER_END
    modifies k`mem, k.pmm, k.pmm.bits
    ensures IsSpace(k, root) && Conserved(old(k.mem), old(k.Free()), k.mem, k.Free(), root)
    ensures PathsExcept(old(k.mem), k.mem, root, UPPER_HALF, Indices(v), None)
  {
    hide UserTree, Conserved, Owned, PathsExcept, At, Indices, Lower, Pmm.Clear, UserSlot, Slot;
    ghost var m, free, limit := k.mem, k.Free(), k.pmm.totalPages;
    var idx := Indices(v);
    LowerIndices(v);
    ReadEntry(m, free, root, limit, idx, 0);
    ConservedReflexive(m, free, root);
    var e := k.mem[root][idx[0]];
    if !e.Present() { return; }
    ReadEntry(m, free, root, limit, idx, 1);
    e := k.mem[e.frame][idx[1]];
    if !e.Present() || e.IsHuge() { return; }
    ReadEntry(m, free, root, limit, idx, 2);
    e := k.mem[e.frame][idx[2]];
    if !e.Present() || e.IsHuge() { return; }
    ReadEntry(m, free, root, limit, idx, 3);
    var pt := e.frame;
    e := k.mem[pt][idx[3]];
    if !e.Present() { return; }
    SlotStore(m, free, root, limit, idx[..3], idx[3]);
    if e.IsUser() {
      k.pmm.FreePage(e.frame);
    }
    k.WriteEntry(pt, idx[3], ZERO_ENTRY);
    UnlinkPage(m, free, root, limit, idx[..3], idx[3], e.frame, k.mem);
    assert idx[..3] + [idx[3]] == idx;
  }

  /** Reading the entry of a path at depth `n`, when the walk got that far. An entry that is not
      present ends the walk with nothing mapped. */
  lemma ReadEntry(m: Memory, free: set<nat>, root: nat, limit: nat, p: Path, n: nat)
    requires UserTree(m, free, root, limit) && Lower(p) && |p| == 4 && n < 4
    requires At(m, root, p[..n]).Some? || n == 0
    ensures n == 0 ==> At(m, root, p[..0]) == Some(root)
    ensures root < |m| && At(m, root, p[..n]).value < |m| && p[n] < ENTRIES
    ensures UserSlot(m, free, root, limit, p[..n], p[n])
    ensures var e := Fetch(m, At(m, root, p[..n]).value, p[n]);
            if e.Present() then
              && At(m, root, p[..n + 1]) == At(m, root, p[..n] + [p[n]]) == Some(e.frame)
              && 0 < e.frame < limit
              && (1 <= n <= 2 ==> !e.IsHuge()) && (n == 3 ==> e.IsUser() && p[..4] == p)
            else PathsExcept(m, m, root, UPPER_HALF, p, None)
  {
    hide UserTree, EntryAt, At, PathsExcept, Slot;
    assert p[..n] + [p[n]] == p[..n + 1];
    assert p[..4] == p && p[..0] == [];
    RootPath(m, root);
    EnterSlot(m, free, root, limit, p[..n], p[n]);
    if At(m, root, p[..n + 1]).None? {
      DeadBelow(m, root, p[..n + 1], p);
      AbsentPath(m, root, p);
    } else {
      OwnedPage(m, free, root, limit, p[..n + 1]);
      EntryLeads(m, root, p[..n + 1]);
    }
  }

  lemma SlotStore(m: Memory, free: set<nat>, root: nat, limit: nat, p: Path, i: nat)
    requires UserSlot(m, free, root, limit, p, i)
    ensures Slot(m, root, UPPER_HALF, p, i)
    ensures At(m, root, p).Some? && At(m, root, p).value < |m| && i < ENTRIES
    ensures StoreAt(m, root, UPPER_HALF, p, i, ZERO_ENTRY) == Store(m, At(m, root, p).value, i, ZERO_ENTRY)
  {
  }

  lemma RootPath(m: Memory, root: nat)
    ensures At(m, root, []) == Some(root)
  {
  }

  lemma AbsentPath(m: Memory, root: nat, p: Path)
    requires At(m, root, p) == None
    ensures PathsExcept(m, m, root, UPPER_HALF, p, None)
  {
  }

  lemma OwnedPage(m: Memory, free: set<nat>, root: nat, limit: nat, p: Path)
    requires UserTree(m, free, root, limit) && Lower(p) && At(m, root, p).Some?
    ensures 0 < At(m, root, p).value < limit && At(m, root, p).value !in free
    ensures |p| == 4 ==> EntryAt(m, root, p).IsUser()
  {
  }

  lemma EntryLeads(m: Memory, root: nat, p: Path)
    requires p != [] && At(m, root, p).Some?
    ensures At(m, root, p) == Some(EntryAt(m, root, p).frame)
  {
  }

  method TableHasPresent(k: Machine, table: nat) returns (present: bool)
    requires table < |k.mem|
    ensures present <==> exists j: nat :: j < ENTRIES && k.mem[table][j].Present()
  {
    for i := 0 to ENTRIES
      invariant forall j: nat :: j < i ==> !k.mem[table][j].Present()
    {
      if k.mem[table][i].Present() { return true; }
    }
    return false;
  }

  ghost predicate NoLeaves(m: Memory, root: nat) {
    forall p: Path :: Lower(p) && |p| == 4 ==> At(m, root, p).None?
  }

  /** Tables strictly below `p` may be gone; mapped pages and all other paths are as before. */
  ghost predicate Pruned(m: Memory, m': Memory, root: nat, p: Path) {
    forall q: Path :: Lower(q) ==>
      At(m', root, q) == At(m, root, q) || (At(m', root, q).None? && p <= q && |p| < |q| <= 3)
  }

  lemma PrunedReflexive(m: Memory, root: nat, p: Path)
    ensures Pruned(m, m, root, p)
  {
  }

  /** Pruning below `p` and then below `p` or one of its entries is pruning below `p`. */
  lemma PrunedTransitive(m: Memory, m1: Memory, m': Memory, root: nat, p: Path, p': Path)
    requires Pruned(m, m1, root, p) && Pruned(m1, m', root, p') && p <= p'
    ensures Pruned(m, m', root, p) && (NoLeaves(m, root) ==> NoLeaves(m1, root))
  {
  }

  /** The first `n` entries of the table at path `p` lead nowhere. */
  ghost predicate Gone(m: Memory, root: nat, p: Path, n: nat) {
    forall j: nat :: j < n && Lower(p + [j]) ==> At(m, root, p + [j]).None?
  }

  lemma GoneNext(m: Memory, m': Memory, root: nat, p: Path, n: nat)
    requires Pruned(m, m', root, p) && Gone(m, root, p, n) && At(m', root, p + [n]).None?
    ensures Gone(m', root, p, n + 1)
  {
  }

  lemma GoneIsChildless(m: Memory, free: set<nat>, root: nat, limit: nat, p: Path)
    requires UserTree(m, free, root, limit) && p != [] && |p| <= 3 && Lower(p) && At(m, root, p).Some?
    requires Gone(m, root, p, ENTRIES)
    ensures Childless(m, root, p)
  {
    forall j: nat | j < ENTRIES
      ensures !Fetch(m, At(m, root, p).value, j).Present()
    {
      assert Lower(p + [j]);
      EnterSlot(m, free, root, limit, p, j);
    }
  }

  /** What a scan knows about entry `i` of the table at path `p` before it reads it. */
  lemma ScanEntry(m: Memory, m1: Memory, free: set<nat>, root: nat, limit: nat, p: Path, table: nat, i: nat)
    requires UserTree(m1, free, root, limit) && Pruned(m, m1, root, p) && |p| <= 2 && Lower(p) && i < ENTRIES
    requires (p != [] || i < UPPER_HALF) && At(m, root, p) == Some(table)
    ensures At(m1, root, p) == Some(table) && table < |m1| && Lower(p + [i])
    ensures At(m1, root, p + [i]) == if m1[table][i].Present() then Some(m1[table][i].frame) else None
    ensures m1[table][i].Present() ==> 0 < m1[table][i].frame < limit <= |m1|
    ensures m1[table][i].Present() && p != [] ==> !m1[table][i].IsHuge()
  {
    assert Lower(p + [i]);
    EnterSlot(m1, free, root, limit, p, i);
  }

  /** The step the three scans share: a table without present entries is given back and its entry
      in the table above is cleared. */
  method ReleaseIfEmpty(k: Machine, root: nat, ghost p: Path, table: nat, i: nat, child: nat) returns (released: bool)
    requires IsSpace(k, root) && |p| <= 2 && Lower(p + [i])
    requires At(k.mem, root, p) == Some(table) && At(k.mem, root, p + [i]) == Some(child)
    modifies k`mem, k.pmm, k.pmm.bits
    ensures IsSpace(k, root) && Conserved(old(k.mem), old(k.Free()), k.mem, k.Free(), root)
    ensures Pruned(old(k.mem), k.mem, root, p) && |k.mem| == |old(k.mem)|
    ensures forall q: Path :: Lower(q) && q != p + [i] ==> At(k.mem, root, q) == old(At(k.mem, root, q))
    ensures released ==> At(k.mem, root, p + [i]).None?
    ensures !released ==> k.mem == old(k.mem) && !Childless(k.mem, root, p + [i])
  {
    hide UserTree, Conserved, Owned, Pmm.Clear, At, EntryAt, LargePage, Tree;
    ghost var m, free, limit := k.mem, k.Free(), k.pmm.totalPages;
    EnterSlot(m, free, root, limit, p, i);
    InTree(m, free, root, limit, p + [i]);
    ConservedReflexive(m, free, root);
    var present := TableHasPresent(k, child);
    if present {
      ghost var j: nat :| j < ENTRIES && k.mem[child][j].Present();
      assert Fetch(k.mem, child, j).Present();
      return false;
    }
    k.pmm.FreePage(child);
    k.WriteEntry(table, i, ZERO_ENTRY);
    UnlinkPage(m, free, root, limit, p, i, child, k.mem);
    return true;
  }

  lemma InTree(m: Memory, free: set<nat>, root: nat, limit: nat, p: Path)
    requires UserTree(m, free, root, limit) && Lower(p) && At(m, root, p).Some?
    ensures 0 < At(m, root, p).value < limit <= |m|
  {
  }

  /** A last-level table with a present entry maps a page. */
  lemma HasLeaf(m: Memory, m1: Memory, free: set<nat>, root: nat, limit: nat, p: Path, i: nat)
    requires UserTree(m1, free, root, limit) && Pruned(m, m1, root, p) && |p| == 2 && Lower(p + [i])
    requires At(m1, root, p + [i]).Some? && !Childless(m1, root, p + [i])
    ensures !NoLeaves(m, root)
  {
    var q := p + [i];
    var j: nat :| j < ENTRIES && Fetch(m1, At(m1, root, q).value, j).Present();
    assert Lower(q + [j]);
    EnterSlot(m1, free, root, limit, q, j);
    assert At(m, root, q + [j]).Some?;
  }

  /** The innermost scan: gives back the empty last-level tables of the page directory at path `p`. */
  method ScanDirectory(k: Machine, root: nat, ghost p: Path, pd: nat) returns (empty: bool)
    requires IsSpace(k, root) && |p| == 2 && Lower(p) && At(k.mem, root, p) == Some(pd)
    modifies k`mem, k.pmm, k.pmm.bits
    ensures IsSpace(k, root) && Conserved(old(k.mem), old(k.Free()), k.mem, k.Free(), root)
    ensures Pruned(old(k.mem), k.mem, root, p)
    ensures NoLeaves(old(k.mem), root) ==> empty && Childless(k.mem, root, p)
  {
    hide UserTree, Conserved, Owned, Pruned, At, Lower, Gone, NoLeaves, Childless;
    ghost var m, free, limit := k.mem, k.Free(), k.pmm.totalPages;
    SpaceRoot(m, free, root, limit);
    ConservedReflexive(m, free, root);
    PrunedReflexive(m, root, p);
    empty := true;
    GoneStart(m, root, p);
    for i := 0 to ENTRIES
      modifies k`mem, k.pmm, k.pmm.bits
      invariant IsSpace(k, root) && Conserved(m, free, k.mem, k.Free(), root)
      invariant Pruned(m, k.mem, root, p)
      invariant NoLeaves(m, root) ==> empty && Gone(k.mem, root, p, i)
    {
      ghost var m1, free1 := k.mem, k.Free();
      ScanEntry(m, m1, free1, root, limit, p, pd, i);
      PrunedReflexive(m1, root, p);
      var e := k.mem[pd][i];
      if e.Present() {
        if e.IsHuge() { assert false; }
        var released := ReleaseIfEmpty(k, root, p, pd, i, e.frame);
        ConservedTransitive(m, free, m1, free1, k.mem, k.Free(), root);
        PrunedTransitive(m, m1, k.mem, root, p, p);
        if !released {
          HasLeaf(m, k.mem, k.Free(), root, limit, p, i);
          empty := false;
        }
      }
      if NoLeaves(m, root) { GoneNext(m1, k.mem, root, p, i); }
    }
    if NoLeaves(m, root) {
      ScanEntry(m, k.mem, k.Free(), root, limit, p, pd, 0);
      GoneIsChildless(k.mem, k.Free(), root, limit, p);
    }
  }

  lemma GoneStart(m: Memory, root: nat, p: Path)
    ensures Gone(m, root, p, 0)
  {
  }

  /** The middle scan: the same for the page directories of the pointer table at path `p`. */
  method ScanPointerTable(k: Machine, root: nat, ghost p: Path, pdpt: nat) returns (empty: bool)
    requires IsSpace(k, root) && |p| == 1 && Lower(p) && At(k.mem, root, p) == Some(pdpt)
    modifies k`mem, k.pmm, k.pmm.bits
    ensures IsSpace(k, root) && Conserved(old(k.mem), old(k.Free()), k.mem, k.Free(), root)
    ensures Pruned(old(k.mem), k.mem, root, p)
    ensures NoLeaves(old(k.mem), root) ==> empty && Childless(k.mem, root, p)
  {
    hide UserTree, Conserved, Owned, Pruned, At, Lower, Gone, NoLeaves, Childless;
    ghost var m, free, limit := k.mem, k.Free(), k.pmm.totalPages;
    SpaceRoot(m, free, root, limit);
    ConservedReflexive(m, free, root);
    PrunedReflexive(m, root, p);
    empty := true;
    GoneStart(m, root, p);
    for i := 0 to ENTRIES
      modifies k`mem, k.pmm, k.pmm.bits
      invariant IsSpace(k, root) && Conserved(m, free, k.mem, k.Free(), root)
      invariant Pruned(m, k.mem, root, p)
      invariant NoLeaves(m, root) ==> empty && Gone(k.mem, root, p, i)
    {
      ghost var m1, free1 := k.mem, k.Free();
      ScanEntry(m, m1, free1, root, limit, p, pdpt, i);
      PrunedReflexive(m1, root, p);
      var e := k.mem[pdpt][i];
      if e.Present() {
        if e.IsHuge() { assert false; }
        var pdEmpty := ScanDirectory(k, root, p + [i], e.frame);
        ghost var m2, free2 := k.mem, k.Free();
        ConservedTransitive(m, free, m1, free1, m2, free2, root);
        PrunedTransitive(m, m1, m2, root, p, p + [i]);
        PrunedTransitive(m1, m1, m2, root, p, p + [i]);
        PrunedItself(m1, m2, root, p, i);
        var released := false;
        if pdEmpty {
          released := ReleaseIfEmpty(k, root, p, pdpt, i, e.frame);
          ConservedTransitive(m, free, m2, free2, k.mem, k.Free(), root);
          PrunedTransitive(m, m2, k.mem, root, p, p);
          PrunedTransitive(m1, m2, k.mem, root, p, p);
        }
        if !released {
          empty := false;
        }
      }
      if NoLeaves(m, root) { GoneNext(m1, k.mem, root, p, i); }
    }
    if NoLeaves(m, root) {
      ScanEntry(m, k.mem, k.Free(), root, limit, p, pdpt, 0);
      GoneIsChildless(k.mem, k.Free(), root, limit, p);
    }
  }

  /** Pruning strictly below an entry leaves the entry and its table in place. */
  lemma PrunedItself(m: Memory, m': Memory, root: nat, p: Path, i: nat)
    requires Pruned(m, m', root, p + [i]) && Lower(p) && Lower(p + [i])
    ensures At(m', root, p) == At(m, root, p) && At(m', root, p + [i]) == At(m, root, p + [i])
  {
  }

  function AlignDown(v: nat): nat { v / PAGE_SIZE * PAGE_SIZE }
  function AlignUp(v: nat): nat { (v + PAGE_SIZE - 1) / PAGE_SIZE * PAGE_SIZE }

  /** The aligned range, its pages and its root entries. */
  lemma Aligned(start: nat, end: nat)
    requires start < end <= LOWER_END
    ensures var lo, hi := start / PAGE_SIZE, (end + PAGE_SIZE - 1) / PAGE_SIZE;
      && AlignDown(start) == lo * PAGE_SIZE && AlignUp(end) == hi * PAGE_SIZE
      && AlignDown(start) % PAGE_SIZE == 0 && AlignDown(start) / PAGE_SIZE == lo && AlignUp(end) % PAGE_SIZE == 0 && AlignUp(end) / PAGE_SIZE == hi
      && lo < hi <= LOWER_END / PAGE_SIZE && AlignUp(end) <= LOWER_END
      && AlignDown(start) / 0x80_0000_0000 == lo / PAGES_PER_TOP && (AlignUp(end) - 1) / 0x80_0000_0000 == (hi - 1) / PAGES_PER_TOP
      && lo / PAGES_PER_TOP <= (hi - 1) / PAGES_PER_TOP < UPPER_HALF
  {
    TopOf(start / PAGE_SIZE, 0);
    TopOf((end + PAGE_SIZE - 1) / PAGE_SIZE - 1, PAGE_SIZE - 1);
  }

  lemma TopOf(n: nat, r: nat)
    requires r < PAGE_SIZE
    ensures (n * PAGE_SIZE + r) / 0x80_0000_0000 == n / PAGES_PER_TOP
  {
    var q := n / PAGES_PER_TOP;
    assert n == q * PAGES_PER_TOP + n % PAGES_PER_TOP;
  }

  lemma NextPage(v: nat, last: nat)
    requires v % PAGE_SIZE == 0 && last % PAGE_SIZE == 0 && v < last
    ensures (v + PAGE_SIZE) % PAGE_SIZE == 0 && (v + PAGE_SIZE) / PAGE_SIZE == v / PAGE_SIZE + 1 <= last / PAGE_SIZE
  {
  }

  lemma LastPage(v: nat, last: nat)
    requires v % PAGE_SIZE == 0 && last % PAGE_SIZE == 0 && v >= last && v / PAGE_SIZE <= last / PAGE_SIZE
    ensures v == last
  {
  }

  /** No page from `lo` on to `v` is mapped. */
  ghost predicate Cleared(m: Memory, root: nat, lo: nat, v: nat) {
    forall p: Path :: Lower(p) && |p| == 4 && lo <= Unindex(p) < v ==> At(m, root, p).None?
  }

  /** Mapped pages outside `lo` to `hi` are where they were. */
  ghost predicate LeavesOutside(m: Memory, m': Memory, root: nat, lo: nat, hi: nat) {
    forall p: Path :: Lower(p) && |p| == 4 && !(lo <= Unindex(p) < hi) ==> At(m', root, p) == At(m, root, p)
  }

  ghost predicate TopsSame(m: Memory, m': Memory, root: nat, lo: nat, hi: nat) {
    forall i: nat :: i < UPPER_HALF && !(lo <= i < hi) ==> At(m', root, [i]) == At(m, root, [i])
  }

  lemma ClearStart(m: Memory, root: nat, lo: nat, hi: nat)
    ensures Cleared(m, root, lo, lo) && LeavesOutside(m, m, root, lo, hi) && TopsSame(m, m, root, 0, 0)
  {
  }

  lemma ClearNext(m: Memory, m1: Memory, m': Memory, root: nat, lo: nat, hi: nat, v: nat)
    requires v < LOWER_END && lo <= v / PAGE_SIZE < hi
    requires Cleared(m1, root, lo, v / PAGE_SIZE) && LeavesOutside(m, m1, root, lo, hi) && TopsSame(m, m1, root, 0, 0)
    requires PathsExcept(m1, m', root, UPPER_HALF, Indices(v), None)
    ensures Cleared(m', root, lo, v / PAGE_SIZE + 1) && LeavesOutside(m, m', root, lo, hi) && TopsSame(m, m', root, 0, 0)
  {
    hide Indices, Unindex, At;
    LowerIndices(v);
    forall p: Path | Lower(p) && |p| == 4 && lo <= Unindex(p) < v / PAGE_SIZE + 1
      ensures At(m', root, p).None?
    {
      UnindexInjective(p, Indices(v));
    }
    assert forall i: nat :: i < UPPER_HALF ==> Lower([i]);
  }

  lemma TopsNext(m: Memory, m1: Memory, m': Memory, root: nat, lo: nat, i: nat)
    requires lo <= i < UPPER_HALF && Pruned(m, m1, root, []) && TopsSame(m, m1, root, lo, i)
    requires Pruned(m1, m', root, []) && forall j: nat :: j < UPPER_HALF && j != i ==> At(m', root, [j]) == At(m1, root, [j])
    ensures Pruned(m, m', root, []) && TopsSame(m, m', root, lo, i + 1)
    ensures NoLeaves(m, root) ==> NoLeaves(m1, root)
  {
    PrunedTransitive(m, m1, m', root, [], []);
  }

  lemma OtherTops(m: Memory, m': Memory, root: nat, i: nat)
    requires i < UPPER_HALF && Pruned(m, m', root, [i])
    ensures forall j: nat :: j < UPPER_HALF ==> At(m', root, [j]) == At(m, root, [j])
  {
    assert forall j: nat :: j < UPPER_HALF ==> Lower([j]);
  }

  /** The outer scan, over the root entries `top` to `topEnd`. */
  method ScanTops(k: Machine, root: nat, top: nat, topEnd: nat)
    requires IsSpace(k, root) && top <= topEnd < UPPER_HALF
    modifies k`mem, k.pmm, k.pmm.bits
    ensures IsSpace(k, root) && Conserved(old(k.mem), old(k.Free()), k.mem, k.Free(), root)
    ensures Pruned(old(k.mem), k.mem, root, []) && TopsSame(old(k.mem), k.mem, root, top, topEnd + 1)
    ensures NoLeaves(old(k.mem), root) ==> forall j: nat :: top <= j <= topEnd ==> At(k.mem, root, [j]).None?
  {
    hide UserTree, Conserved, Owned, Pruned, At, Lower, NoLeaves, Childless, TopsSame;
    ghost var m, free, limit := k.mem, k.Free(), k.pmm.totalPages;
    SpaceRoot(m, free, root, limit);
    ConservedReflexive(m, free, root);
    PrunedReflexive(m, root, []);
    TopsReflexive(m, root, top);
    for i := top to topEnd + 1
      modifies k`mem, k.pmm, k.pmm.bits
      invariant IsSpace(k, root) && Conserved(m, free, k.mem, k.Free(), root)
      invariant Pruned(m, k.mem, root, []) && TopsSame(m, k.mem, root, top, i)
      invariant NoLeaves(m, root) ==> forall j: nat :: top <= j < i ==> At(k.mem, root, [j]).None?
    {
      ghost var m1, free1 := k.mem, k.Free();
      RootEntry(m, m1, free1, root, limit, i);
      PrunedReflexive(m1, root, []);
      var e := k.mem[root][i];
      if e.Present() {
        var pdptEmpty := ScanPointerTable(k, root, [i], e.frame);
        ghost var m2, free2 := k.mem, k.Free();
        ConservedTransitive(m, free, m1, free1, m2, free2, root);
        PrunedTransitive(m1, m1, m2, root, [], [i]);
        OtherTops(m1, m2, root, i);
        RootEntry(m1, m2, free2, root, limit, i);
        if pdptEmpty {
          var released := ReleaseIfEmpty(k, root, [], root, i, e.frame);
          ConservedTransitive(m, free, m2, free2, k.mem, k.Free(), root);
          PrunedTransitive(m1, m2, k.mem, root, [], []);
          SingleTops();
        }
      }
      TopsNext(m, m1, k.mem, root, top, i);
    }
  }

  lemma SingleTops()
    ensures forall j: nat :: j < UPPER_HALF ==> Lower([j])
    ensures forall i: nat :: [] + [i] == [i]
  {
  }

  lemma TopsReflexive(m: Memory, root: nat, top: nat)
    ensures TopsSame(m, m, root, top, top)
  {
  }

  lemma RootEntry(m: Memory, m1: Memory, free: set<nat>, root: nat, limit: nat, i: nat)
    requires UserTree(m1, free, root, limit) && i < UPPER_HALF
    ensures root < |m1| && At(m1, root, []) == Some(root) && Lower([i]) && [] + [i] == [i]
    ensures At(m1, root, [i]) == if m1[root][i].Present() then Some(m1[root][i].frame) else None
  {
    SpaceRoot(m1, free, root, limit);
    PrunedReflexive(m1, root, []);
    ScanEntry(m1, m1, free, root, limit, [], root, i);
    assert [] + [i] == [i];
  }

  /** After both scans the space owns nothing exactly when everything was in the range. */
  lemma NothingLeft(m: Memory, m2: Memory, m3: Memory, free3: set<nat>, root: nat, limit: nat, lo: nat, hi: nat)
    requires lo < hi && hi <= LOWER_END / PAGE_SIZE && |m| == |m3|
    requires Cleared(m2, root, lo, hi) && LeavesOutside(m, m2, root, lo, hi) && TopsSame(m, m2, root, 0, 0)
    requires Pruned(m2, m3, root, []) && TopsSame(m2, m3, root, lo / PAGES_PER_TOP, (hi - 1) / PAGES_PER_TOP + 1)
    requires NoLeaves(m2, root) ==>
               forall j: nat :: lo / PAGES_PER_TOP <= j <= (hi - 1) / PAGES_PER_TOP ==> At(m3, root, [j]).None?
    requires UserTree(m3, free3, root, limit)
    ensures Owned(m3, root) == {} <==> Confined(m, root, lo, hi)
  {
    hide Unindex, UserTree;
    if Confined(m, root, lo, hi) {
      assert NoLeaves(m2, root);
      forall i: nat | i < UPPER_HALF
        ensures At(m3, root, [i]).None?
      {
        if lo / PAGES_PER_TOP <= i <= (hi - 1) / PAGES_PER_TOP { } else { }
      }
      forall p: Path | Lower(p) && p != []
        ensures At(m3, root, p).None?
      {
        assert [p[0]] <= p;
        DeadBelow(m3, root, [p[0]], p);
      }
    }
    if Owned(m3, root) == {} {
      forall p: Path | Lower(p) && p != []
        ensures At(m3, root, p).None?
      {
        NotHeld(m3, free3, root, limit, p);
      }
      assert forall i: nat :: i < UPPER_HALF ==> Lower([i]);
    }
  }

  lemma NotHeld(m: Memory, free: set<nat>, root: nat, limit: nat, p: Path)
    requires UserTree(m, free, root, limit) && Lower(p) && p != []
    ensures At(m, root, p).Some? ==> At(m, root, p).value in Owned(m, root)
  {
    assert At(m, root, p).Some? ==> Holds(m, root, At(m, root, p).value);
  }

  lemma ConservedFrames(m: Memory, free: set<nat>, m': Memory, free': set<nat>, root: nat)
    requires Conserved(m, free, m', free', root)
    ensures |m'| == |m| && root < |m|
    ensures forall f: nat :: f < |m| && f !in free && f !in Owned(m, root) && f != root ==> m'[f] == m[f]
    ensures forall j: nat :: UPPER_HALF <= j < ENTRIES ==> m'[root][j] == m[root][j]
  {
  }

  /** The pages that are free once the root is given back too. */
  lemma WhatIsLeft(m: Memory, free: set<nat>, m': Memory, free': set<nat>, root: nat, limit: nat)
    requires UserTree(m, free, root, limit) && UserTree(m', free', root, limit) && Conserved(m, free, m', free', root)
    ensures free' + {root} <= free + Owned(m, root) + {root}
    ensures free' + {root} == free + Owned(m, root) + {root} <==> Owned(m', root) == {}
  {
    OwnedApart(m', free', root, limit);
    OwnedApart(m, free, root, limit);
    hide UserTree, Owned;
    if free' + {root} == free + Owned(m, root) + {root} {
      assert Owned(m', root) <= free' + {root};
      assert Owned(m', root) == Owned(m', root) * (free' + {root});
    }
  }

  lemma OwnedApart(m: Memory, free: set<nat>, root: nat, limit: nat)
    requires UserTree(m, free, root, limit)
    ensures Owned(m, root) !! free && root !in Owned(m, root)
    ensures forall f <- Owned(m, root) :: 0 < f < limit
  {
    assert At(m, root, []) == Some(root);
  }

  /** Takes an address space apart: gives back the pages mapped in the range, then the tables that
      are empty, then the root. It gives back the whole space exactly when nothing was mapped, and
      no root entry used, outside the range. */
  method FreeUserSpace(k: Machine, root: nat, start: nat, end: nat)
    requires k.Valid() && (root != 0 ==> IsSpace(k, root)) && end <= LOWER_END
    modifies k`mem, k.pmm, k.pmm.bits
    ensures k.Valid() && |k.mem| == |old(k.mem)|
    ensures root == 0 || end <= start ==> k.mem == old(k.mem) && k.Free() == old(k.Free())
    ensures k.Free() <= old(k.Free()) + old(Owned(k.mem, root)) + {root}
    ensures root != 0 && start < end ==>
      (k.Free() == old(k.Free()) + old(Owned(k.mem, root)) + {root} <==>
      old(Confined(k.mem, root, start / PAGE_SIZE, (end + PAGE_SIZE - 1) / PAGE_SIZE)))
    ensures forall f: nat :: f < |k.mem| && f !in old(k.Free()) && f !in old(Owned(k.mem, root)) && f != root ==>
              k.mem[f] == old(k.mem)[f]
    ensures forall j: nat :: UPPER_HALF <= j < ENTRIES ==> Fetch(k.mem, root, j) == Fetch(old(k.mem), root, j)
  {
    hide UserTree, Owned, PathsExcept, At, Indices, Lower, Confined, Cleared, LeavesOutside, Conserved, Unindex, Pruned, Gone, TopsSame, NoLeaves, AlignDown, AlignUp;
    if root == 0 || end <= start { return; }
    ghost var m, free, limit := k.mem, k.Free(), k.pmm.totalPages;
    ghost var lo, hi := start / PAGE_SIZE, (end + PAGE_SIZE - 1) / PAGE_SIZE;
    var first, last := AlignDown(start), AlignUp(end);
    Aligned(start, end);
    SpaceRoot(m, free, root, limit);
    ConservedReflexive(m, free, root);
    ClearStart(m, root, lo, hi);

    var v := first;
    while v < last
      invariant IsSpace(k, root) && Conserved(m, free, k.mem, k.Free(), root)
      invariant v % PAGE_SIZE == 0 && lo <= v / PAGE_SIZE <= hi
      invariant Cleared(k.mem, root, lo, v / PAGE_SIZE) && LeavesOutside(m, k.mem, root, lo, hi)
      invariant TopsSame(m, k.mem, root, 0, 0)
    {
      ghost var m1, free1 := k.mem, k.Free();
      NextPage(v, last);
      ClearLeaf(k, root, v);
      ConservedTransitive(m, free, m1, free1, k.mem, k.Free(), root);
      ClearNext(m, m1, k.mem, root, lo, hi, v);
      v := v + PAGE_SIZE;
    }

    LastPage(v, last);
    ghost var m2, free2 := k.mem, k.Free();
    var top := first / 0x80_0000_0000;
    var topEnd := (last - 1) / 0x80_0000_0000;
    ScanTops(k, root, top, topEnd);
    ConservedTransitive(m, free, m2, free2, k.mem, k.Free(), root);
    ghost var m3, free3 := k.mem, k.Free();
    ConservedFrames(m, free, m3, free3, root);
    NothingLeft(m, m2, m3, free3, root, limit, lo, hi);
    WhatIsLeft(m, free, m3, free3, root, limit);
    k.pmm.FreePage(root);
  }

  /** Maps ranges between two addresses until one of them cannot be mapped. */
  method MapRanges(k: Machine, root: nat, ranges: seq<(nat, nat)>, ghost start: nat, ghost end: nat) returns (loaded: bool)
    requires IsSpace(k, root) && start < end <= LOWER_END
    requires forall r <- ranges :: start <= r.0 && r.1 <= end
    requires Confined(k.mem, root, start / PAGE_SIZE, (end + PAGE_SIZE - 1) / PAGE_SIZE)
    modifies k`mem, k.pmm, k.pmm.bits
    ensures IsSpace(k, root) && Conserved(old(k.mem), old(k.Free()), k.mem, k.Free(), root)
    ensures Confined(k.mem, root, start / PAGE_SIZE, (end + PAGE_SIZE - 1) / PAGE_SIZE)
    ensures StaysOpen(old(k.mem), k.mem, root) && DataKept(old(k.mem), k.mem, root)
  {
    hide UserTree, Owned, Conserved, Confined, Pmm.Clear, Throughout, MissesLast, AllMapped, StaysOpen, DataKept, Usable, FreshIsZero, At, Indices;
    ghost var m, free := k.mem, k.Free();
    ghost var lo, hi := start / PAGE_SIZE, (end + PAGE_SIZE - 1) / PAGE_SIZE;
    SpaceRoot(m, free, root, k.pmm.totalPages);
    ConservedReflexive(m, free, root);
    NothingDone(m, free, root, k.pmm.totalPages);
    loaded := true;
    for i := 0 to |ranges|
      modifies k`mem, k.pmm, k.pmm.bits
      invariant IsSpace(k, root) && Conserved(m, free, k.mem, k.Free(), root) && Confined(k.mem, root, lo, hi)
      invariant StaysOpen(m, k.mem, root) && DataKept(m, k.mem, root)
    {
      ghost var m1, free1 := k.mem, k.Free();
      loaded := MapUserRange(k, root, ranges[i].0, ranges[i].1, lo, hi);
      ConservedTransitive(m, free, m1, free1, k.mem, k.Free(), root);
      OpenOn(m, m1, k.mem, root);
      if !loaded { break; }
    }
  }

  /** The life of an address space: cloned, filled with ranges between two addresses until one of
      them cannot be mapped, and taken apart. Whatever the ranges and wherever memory runs out, the
      allocator has the pages it had, and every page that was in use is untouched. */
  method LiveAndDie(k: Machine, ranges: seq<(nat, nat)>, start: nat, end: nat) returns (started: bool, loaded: bool)
    requires k.Valid() && k.cr3 < |k.mem| && k.cr3 !in k.Free() && start < end <= LOWER_END
    requires forall r <- ranges :: start <= r.0 && r.1 <= end
    modifies k`mem, k.pmm, k.pmm.bits
    ensures k.Valid() && |k.mem| == |old(k.mem)| && k.Free() == old(k.Free())
    ensures forall f: nat :: f < |k.mem| && f !in old(k.Free()) ==> k.mem[f] == old(k.mem)[f]
    ensures started <==> old(k.Free()) != {}
  {
    hide UserTree, Owned, Conserved, Confined, Pmm.Clear, Throughout, MissesLast, AllMapped, StaysOpen, DataKept, Usable, FreshIsZero, At, Indices;
    ghost var m0, free0 := k.mem, k.Free();
    ghost var lo, hi := start / PAGE_SIZE, (end + PAGE_SIZE - 1) / PAGE_SIZE;
    loaded := false;
    var root := ClonePml4(k);
    started := root != 0;
    if !started { return; }
    ghost var m, free := k.mem, k.Free();
    NothingMapped(m, free, root, k.pmm.totalPages, lo, hi);
    SpaceRoot(m, free, root, k.pmm.totalPages);
    ConservedReflexive(m, free, root);
    loaded := MapRanges(k, root, ranges, start, end);
    ConservedFrames(m, free, k.mem, k.Free(), root);
    ConservedPages(m, free, k.mem, k.Free(), root);
    FreeUserSpace(k, root, start, end);
  }

  lemma NothingMapped(m: Memory, free: set<nat>, root: nat, limit: nat, lo: nat, hi: nat)
    requires UserTree(m, free, root, limit) && Owned(m, root) == {}
    ensures Confined(m, root, lo, hi)
  {
    forall p: Path | Lower(p) && p != []
      ensures At(m, root, p).None?
    {
      NotHeld(m, free, root, limit, p);
    }
    assert forall i: nat :: i < UPPER_HALF ==> Lower([i]);
  }

  lemma ConservedPages(m: Memory, free: set<nat>, m': Memory, free': set<nat>, root: nat)
    requires Conserved(m, free, m', free', root)
    ensures free' + Owned(m', root) == free + Owned(m, root)
  {
  }
}
