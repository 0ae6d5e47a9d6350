/** The virtual memory manager of kernel/src/mm/vmm.c: walks and edits the tree of the root
    table in use, taking pages for missing tables from the page allocator. */
module Vmm {
  import opened PageTree
  import opened Hardware
  import opened Addresses
  import Pmm

  // ----- What the walk does, on values

  /** The number of tables missing on the way to the last-level table of a path. */
  ghost function Missing(m: Memory, root: nat, p: Path): nat
    requires |p| == 4
  {
    if At(m, root, p[..1]).None? then 3
    else if At(m, root, p[..2]).None? then 2
    else if At(m, root, p[..3]).None? then 1
    else 0
  }

  /** The physical address the processor computes for a virtual address. */
  ghost function Translate(m: Memory, root: nat, v: nat): Option<nat> {
    match Find(m, root, Indices(v))
    case None => None
    case Some(Mapping(2, e)) => Some(e.frame / 0x4_0000 * 0x4000_0000 + v % 0x4000_0000)
    case Some(Mapping(3, e)) => Some(e.frame / 0x200 * 0x20_0000 + v % 0x20_0000)
    case Some(Mapping(_, e)) => Some(e.frame * PAGE_SIZE + v % PAGE_SIZE)
  }

  /** The page number the kernel's own walk comes to: unlike the processor it follows every present
      entry, that of a large page as well. */
  ghost function Followed(m: Memory, root: nat, p: Path): Option<nat> {
    if p == [] then Some(root) else
    match Followed(m, root, Front(p))
    case None => None
    case Some(t) => if Fetch(m, t, Last(p)).Present() then Some(Fetch(m, t, Last(p)).frame) else None
  }

  /** The last entry that walk reads. */
  ghost function FollowedEntry(m: Memory, root: nat, p: Path): Entry
    requires p != []
  {
    match Followed(m, root, Front(p))
    case None => ZERO_ENTRY
    case Some(t) => Fetch(m, t, Last(p))
  }

  /** Every page that walk reads lies in memory. */
  ghost predicate FollowsInMemory(m: Memory, root: nat, p: Path)
    requires |p| == 4
  {
    forall n: nat :: n <= 3 && Followed(m, root, p[..n]).Some? ==> Followed(m, root, p[..n]).value < |m|
  }

  /** The physical address the kernel computes for a virtual address. */
  ghost function Computed(m: Memory, root: nat, v: nat): Option<nat> {
    var e := FollowedEntry(m, root, Indices(v));
    if e.Present() then Some(e.frame * PAGE_SIZE + v % PAGE_SIZE) else None
  }

  /** Without large pages on the path, the kernel's walk is the processor's. */
  lemma FollowsTree(m: Memory, root: nat, p: Path)
    requires IsPath(p) && |p| == 4 && SmallPagesOnly(m, root, p)
    ensures forall n: nat :: n <= 3 ==> Followed(m, root, p[..n]) == At(m, root, p[..n])
    ensures FollowedEntry(m, root, p) == EntryAt(m, root, p)
  {
    Prefix(p, 0);
    Prefix(p, 1);
    Prefix(p, 2);
    Prefix(p, 3);
    assert p[..0] == [] && p[..4] == p;
  }

  /** Before, at and after the steps of a walk that changes nothing. */
  lemma FollowStart(m: Memory, root: nat, p: Path)
    requires |p| == 4
    ensures Followed(m, root, p[..0]) == Some(root)
  {
  }

  lemma FollowStep(m: Memory, root: nat, p: Path, n: nat, table: nat)
    requires IsPath(p) && |p| == 4 && n < 3 && FollowsInMemory(m, root, p) && Followed(m, root, p[..n]) == Some(table)
    ensures table < |m| && p[n] < ENTRIES
    ensures Fetch(m, table, p[n]).Present() ==> Followed(m, root, p[..n + 1]) == Some(Fetch(m, table, p[n]).frame)
    ensures !Fetch(m, table, p[n]).Present() ==> !FollowedEntry(m, root, p).Present()
  {
    Prefix(p, n);
    if !Fetch(m, table, p[n]).Present() {
      assert Followed(m, root, p[..n + 1]) == None;
      assert Front(p) == p[..3];
      Prefix(p, 1);
      Prefix(p, 2);
    }
  }

  lemma FollowEnd(m: Memory, root: nat, p: Path)
    requires IsPath(p) && |p| == 4 && FollowsInMemory(m, root, p)
    ensures Followed(m, root, Front(p)).Some? ==> Followed(m, root, Front(p)).value < |m|
    ensures Front(p) == p[..3] && FollowedEntry(m, root, p) ==
            match Followed(m, root, p[..3]) case None => ZERO_ENTRY case Some(t) => Fetch(m, t, p[3])
  {
  }

  /** Memory after the last entry of the kernel's walk was cleared, if it was present. */
  ghost function Cleared(m: Memory, root: nat, p: Path): Memory
    requires IsPath(p) && |p| == 4
  {
    match Followed(m, root, Front(p))
    case None => m
    case Some(t) =>
      if t < |m| && FollowedEntry(m, root, p).Present() then Store(m, t, p[3], ZERO_ENTRY) else m
  }

  lemma OwnedInMemory(m: Memory, free: set<nat>, root: nat, p: Path)
    requires Sound(m, free, root, ENTRIES) && IsPath(p) && |p| == 4 && SmallPagesOnly(m, root, p)
    ensures FollowsInMemory(m, root, p)
  {
    FollowsTree(m, root, p);
  }

  lemma SmallPagesFind(m: Memory, root: nat, p: Path)
    requires |p| == 4
    ensures SmallPagesOnly(m, root, p) <==> Find(m, root, p).None? || Find(m, root, p).value.level == 4
  {
  }

  /** Prefixes of a path, as a walk meets them. */
  lemma Prefix(p: Path, k: nat)
    requires IsPath(p) && |p| == 4 && k < 4
    ensures Front(p[..k + 1]) == p[..k] && Last(p[..k + 1]) == p[k] && p[..k] + [p[k]] == p[..k + 1]
    ensures Within(p[..k], ENTRIES) && Within(p[..k + 1], ENTRIES)
  {
  }

  /** The tables of the tree are those of before and the pages that were free and are not any more. */
  ghost predicate TablesTaken(m: Memory, free: set<nat>, m': Memory, free': set<nat>, root: nat) {
    forall t: nat ::
      IsTable(m', root, ENTRIES, t) <==> IsTable(m, root, ENTRIES, t) || (t in free && t !in free')
  }

  /** What walks do to a memory and its free pages: the tree grows by tables on pages that were
      free, everything maps as before, and pages that were neither free nor tables are untouched. */
  ghost predicate Grown(m: Memory, free: set<nat>, m': Memory, free': set<nat>, root: nat) {
    && Sound(m', free', root, ENTRIES) && |m'| == |m| && free' <= free
    && SameMappings(m, m', root, ENTRIES)
    && TablesTaken(m, free, m', free', root)
    && (forall f: nat :: f < |m| && f !in free && !IsTable(m, root, ENTRIES, f) ==> m'[f] == m[f])
  }

  lemma GrownReflexive(m: Memory, free: set<nat>, root: nat, p: Path)
    requires Sound(m, free, root, ENTRIES)
    ensures Grown(m, free, m, free, root)
    ensures PathsExcept(m, m, root, ENTRIES, p, At(m, root, p))
  {
  }

  lemma GrownTransitive(m: Memory, free: set<nat>, m': Memory, free': set<nat>, m'': Memory, free'': set<nat>, root: nat)
    requires Grown(m, free, m', free', root) && Grown(m', free', m'', free'', root)
    ensures Grown(m, free, m'', free'', root)
  {
  }

  lemma GrowByFlags(m: Memory, free: set<nat>, root: nat, p: Path, i: nat, extra: bv12, m': Memory)
    requires Slot(m, root, ENTRIES, p, i) && |p| <= 2 && extra == USER
    requires Sound(m, free, root, ENTRIES)
    requires At(m, root, p + [i]).Some?
    requires m' == StoreAt(m, root, ENTRIES, p, i, EntryAt(m, root, p + [i]).With(extra))
    ensures Grown(m, free, m', free, root) && Sound(m', free, root, ENTRIES)
    ensures PathsExcept(m, m', root, ENTRIES, p + [i], At(m, root, p + [i]))
  {
    assert IsTable(m, root, ENTRIES, At(m, root, p).value);
    StoreFlagsKeeps(m, root, ENTRIES, p, i, extra, m');
  }

  lemma GrowByLink(m: Memory, free: set<nat>, root: nat, p: Path, i: nat, page: nat, extra: bv12, zeroed: Memory, m': Memory)
    requires Slot(m, root, ENTRIES, p, i) && |p| <= 2 && (extra == 0 || extra == USER)
    requires Sound(m, free, root, ENTRIES)
    requires !EntryAt(m, root, p + [i]).Present()
    requires page in free && page < |m| && |zeroed| == |m| && zeroed == m[page := zeroed[page]] && AllZero(zeroed[page])
    requires m' == Store(zeroed, At(m, root, p).value, i, Entry(page, PRESENT | WRITABLE | extra))
    ensures Grown(m, free, m', free - {page}, root) && Sound(m', free - {page}, root, ENTRIES)
    ensures PathsExcept(m, m', root, ENTRIES, p + [i], Some(page))
  {
    hide Find, SameMappings, PathsExcept, Tree, IsTable;
    var e := Entry(page, PRESENT | WRITABLE | extra);
    assert e.Present() && !e.IsHuge() by { NewEntry(extra); }
    ZeroedPage(m, free, root, p, i, page, zeroed);
    TableInMemory(m, free, root, ENTRIES, p);
    LinkKeeps(zeroed, root, ENTRIES, p, i, e, m');
    SameThenLinked(m, zeroed, m', root, p + [i], page);
    SoundPlus(m, free, zeroed, m', root, page);
  }

  lemma NewEntry(extra: bv12)
    requires extra == 0 || extra == USER
    ensures (PRESENT | WRITABLE | extra) & PRESENT != 0 && (PRESENT | WRITABLE | extra) & HUGE == 0
  {
  }

  /** Zeroing a free page changes nothing in the tree. */
  lemma ZeroedPage(m: Memory, free: set<nat>, root: nat, p: Path, i: nat, page: nat, zeroed: Memory)
    requires Sound(m, free, root, ENTRIES) && page in free && page < |m| && |zeroed| == |m| && zeroed == m[page := zeroed[page]]
    requires Slot(m, root, ENTRIES, p, i)
    ensures Slot(zeroed, root, ENTRIES, p, i) && At(zeroed, root, p) == At(m, root, p)
    ensures EntryAt(zeroed, root, p + [i]) == EntryAt(m, root, p + [i])
    ensures SameMappings(m, zeroed, root, ENTRIES) && PathsExcept(m, zeroed, root, ENTRIES, [], Some(root))
    ensures TablesPlus(m, zeroed, root, ENTRIES, {}) && !IsTable(zeroed, root, ENTRIES, page)
  {
    hide Find, SameMappings;
    WriteOutsideKeeps(m, root, ENTRIES, page, zeroed[page], zeroed);
    WriteOutside(m, root, ENTRIES, page, zeroed[page], p + [i]);
  }

  lemma SoundPlus(m: Memory, free: set<nat>, zeroed: Memory, m': Memory, root: nat, page: nat)
    requires Sound(m, free, root, ENTRIES) && page in free && Tree(m', root, ENTRIES)
    requires TablesPlus(m, zeroed, root, ENTRIES, {}) && TablesPlus(zeroed, m', root, ENTRIES, {page})
    ensures Sound(m', free - {page}, root, ENTRIES) && TablesTaken(m, free, m', free - {page}, root)
  {
    hide Tree, IsTable;
  }

  lemma SameThenLinked(m: Memory, zeroed: Memory, m': Memory, root: nat, p: Path, page: nat)
    requires SameMappings(m, zeroed, root, ENTRIES) && SameMappings(zeroed, m', root, ENTRIES)
    requires PathsExcept(m, zeroed, root, ENTRIES, [], Some(root))
    requires PathsExcept(zeroed, m', root, ENTRIES, p, Some(page))
    ensures SameMappings(m, m', root, ENTRIES) && PathsExcept(m, m', root, ENTRIES, p, Some(page))
  {
  }

  lemma GrownKeeps(m: Memory, free: set<nat>, m': Memory, free': set<nat>, root: nat)
    requires Grown(m, free, m', free', root)
    ensures Sound(m', free', root, ENTRIES) && SameMappings(m, m', root, ENTRIES) && |m'| == |m| && free' <= free
    ensures TablesTaken(m, free, m', free', root)
  {
  }

  /** The effect of mapping one page: its path finds entry `e`, or nothing when `e` is not
      present; every other path finds what it found. */
  ghost predicate MapsOnly(m: Memory, m': Memory, root: nat, p: Path, e: Entry) {
    && |p| == 4
    && Find(m', root, p) == (if e.Present() then Some(Mapping(4, e)) else None)
    && forall q: Path :: IsPath(q) && |q| == 4 && q != p ==> Find(m', root, q) == Find(m, root, q)
  }

  /** The slot of a last-level entry. */
  lemma LeafSlot(m: Memory, free: set<nat>, root: nat, p: Path)
    requires Sound(m, free, root, ENTRIES) && IsPath(p) && |p| == 4 && At(m, root, Front(p)).Some?
    ensures Slot(m, root, ENTRIES, Front(p), p[3]) && Front(p) + [p[3]] == p && |Front(p)| == 3
    ensures At(m, root, Front(p)).value < |m|
  {
    TableInMemory(m, free, root, ENTRIES, Front(p));
  }

  lemma MapLeaf(m0: Memory, free0: set<nat>, m: Memory, m': Memory, free: set<nat>, root: nat, p: Path, e: Entry)
    requires Grown(m0, free0, m, free, root) && IsPath(p) && |p| == 4 && At(m, root, Front(p)).Some?
    requires At(m, root, Front(p)).value < |m|
    requires m' == Store(m, At(m, root, Front(p)).value, p[3], e)
    ensures Sound(m', free, root, ENTRIES) && MapsOnly(m0, m', root, p, e)
    ensures |m'| == |m0| && free <= free0 && TablesTaken(m0, free0, m', free, root)
  {
    LeafSlot(m, free, root, p);
    StoreLeafKeeps(m, root, ENTRIES, Front(p), p[3], e, m');
  }

  lemma UnmapNothing(m: Memory, root: nat, p: Path)
    requires |p| == 4 && SmallPagesOnly(m, root, p) && !EntryAt(m, root, p).Present()
    ensures MapsOnly(m, m, root, p, ZERO_ENTRY)
  {
  }

  /** Mapping one page, seen as a change of the address map: the page of `virt` goes to the new
      frame with the offset kept, every other address goes where it went. */
  lemma MapsOnlyTranslates(m: Memory, m': Memory, root: nat, virt: nat, e: Entry, w: nat)
    requires MapsOnly(m, m', root, Indices(virt), e)
    ensures Translate(m', root, w) ==
            if PageOf(w) != PageOf(virt) then Translate(m, root, w)
            else if e.Present() then Some(e.frame * PAGE_SIZE + w % PAGE_SIZE) else None
  {
    hide Indices, Find, PageOf;
    SamePageSameIndices(virt, w);
  }

  // ----- Large pages

  /** The frame of the large page that a path runs through. */
  ghost function LargeFrame(m: Memory, root: nat, p: Path): nat
    requires |p| == 4 && !SmallPagesOnly(m, root, p)
  {
    if LargePage(m, root, p[..2]) then EntryAt(m, root, p[..2]).frame else EntryAt(m, root, p[..3]).frame
  }

  /** The tables of the tree have the same content in both memories. */
  ghost predicate SameTables(m: Memory, m': Memory, root: nat) {
    |m'| == |m| && forall t: nat :: t < |m| && IsTable(m, root, ENTRIES, t) ==> m'[t] == m[t]
  }

  lemma {:induction false} SameTablesSamePaths(m: Memory, m': Memory, root: nat, p: Path)
    requires Tree(m, root, ENTRIES) && SameTables(m, m', root) && Within(p, ENTRIES)
    ensures At(m', root, p) == At(m, root, p)
    ensures p != [] ==> EntryAt(m', root, p) == EntryAt(m, root, p)
  {
    hide Tree;
    if p != [] {
      SameTablesSamePaths(m, m', root, Front(p));
      if At(m, root, Front(p)).Some? { TableInMemory(m, {}, root, ENTRIES, Front(p)); }
    }
  }

  /** The kernel's walk computes the translation of an address whatever the pages that are no
      tables hold, if and only if no large page lies on the path. */
  lemma ComputedIsTranslation(m: Memory, root: nat, virt: nat)
    requires Tree(m, root, ENTRIES)
    requires !SmallPagesOnly(m, root, Indices(virt)) ==>
               var f := LargeFrame(m, root, Indices(virt)); f < |m| && !IsTable(m, root, ENTRIES, f)
    ensures SmallPagesOnly(m, root, Indices(virt)) <==>
            forall m': Memory :: SameTables(m, m', root) ==> Computed(m', root, virt) == Translate(m', root, virt)
  {
    hide Tree, IsTable, Indices;
    var p := Indices(virt);
    if SmallPagesOnly(m, root, p) {
      forall m': Memory | SameTables(m, m', root)
        ensures Computed(m', root, virt) == Translate(m', root, virt)
      {
        SameLarge(m, m', root, p);
        FollowsTree(m', root, p);
      }
    } else {
      var f := LargeFrame(m, root, p);
      var m' := m[f := ZeroTable()];
      assert SameTables(m, m', root);
      SameLarge(m, m', root, p);
      LargeIsMissed(m', root, p);
      assert Computed(m', root, virt) != Translate(m', root, virt);
    }
  }

  lemma SameLarge(m: Memory, m': Memory, root: nat, p: Path)
    requires Tree(m, root, ENTRIES) && SameTables(m, m', root) && IsPath(p) && |p| == 4
    ensures SmallPagesOnly(m', root, p) <==> SmallPagesOnly(m, root, p)
    ensures !SmallPagesOnly(m, root, p) ==> LargeFrame(m', root, p) == LargeFrame(m, root, p)
  {
    SameTablesSamePaths(m, m', root, p[..2]);
    SameTablesSamePaths(m, m', root, p[..3]);
  }

  /** A large page full of zeros: the processor finds the page, the kernel finds nothing. */
  lemma LargeIsMissed(m: Memory, root: nat, p: Path)
    requires IsPath(p) && |p| == 4 && !SmallPagesOnly(m, root, p)
    requires LargeFrame(m, root, p) < |m| && AllZero(m[LargeFrame(m, root, p)])
    ensures Find(m, root, p).Some? && !FollowedEntry(m, root, p).Present()
  {
    Prefix(p, 0);
    Prefix(p, 1);
    Prefix(p, 2);
    Prefix(p, 3);
    assert p[..0] == [] && p[..4] == p;
    var f := LargeFrame(m, root, p);
    assert !ZERO_ENTRY.Present();
    assert Followed(m, root, p[..1]) == At(m, root, p[..1]);
    if LargePage(m, root, p[..2]) {
      assert Followed(m, root, p[..2]) == Some(f) && Fetch(m, f, p[2]) == ZERO_ENTRY;
      assert Followed(m, root, p[..3]) == None;
    } else {
      assert Followed(m, root, p[..2]) == At(m, root, p[..2]);
      assert Followed(m, root, p[..3]) == Some(f) && Fetch(m, f, p[3]) == ZERO_ENTRY;
    }
    assert Front(p) == p[..3];
  }

  /** Unmapping an address in a large page unmaps nothing: every address stays as it was. */
  lemma LargeStaysMapped(m: Memory, root: nat, p: Path)
    requires Tree(m, root, ENTRIES) && IsPath(p) && |p| == 4 && FollowsInMemory(m, root, p)
    requires Followed(m, root, Front(p)).Some? ==> !IsTable(m, root, ENTRIES, Followed(m, root, Front(p)).value)
    ensures SameMappings(m, Cleared(m, root, p), root, ENTRIES)
    ensures Tree(Cleared(m, root, p), root, ENTRIES)
  {
    FollowEnd(m, root, p);
    if Cleared(m, root, p) != m {
      var t := Followed(m, root, Front(p)).value;
      WriteOutsideKeeps(m, root, ENTRIES, t, m[t][p[3] := ZERO_ENTRY], Cleared(m, root, p));
    }
  }

  /** What one step of the walk does with the entry it reads. */
  ghost predicate Stepped(m: Memory, free: set<nat>, m': Memory, free': set<nat>,
                          table: nat, i: nat, create: bool, extra: bv12, ret: int, next: nat) {
    && table < |m| && i < ENTRIES
    && var e := Fetch(m, table, i);
       if e.Present() then
         ret == 1 && next == e.frame && free' == free && m' == if extra != 0 then Store(m, table, i, e.With(extra)) else m
       else if !create || free == {} then ret == (if create then -1 else 0) && m' == m && free' == free
       else
         && ret == 1 && next in free && next < |m| && free' == free - {next}
         && m' == Store(m[next := ZeroTable()], table, i, Entry(next, PRESENT | WRITABLE | extra))
  }

  /** Every address goes where it went. */
  ghost predicate SameTranslations(m: Memory, m': Memory, root: nat) {
    forall w: nat :: Translate(m', root, w) == Translate(m, root, w)
  }

  /** A page of memory that is neither free nor a table. */
  ghost predicate Apart(m: Memory, free: set<nat>, root: nat, f: nat) {
    f < |m| && f !in free && !IsTable(m, root, ENTRIES, f)
  }

  /** The level of the large page on a path: 2 for 1 GiB, 3 for 2 MiB. */
  ghost function LargeLevel(m: Memory, root: nat, p: Path): nat
    requires |p| == 4 && !SmallPagesOnly(m, root, p)
  {
    if LargePage(m, root, p[..2]) then 2 else 3
  }

  /** The walk for a path with a large page on it stands at `table` after `n` indices: in the tree, or
      in the page, whose words it takes for entries. Neither the page nor, below 1 GiB, the page its
      word points to is a table or free. */
  ghost predicate Stray(m: Memory, free: set<nat>, root: nat, p: Path, n: nat, table: nat) {
    && Sound(m, free, root, ENTRIES) && IsPath(p) && |p| == 4 && n <= 3
    && !SmallPagesOnly(m, root, p) && Apart(m, free, root, LargeFrame(m, root, p))
    && (LargeLevel(m, root, p) == 2 && n <= 2 && Fetch(m, LargeFrame(m, root, p), p[2]).Present() ==>
          Apart(m, free, root, Fetch(m, LargeFrame(m, root, p), p[2]).frame))
    && (if n < LargeLevel(m, root, p) then At(m, root, p[..n]) == Some(table) else Apart(m, free, root, table))
    && (n == 2 == LargeLevel(m, root, p) ==> table == LargeFrame(m, root, p))
  }

  /** A walk that creates needs a page for a table where a 1 GiB page holds no word that looks present. */
  ghost predicate NeedsPage(m: Memory, root: nat, p: Path)
    requires |p| == 4 && p[2] < ENTRIES && !SmallPagesOnly(m, root, p)
  {
    LargeLevel(m, root, p) == 2 && !Fetch(m, LargeFrame(m, root, p), p[2]).Present()
  }

  lemma SameMappingsTranslate(m: Memory, m': Memory, root: nat)
    requires SameMappings(m, m', root, ENTRIES)
    ensures SameTranslations(m, m', root)
  {
    hide Find, Indices;
    forall w: nat
      ensures Find(m', root, Indices(w)) == Find(m, root, Indices(w))
    {
      assert Within(Indices(w), ENTRIES);
    }
  }

  /** A store into a page that is no table moves nothing. */
  lemma StoreApart(m: Memory, free: set<nat>, root: nat, f: nat, t: Table, m': Memory)
    requires Sound(m, free, root, ENTRIES) && f < |m| && !IsTable(m, root, ENTRIES, f) && m' == m[f := t]
    ensures Sound(m', free, root, ENTRIES) && SameTranslations(m, m', root)
    ensures forall g: nat :: Apart(m', free, root, g) <==> Apart(m, free, root, g)
    ensures forall p: Path :: IsPath(p) ==> At(m', root, p) == At(m, root, p) && (p != [] ==> EntryAt(m', root, p) == EntryAt(m, root, p))
  {
    hide Tree, IsTable, SameMappings, Find;
    WriteOutsideKeeps(m, root, ENTRIES, f, t, m');
    SameMappingsTranslate(m, m', root);
  }

  /** Flags set in the entries above a large page, or in its own, move nothing. */
  lemma FlagsOnPath(m: Memory, free: set<nat>, root: nat, p: Path, n: nat, m': Memory)
    requires Sound(m, free, root, ENTRIES) && IsPath(p) && |p| == 4 && n <= 2 && At(m, root, p[..n]).Some?
    requires EntryAt(m, root, p[..n + 1]).Present()
    requires At(m, root, p[..n]).value < |m|
    requires m' == Store(m, At(m, root, p[..n]).value, p[n], EntryAt(m, root, p[..n + 1]).With(USER))
    ensures Sound(m', free, root, ENTRIES)
    ensures forall g: nat :: Apart(m', free, root, g) <==> Apart(m, free, root, g)
    ensures forall q: Path :: IsPath(q) ==> At(m', root, q) == At(m, root, q)
    ensures forall q: Path :: IsPath(q) && q != [] ==>
              EntryAt(m', root, q) == if q == p[..n + 1] then EntryAt(m, root, q).With(USER) else EntryAt(m, root, q)
  {
    hide Tree, IsTable;
    Prefix(p, n);
    var e := EntryAt(m, root, p[..n + 1]).With(USER);
    SetKeeps(EntryAt(m, root, p[..n + 1]).flags, USER);
    assert Slot(m, root, ENTRIES, p[..n], p[n]);
    forall q: Path | IsPath(q)
      ensures At(m', root, q) == At(m, root, q)
      ensures q != [] && q != p[..n + 1] ==> EntryAt(m', root, q) == EntryAt(m, root, q)
    {
      assert Within(q, ENTRIES);
      StoreFlags(m, root, ENTRIES, p[..n], p[n], e, q);
    }
    StoreHere(m, root, ENTRIES, p[..n], p[n], e);
    SamePaths(m, m', root, ENTRIES);
  }

  /** Entries that differ in the user flag only lead the processor to the same place. */
  lemma FlagsTranslate(m: Memory, m': Memory, root: nat, p: Path)
    requires p != [] && EntryAt(m, root, p).Present()
    requires forall q: Path :: IsPath(q) && q != [] ==>
               EntryAt(m', root, q) == if q == p then EntryAt(m, root, q).With(USER) else EntryAt(m, root, q)
    ensures SameTranslations(m, m', root)
  {
    hide EntryAt, Indices;
    SetKeeps(EntryAt(m, root, p).flags, USER);
    forall w: nat
      ensures Translate(m', root, w) == Translate(m, root, w)
    {
      var q := Indices(w);
      assert IsPath(q[..2]) && IsPath(q[..3]) && IsPath(q);
    }
  }

  /** Above a large page every entry of the path is present and leads to the next table. */
  lemma AboveLarge(m: Memory, root: nat, p: Path, n: nat)
    requires IsPath(p) && |p| == 4 && !SmallPagesOnly(m, root, p) && n < LargeLevel(m, root, p)
    ensures At(m, root, p[..n]).Some? && EntryAt(m, root, p[..n + 1]).Present()
    ensures EntryAt(m, root, p[..n + 1]) == Fetch(m, At(m, root, p[..n]).value, p[n])
    ensures n + 1 < LargeLevel(m, root, p) ==> At(m, root, p[..n + 1]) == Some(EntryAt(m, root, p[..n + 1]).frame)
    ensures n + 1 == LargeLevel(m, root, p) ==> LargeFrame(m, root, p) == EntryAt(m, root, p[..n + 1]).frame
  {
    Prefix(p, 0);
    Prefix(p, 1);
    Prefix(p, 2);
  }

  /** The same large page lies on the path when the entries on it are the same but for user flags. */
  lemma StillLarge(m: Memory, m': Memory, root: nat, p: Path, q: Path)
    requires IsPath(p) && |p| == 4 && !SmallPagesOnly(m, root, p) && q != [] && EntryAt(m, root, q).Present()
    requires forall r: Path :: IsPath(r) && r != [] ==>
               EntryAt(m', root, r) == EntryAt(m, root, r) || (r == q && EntryAt(m', root, r) == EntryAt(m, root, r).With(USER))
    ensures !SmallPagesOnly(m', root, p) && LargeLevel(m', root, p) == LargeLevel(m, root, p)
    ensures LargeFrame(m', root, p) == LargeFrame(m, root, p)
  {
    hide EntryAt;
    SetKeeps(EntryAt(m, root, q).flags, USER);
    assert IsPath(p[..2]) && IsPath(p[..3]);
  }

  /** A step of the stray walk that is still in the tree. */
  lemma StrayAbove(m: Memory, free: set<nat>, m': Memory, root: nat, p: Path, n: nat, table: nat, extra: bv12)
    requires Stray(m, free, root, p, n, table) && n < LargeLevel(m, root, p) && (extra == 0 || extra == USER)
    requires table < |m| && m' == if extra != 0 then Store(m, table, p[n], Fetch(m, table, p[n]).With(extra)) else m
    ensures Fetch(m, table, p[n]).Present()
    ensures SameTranslations(m, m', root) && Stray(m', free, root, p, n + 1, Fetch(m, table, p[n]).frame)
    ensures NeedsPage(m', root, p) <==> NeedsPage(m, root, p)
  {
    hide Tree, IsTable, SameTranslations, At, EntryAt, SmallPagesOnly, LargeFrame, Apart;
    AboveLarge(m, root, p, n);
    Prefix(p, n);
    var f := LargeFrame(m, root, p);
    ApartInside(m, free, root, f);
    if extra == 0 {
      SameMappingsTranslate(m, m, root);
    } else {
      FlagsOnPath(m, free, root, p, n, m');
      FlagsTranslate(m, m', root, p[..n + 1]);
      StillLarge(m, m', root, p, p[..n + 1]);
      NotApart(m, free, root, p[..n]);
      assert m'[f] == m[f];
    }
  }

  /** A step of the stray walk inside a 1 GiB page: it writes to the page and to the free page that it
      takes for a table. */
  lemma StrayInside(m: Memory, free: set<nat>, m': Memory, free': set<nat>, root: nat, p: Path, table: nat, extra: bv12, ret: int, next: nat)
    requires Stray(m, free, root, p, 2, table) && LargeLevel(m, root, p) == 2
    requires Stepped(m, free, m', free', table, p[2], true, extra, ret, next)
    ensures |m'| == |m| && Sound(m', free', root, ENTRIES) && SameTranslations(m, m', root)
    ensures ret == 1 || ret == -1
    ensures ret == -1 <==> NeedsPage(m, root, p) && free == {}
    ensures free' == if ret == 1 && NeedsPage(m, root, p) then free - {next} else free
    ensures ret == 1 && NeedsPage(m, root, p) ==> next in free
    ensures ret == 1 ==> Stray(m', free', root, p, 3, next)
  {
    hide Tree, IsTable, SameTranslations, At, EntryAt, Translate;
    var f := LargeFrame(m, root, p);
    var e := Fetch(m, f, p[2]);
    SameMappingsTranslate(m, m, root);
    if e.Present() {
      if extra != 0 { StoreApart(m, free, root, f, m[f][p[2] := e.With(extra)], m'); }
    } else if free != {} {
      StoreFree(m, free, root, next);
      var zeroed := m[next := ZeroTable()];
      StoreApart(zeroed, free - {next}, root, f, zeroed[f][p[2] := Entry(next, PRESENT | WRITABLE | extra)], m');
      TranslateOn(m, zeroed, m', root);
    }
  }

  lemma TranslateOn(m: Memory, m': Memory, m'': Memory, root: nat)
    requires SameTranslations(m, m', root) && SameTranslations(m', m'', root)
    ensures SameTranslations(m, m'', root)
  {
    hide Translate;
  }

  /** A page taken from the allocator and zeroed is none of the tree's. */
  lemma StoreFree(m: Memory, free: set<nat>, root: nat, page: nat)
    requires Sound(m, free, root, ENTRIES) && page in free && page < |m|
    ensures var m' := m[page := ZeroTable()];
      && Sound(m', free - {page}, root, ENTRIES) && SameTranslations(m, m', root)
      && Apart(m', free - {page}, root, page)
      && (forall g: nat :: Apart(m, free, root, g) ==> Apart(m', free - {page}, root, g))
      && forall p: Path :: IsPath(p) ==> At(m', root, p) == At(m, root, p) && (p != [] ==> EntryAt(m', root, p) == EntryAt(m, root, p))
  {
    hide Tree, SameTranslations, At, EntryAt;
    assert !IsTable(m, root, ENTRIES, page);
    hide IsTable;
    StoreApart(m, free, root, page, ZeroTable(), m[page := ZeroTable()]);
  }

  /** How far a stray walk has come: it has taken no page before its last step. */
  ghost predicate Wandered(m0: Memory, free0: set<nat>, root: nat, p: Path, n: nat, table: nat, m: Memory, free: set<nat>) {
    && Stray(m0, free0, root, p, 0, root) && Stray(m, free, root, p, n, table)
    && |m| == |m0| && SameTranslations(m0, m, root) && free <= free0
    && (if n < 3 then free == free0 && (NeedsPage(m, root, p) <==> NeedsPage(m0, root, p))
        else |free| == |free0| - if NeedsPage(m0, root, p) then 1 else 0)
  }

  lemma WanderStart(m: Memory, free: set<nat>, root: nat, p: Path)
    requires Stray(m, free, root, p, 0, root)
    ensures Wandered(m, free, root, p, 0, root, m, free)
  {
    hide Tree, IsTable, Find;
    SameMappingsTranslate(m, m, root);
  }

  lemma WanderEnter(m0: Memory, free0: set<nat>, root: nat, p: Path, n: nat, table: nat, m: Memory, free: set<nat>)
    requires Wandered(m0, free0, root, p, n, table, m, free) && n < 3
    ensures table < |m| && p[n] < ENTRIES
  {
    hide SameTranslations, Find;
    if n < LargeLevel(m, root, p) { TableInMemory(m, free, root, ENTRIES, p[..n]); }
  }

  lemma WanderStep(m0: Memory, free0: set<nat>, root: nat, p: Path, n: nat, table: nat, m: Memory, free: set<nat>,
                   m': Memory, free': set<nat>, extra: bv12, ret: int, next: nat)
    requires Wandered(m0, free0, root, p, n, table, m, free) && n < 3 && (extra == 0 || extra == USER)
    requires |p| == 4 && p[n] < ENTRIES && Stepped(m, free, m', free', table, p[n], true, extra, ret, next)
    ensures ret == 1 ==> Wandered(m0, free0, root, p, n + 1, next, m', free')
    ensures ret != 1 ==> ret == -1 && free0 == {} == free' && NeedsPage(m0, root, p)
    ensures Sound(m', free', root, ENTRIES) && |m'| == |m0| && SameTranslations(m0, m', root)
    ensures n == 2 && ret == 1 ==> !(NeedsPage(m0, root, p) && free0 == {})
  {
    hide Tree, IsTable, SameTranslations, At, EntryAt, LargeFrame, Apart;
    if n < LargeLevel(m, root, p) {
      AboveLarge(m, root, p, n);
      StrayAbove(m, free, m', root, p, n, table, extra);
    } else {
      StrayInside(m, free, m', free', root, p, table, extra, ret, next);
    }
    TranslateOn(m0, m, m', root);
  }

  lemma WanderEnd(m0: Memory, free0: set<nat>, root: nat, p: Path, table: nat, m: Memory, free: set<nat>)
    requires Wandered(m0, free0, root, p, 3, table, m, free)
    ensures Sound(m, free, root, ENTRIES) && Apart(m, free, root, table) && table < |m| && Front(p) == p[..3]
    ensures !(NeedsPage(m0, root, p) && free0 == {})
  {
    hide Tree, IsTable, SameTranslations;
  }

  lemma NotApart(m: Memory, free: set<nat>, root: nat, p: Path)
    requires Sound(m, free, root, ENTRIES) && IsPath(p) && |p| <= 3 && At(m, root, p).Some?
    ensures !Apart(m, free, root, At(m, root, p).value)
  {
    TableInMemory(m, free, root, ENTRIES, p);
  }

  lemma ApartInside(m: Memory, free: set<nat>, root: nat, f: nat)
    requires Apart(m, free, root, f)
    ensures f < |m|
  {
  }

  class Vmm {
    const k: Machine
    var kernelHeapCur: nat

    constructor (k: Machine, heapStart: nat)
      ensures this.k == k && kernelHeapCur == heapStart
    {
      this.k := k;
      kernelHeapCur := heapStart;
    }

    /** The walk stands at a table of the tree whose entry `i` is absent or leads to a table. */
    ghost predicate OnTree(root: nat, p: Path, table: nat, i: nat)
      reads this, k, k.pmm, k.pmm.bits
    {
      && k.Owns(root, ENTRIES) && Slot(k.mem, root, ENTRIES, p, i) && |p| <= 2
      && At(k.mem, root, p) == Some(table)
      && (EntryAt(k.mem, root, p + [i]).Present() ==> At(k.mem, root, p + [i]).Some?)
    }

    /** The tree is well formed and the walk for an address meets no large page. */
    ghost predicate Tame(root: nat, virt: nat)
      reads this, k, k.pmm, k.pmm.bits
    {
      k.Owns(root, ENTRIES) && SmallPagesOnly(k.mem, root, Indices(virt))
    }

    /** The walk for an address reads pages of memory only. */
    ghost predicate Readable(root: nat, virt: nat)
      reads this, k, k.pmm, k.pmm.bits
    {
      k.Valid() && FollowsInMemory(k.mem, root, Indices(virt))
    }

    /** The walk for an address meets a large page, in which it goes on to pages that are neither tables
        nor free. */
    ghost predicate Astray(root: nat, virt: nat)
      reads this, k, k.pmm, k.pmm.bits
    {
      k.Valid() && Stray(k.mem, k.Free(), root, Indices(virt), 0, root)
    }

    /** One level above the last: follows entry `i` of the table that path `p` leads to. */
    method Descend(root: nat, ghost p: Path, table: nat, i: nat, create: bool, extra: bv12)
      returns (ret: int, next: nat)
      requires OnTree(root, p, table, i) || (k.Valid() && table < |k.mem| && i < ENTRIES)
      requires extra == 0 || extra == USER
      modifies k`mem, k.pmm, k.pmm.bits
      ensures k.Valid() && Stepped(old(k.mem), old(k.Free()), k.mem, k.Free(), table, i, create, extra, ret, next)
      ensures ret == -1 || ret == 0 || ret == 1
      ensures ret == 0 ==> !create
      ensures ret == -1 ==> create && k.Free() == {}
      ensures !create && extra == 0 ==> k.Valid() && k.mem == old(k.mem) && k.Free() == old(k.Free())
      ensures !create && extra == 0 ==> (ret == 1 <==> Fetch(k.mem, table, i).Present())
      ensures !create && extra == 0 && ret == 1 ==> next == Fetch(k.mem, table, i).frame
      ensures old(OnTree(root, p, table, i)) ==>
                k.Owns(root, ENTRIES) && Grown(old(k.mem), old(k.Free()), k.mem, k.Free(), root)
      ensures old(OnTree(root, p, table, i)) && ret == 1 ==>
                && PathsExcept(old(k.mem), k.mem, root, ENTRIES, p + [i], Some(next))
                && (old(At(k.mem, root, p + [i])).Some? ==> k.Free() == old(k.Free()))
                && (old(At(k.mem, root, p + [i])).None? ==> create && |k.Free()| == |old(k.Free())| - 1)
      ensures old(OnTree(root, p, table, i)) && ret != 1 ==>
                old(At(k.mem, root, p + [i])).None? && k.mem == old(k.mem) && k.Free() == old(k.Free())
    {
      hide Sound, Tree, SameMappings, Find, PathsExcept, Grown;
      ghost var m, free, onTree := k.mem, k.Free(), OnTree(root, p, table, i);
      assert Front(p + [i]) == p && Last(p + [i]) == i;
      if onTree {
        TableInMemory(m, free, root, ENTRIES, p);
        GrownReflexive(m, free, root, p + [i]);
      }
      var entry := k.mem[table][i];
      if !entry.Present() {
        if !create { return 0, 0; }
        var page := k.pmm.AllocPage();
        if page == 0 { return -1, 0; }
        k.ZeroPage(page);
        ghost var zeroed := k.mem;
        assert zeroed[page] == ZeroTable();
        entry := Entry(page, PRESENT | WRITABLE | extra);
        k.WriteEntry(table, i, entry);
        if onTree { GrowByLink(m, free, root, p, i, page, extra, zeroed, k.mem); }
      } else if extra != 0 {
        k.WriteEntry(table, i, entry.With(extra));
        if onTree { GrowByFlags(m, free, root, p, i, extra, k.mem); }
      }
      return 1, entry.frame;
    }

    /** The walk down the four levels. With `create` it links a zeroed page wherever a table is
        missing; with `extra` it sets those flags in the entries it passes through. It returns 1 or 0
        for a present or absent last-level entry, 0 as well when a table is missing and must not be
        created, and -1 when no page is left for one. */
    method WalkPt(root: nat, virt: nat, create: bool, extra: bv12)
      returns (ret: int, entry: Entry, table: nat)
      requires Tame(root, virt) || (!create && extra == 0 && Readable(root, virt)) || (create && Astray(root, virt))
      requires extra == 0 || extra == USER
      modifies k`mem, k.pmm, k.pmm.bits
      ensures ret == -1 || ret == 0 || ret == 1
      ensures !create && extra == 0 ==> k.Valid() && k.mem == old(k.mem) && k.Free() == old(k.Free())
      ensures !create && extra == 0 ==> (ret == 1 <==> FollowedEntry(k.mem, root, Indices(virt)).Present())
      ensures !create && extra == 0 && ret == 1 ==>
                Followed(k.mem, root, Front(Indices(virt))) == Some(table) && entry == FollowedEntry(k.mem, root, Indices(virt))
      ensures old(Tame(root, virt)) ==>
                Tame(root, virt) && Grown(old(k.mem), old(k.Free()), k.mem, k.Free(), root)
      ensures old(Astray(root, virt)) && create ==>
                k.Owns(root, ENTRIES) && |k.mem| == |old(k.mem)| && SameTranslations(old(k.mem), k.mem, root)
      ensures old(Astray(root, virt)) && create ==>
                && (ret == -1 <==> old(NeedsPage(k.mem, root, Indices(virt))) && old(k.Free()) == {})
                && k.Free() <= old(k.Free())
                && |k.Free()| == |old(k.Free())| - if ret != -1 && old(NeedsPage(k.mem, root, Indices(virt))) then 1 else 0
      ensures old(Astray(root, virt)) && create && ret != -1 ==> Apart(k.mem, k.Free(), root, table)
      ensures ret == -1 ==> k.Free() == {}
      ensures old(Tame(root, virt)) ==> (ret == -1 <==> create && |old(k.Free())| < Missing(old(k.mem), root, Indices(virt)))
      ensures old(Tame(root, virt)) && create && ret != -1 ==>
                |k.Free()| == |old(k.Free())| - Missing(old(k.mem), root, Indices(virt))
      ensures old(Tame(root, virt)) && ((create && ret != -1) || ret == 1) ==>
                At(k.mem, root, Front(Indices(virt))) == Some(table) && entry == EntryAt(k.mem, root, Indices(virt))
      ensures old(Tame(root, virt)) && ret != -1 ==> (ret == 1 <==> EntryAt(k.mem, root, Indices(virt)).Present())
    {
      hide Grown, Sound, Tree, Find, SameMappings, PathsExcept, At, EntryAt, SmallPagesOnly, Missing;
      hide Followed, FollowedEntry, FollowsInMemory, Stray, Stepped, NeedsPage, SameTranslations, Apart, IsTable, LargeLevel;
      var idx := Indices(virt);
      table := root;
      ghost var m0, free0, tame, astray := k.mem, k.Free(), Tame(root, virt), create && Astray(root, virt);
      if tame {
        WalkStart(m0, free0, root, idx);
        OwnedInMemory(m0, free0, root, idx);
      }
      if astray { WanderStart(m0, free0, root, idx); }
      FollowStart(m0, root, idx);
      for n := 0 to 3
        invariant tame ==> Tame(root, virt) && Grown(m0, free0, k.mem, k.Free(), root)
        invariant tame ==> At(k.mem, root, idx[..n]) == Some(table)
        invariant tame ==> |k.Free()| + Missing(m0, root, idx) == |free0| + Missing(k.mem, root, idx)
        invariant !create && extra == 0 ==> k.Valid() && k.mem == m0 && k.Free() == free0
        invariant !create && extra == 0 ==> Followed(m0, root, idx[..n]) == Some(table)
        invariant astray ==> k.Valid() && Wandered(m0, free0, root, idx, n, table, k.mem, k.Free())
      {
        ghost var m, free := k.mem, k.Free();
        if astray { WanderEnter(m0, free0, root, idx, n, table, m, free); }
        if tame { WalkEnter(m, free, root, idx, n); }
        if !create && extra == 0 { FollowStep(m0, root, idx, n, table); }
        var next;
        ret, next := Descend(root, idx[..n], table, idx[n], create, extra);
        if astray { WanderStep(m0, free0, root, idx, n, table, m, free, k.mem, k.Free(), extra, ret, next); }
        if ret != 1 {
          if tame { WalkStuck(k.mem, root, idx, n); }
          return ret, ZERO_ENTRY, table;
        }
        if tame { WalkStep(m0, free0, m, free, k.mem, k.Free(), root, idx, n, next); }
        table := next;
      }
      if tame { WalkEnd(k.mem, k.Free(), root, idx); }
      if astray { WanderEnd(m0, free0, root, idx, table, k.mem, k.Free()); }
      if !create && extra == 0 { FollowEnd(m0, root, idx); }
      entry := k.mem[table][idx[3]];
      ret := if entry.Present() then 1 else 0;
    }

    /** Maps one page of the address space in use. Where the walk meets a large page the call maps
        nothing: it overwrites a word of that page, or of what the page's word points to, and reports
        success; every address goes where it went. */
    method MapPage(virt: nat, phys: nat, flags: bv12) returns (ok: bool)
      requires Tame(k.cr3, virt) || Astray(k.cr3, virt)
      modifies k`mem, k.pmm, k.pmm.bits
      ensures k.Owns(k.cr3, ENTRIES) && |k.mem| == |old(k.mem)| && k.Free() <= old(k.Free())
      ensures !ok ==> k.Free() == {}
      ensures old(Tame(k.cr3, virt)) ==> (ok <==> Missing(old(k.mem), k.cr3, Indices(virt)) <= |old(k.Free())|)
      ensures old(Tame(k.cr3, virt)) && ok ==>
                && |k.Free()| == |old(k.Free())| - Missing(old(k.mem), k.cr3, Indices(virt))
                && MapsOnly(old(k.mem), k.mem, k.cr3, Indices(virt), Entry(phys / PAGE_SIZE, flags))
      ensures old(Tame(k.cr3, virt)) && !ok ==> SameMappings(old(k.mem), k.mem, k.cr3, ENTRIES)
      ensures old(Tame(k.cr3, virt)) ==> TablesTaken(old(k.mem), old(k.Free()), k.mem, k.Free(), k.cr3)
      ensures old(Astray(k.cr3, virt)) ==>
                && SameTranslations(old(k.mem), k.mem, k.cr3)
                && (ok <==> !(old(NeedsPage(k.mem, k.cr3, Indices(virt))) && old(k.Free()) == {}))
                && |k.Free()| == |old(k.Free())| - if ok && old(NeedsPage(k.mem, k.cr3, Indices(virt))) then 1 else 0
    {
      hide Grown, Sound, Tree, Find, SameMappings, PathsExcept, At, EntryAt, SmallPagesOnly, Missing;
      hide SameTranslations, NeedsPage, IsTable, MapsOnly, TablesTaken;
      ghost var m0, free0, tame := k.mem, k.Free(), Tame(k.cr3, virt);
      var ret, _, pt := WalkPt(k.cr3, virt, true, flags & USER);
      if ret < 0 {
        if tame { GrownKeeps(m0, free0, k.mem, k.Free(), k.cr3); }
        return false;
      }
      ghost var m, e := k.mem, Entry(phys / PAGE_SIZE, flags);
      if tame { LeafSlot(m, k.Free(), k.cr3, Indices(virt)); }
      k.WriteEntry(pt, Indices(virt)[3], Entry(phys / PAGE_SIZE, flags));
      if tame {
        MapLeaf(m0, free0, m, k.mem, k.Free(), k.cr3, Indices(virt), e);
      } else {
        StoreApart(m, k.Free(), k.cr3, pt, m[pt][Indices(virt)[3] := e], k.mem);
        TranslateOn(m0, m, k.mem, k.cr3);
      }
      return true;
    }

    /** Clears the entry that the walk ends in. That unmaps the page and nothing else, unless the
        walk went through a large page: then it clears a word of what it took for a table. */
    method UnmapPage(virt: nat)
      requires Readable(k.cr3, virt)
      modifies k`mem, k.pmm, k.pmm.bits
      ensures k.Valid() && k.Free() == old(k.Free())
      ensures k.mem == Cleared(old(k.mem), k.cr3, Indices(virt))
      ensures old(Tame(k.cr3, virt)) ==>
                && k.Owns(k.cr3, ENTRIES) && |k.mem| == |old(k.mem)|
                && MapsOnly(old(k.mem), k.mem, k.cr3, Indices(virt), ZERO_ENTRY)
                && TablesTaken(old(k.mem), {}, k.mem, {}, k.cr3)
    {
      hide Grown, Sound, Tree, SameMappings, PathsExcept, At, EntryAt, SmallPagesOnly, Missing, Find, MapsOnly;
      ghost var m, free, tame := k.mem, k.Free(), Tame(k.cr3, virt);
      var ret, _, pt := WalkPt(k.cr3, virt, false, 0);
      if ret <= 0 {
        if tame { UnmapNothing(m, k.cr3, Indices(virt)); }
        return;
      }
      FollowEnd(m, k.cr3, Indices(virt));
      k.WriteEntry(pt, Indices(virt)[3], ZERO_ENTRY);
      if tame {
        LeafSlot(m, free, k.cr3, Indices(virt));
        GrownReflexive(m, free, k.cr3, []);
        MapLeaf(m, free, m, k.mem, free, k.cr3, Indices(virt), ZERO_ENTRY);
      }
    }

    /** The physical address of a virtual one, 0 when it is not mapped: what the kernel's walk
        computes, which is the translation of the address when it meets no large page. */
    method GetPhysAddr(virt: nat) returns (phys: nat)
      requires Readable(k.cr3, virt)
      modifies k`mem, k.pmm, k.pmm.bits
      ensures k.Valid() && k.mem == old(k.mem) && k.Free() == old(k.Free())
      ensures phys == match Computed(k.mem, k.cr3, virt) case None => 0 case Some(a) => a
      ensures SmallPagesOnly(k.mem, k.cr3, Indices(virt)) ==>
                phys == match Translate(k.mem, k.cr3, virt) case None => 0 case Some(a) => a
    {
      hide Grown, Sound, Tree, SameMappings, PathsExcept, At, EntryAt, Missing, Followed, FollowedEntry, FollowsInMemory;
      var ret, entry, _ := WalkPt(k.cr3, virt, false, 0);
      if SmallPagesOnly(k.mem, k.cr3, Indices(virt)) { FollowsTree(k.mem, k.cr3, Indices(virt)); }
      if ret <= 0 { return 0; }
      return entry.frame * PAGE_SIZE + virt % PAGE_SIZE;
    }

    /** One round of the loop of `AllocPages`: takes a page and maps it at `virt`; a page that
        cannot be mapped is given back. */
    method MapFresh(virt: nat) returns (ok: bool, ghost page: nat)
      requires k.Owns(k.cr3, ENTRIES) && SmallPagesOnly(k.mem, k.cr3, Indices(virt))
      modifies k`mem, k.pmm, k.pmm.bits
      ensures k.Owns(k.cr3, ENTRIES) && k.Free() <= old(k.Free())
      ensures ok ==> page in old(k.Free()) && page !in k.Free()
      ensures ok ==> MapsOnly(old(k.mem), k.mem, k.cr3, Indices(virt), Entry(page, PRESENT | WRITABLE))
      ensures ok ==> TablesTaken(old(k.mem), old(k.Free()) - {page}, k.mem, k.Free(), k.cr3)
      ensures !ok ==> SameMappings(old(k.mem), k.mem, k.cr3, ENTRIES) && |k.Free()| <= 1
      ensures !ok ==> TablesTaken(old(k.mem), old(k.Free()), k.mem, k.Free(), k.cr3)
    {
      hide Sound, Tree, SameMappings, Find, SmallPagesOnly, MapsOnly, Missing, TablesTaken, Indices;
      hide Pmm.Clear, Pmm.IsNextFit;
      ghost var m, free := k.mem, k.Free();
      var phys := k.pmm.AllocPage();
      page := phys;
      if phys == 0 {
        GrownReflexive(m, free, k.cr3, []);
        return false, 0;
      }
      TakePage(m, free, k.cr3, phys);
      ok := MapPage(virt, phys * PAGE_SIZE, PRESENT | WRITABLE);
      if !ok {
        GivePageBack(m, free, k.mem, k.cr3, phys);
        k.pmm.FreePage(phys);
      }
    }

    /** Maps `count` fresh pages from `kernelHeapCur` on. When a page cannot be had or mapped,
        the pages mapped so far are unmapped again, but they are not given back: the pages that
        left the allocator are `frames` and the new tables of the tree, whether the call fails or not. */
    method AllocPages(count: nat) returns (start: Option<nat>, ghost frames: set<nat>)
      requires k.Owns(k.cr3, ENTRIES) && count <= SPACE_PAGES
      requires Unmapped(k.mem, k.cr3, kernelHeapCur, count)
      modifies this, k`mem, k.pmm, k.pmm.bits
      ensures k.Owns(k.cr3, ENTRIES) && k.Free() <= old(k.Free())
      ensures start.Some? ==> start.value == old(kernelHeapCur) && kernelHeapCur == RangePage(old(kernelHeapCur), count)
      ensures start.Some? ==>
                MapsRange(old(k.mem), k.mem, k.cr3, old(kernelHeapCur), 0, count, frames) && |frames| == count
      ensures start.None? ==> kernelHeapCur == old(kernelHeapCur) && SameMappings(old(k.mem), k.mem, k.cr3, ENTRIES)
      ensures start.None? ==> |k.Free()| <= 1 && |frames| < count
      ensures frames <= old(k.Free()) - k.Free()
      ensures TablesTaken(old(k.mem), old(k.Free()) - frames, k.mem, k.Free(), k.cr3)
    {
      hide Sound, Tree, SameMappings, Find, SmallPagesOnly, MapsOnly, MapsRange, TablesTaken, Indices, Unmapped;
      ghost var m0, free0, root := k.mem, k.Free(), k.cr3;
      var first := kernelHeapCur;
      var virt := first;
      frames := {};
      MapsNone(m0, root, first, frames);
      NoneTaken(m0, free0, root);
      for i := 0 to count
        invariant kernelHeapCur == first && virt == RangePage(first, i)
        invariant k.Owns(root, ENTRIES) && k.Free() <= free0
        invariant frames <= free0 - k.Free() && |frames| == i
        invariant TablesTaken(m0, free0 - frames, k.mem, k.Free(), root)
        invariant MapsRange(m0, k.mem, root, first, 0, i, frames)
      {
        ghost var m, free := k.mem, k.Free();
        NextUnmapped(m0, m, root, first, i, count, frames);
        var ok, page := MapFresh(virt);
        if !ok {
          MapsSame(m0, m, k.mem, root, first, i, frames);
          TakenBySteps(m0, free0 - frames, m, free, k.mem, k.Free(), root);
          ghost var m1 := k.mem;
          UnmapRange(m0, first, i, count, frames);
          TakenThenSame(m0, free0 - frames, m1, k.mem, k.Free(), root);
          return None, frames;
        }
        MapsNext(m0, m, k.mem, root, first, i, count, page, frames, frames + {page});
        TakenNext(m0, free0, frames, m, free, k.mem, k.Free(), root, page);
        frames := frames + {page};
        virt := virt + PAGE_SIZE;
      }
      kernelHeapCur := virt;
      return Some(first), frames;
    }

    /** The rollback loop of a failed allocation. */
    method UnmapRange(ghost m0: Memory, first: nat, i: nat, ghost count: nat, ghost taken: set<nat>)
      requires k.Owns(k.cr3, ENTRIES) && i <= count <= SPACE_PAGES
      requires Unmapped(m0, k.cr3, first, count) && MapsRange(m0, k.mem, k.cr3, first, 0, i, taken)
      modifies k`mem, k.pmm, k.pmm.bits
      ensures k.Owns(k.cr3, ENTRIES) && k.Free() == old(k.Free())
      ensures SameMappings(m0, k.mem, k.cr3, ENTRIES)
      ensures TablesTaken(old(k.mem), {}, k.mem, {}, k.cr3)
    {
      hide Sound, Tree, SameMappings, Find, SmallPagesOnly, MapsOnly, MapsRange, Indices, IsTable;
      for j := 0 to i
        invariant k.Owns(k.cr3, ENTRIES) && k.Free() == old(k.Free())
        invariant TablesTaken(old(k.mem), {}, k.mem, {}, k.cr3)
        invariant MapsRange(m0, k.mem, k.cr3, first, j, i, taken)
      {
        ghost var m := k.mem;
        RangeIsSmall(m0, m, k.cr3, first, j, i, taken);
        OwnedInMemory(m, k.Free(), k.cr3, Indices(RangePage(first, j)));
        UnmapPage(RangePage(first, j));
        MapsFewer(m0, m, k.mem, k.cr3, first, j, i, count, taken);
      }
      MapsEmpty(m0, k.mem, k.cr3, first, i, taken);
    }
  }

  // ----- Ranges of pages

  ghost predicate Unmapped(m: Memory, root: nat, start: nat, count: nat) {
    forall j: nat :: j < count ==> Find(m, root, Indices(RangePage(start, j))) == None
  }

  /** A path of one of the pages `lo` to `hi` of the range. */
  ghost predicate InRange(p: Path, start: nat, lo: nat, hi: nat) {
    exists j: nat :: lo <= j < hi && p == Indices(RangePage(start, j))
  }

  /** A path is mapped as a writable 4 KiB page to one of the frames given. */
  ghost predicate MappedInto(m: Memory, root: nat, p: Path, frames: set<nat>)
    requires |p| == 4
  {
    && Find(m, root, p).Some?
    && Find(m, root, p).value.entry.frame in frames
    && Find(m, root, p).value == Mapping(4, Entry(Find(m, root, p).value.entry.frame, PRESENT | WRITABLE))
  }

  /** Pages `lo` to `hi` of the range are mapped writable to distinct frames among `taken`, and
      every path outside finds what it found in `m0`. */
  ghost predicate MapsRange(m0: Memory, m: Memory, root: nat, start: nat, lo: nat, hi: nat, taken: set<nat>) {
    && (forall j: nat :: lo <= j < hi ==> MappedInto(m, root, Indices(RangePage(start, j)), taken))
    && (forall i: nat, j: nat :: lo <= i < j < hi ==>
          Find(m, root, Indices(RangePage(start, i))) != Find(m, root, Indices(RangePage(start, j))))
    && (forall p: Path :: IsPath(p) && |p| == 4 && !InRange(p, start, lo, hi) ==> Find(m, root, p) == Find(m0, root, p))
  }

  lemma PageOfRange(start: nat, j: nat)
    ensures PageOf(RangePage(start, j)) == (start / PAGE_SIZE + j) % SPACE_PAGES
  {
    assert RangePage(start, j) / PAGE_SIZE == start / PAGE_SIZE + j;
  }

  /** The pages of a range are different pages as long as it does not go round the address space. */
  lemma RangeDistinct(start: nat, i: nat, j: nat)
    requires i < SPACE_PAGES && j < SPACE_PAGES && i != j
    ensures Indices(RangePage(start, i)) != Indices(RangePage(start, j))
  {
    hide Indices;
    SamePageSameIndices(RangePage(start, i), RangePage(start, j));
    PageOfRange(start, i);
    PageOfRange(start, j);
  }

  lemma MapsNone(m: Memory, root: nat, start: nat, taken: set<nat>)
    ensures MapsRange(m, m, root, start, 0, 0, taken)
  {
  }

  lemma NextUnmapped(m0: Memory, m: Memory, root: nat, start: nat, i: nat, count: nat, taken: set<nat>)
    requires i < count <= SPACE_PAGES && Unmapped(m0, root, start, count)
    requires MapsRange(m0, m, root, start, 0, i, taken)
    ensures Find(m, root, Indices(RangePage(start, i))) == None
    ensures SmallPagesOnly(m, root, Indices(RangePage(start, i)))
  {
    hide Indices, Find;
    forall j: nat | j < i
      ensures Indices(RangePage(start, i)) != Indices(RangePage(start, j))
    {
      RangeDistinct(start, i, j);
    }
    SmallPagesFind(m, root, Indices(RangePage(start, i)));
  }

  lemma RangeIsSmall(m0: Memory, m: Memory, root: nat, start: nat, j: nat, hi: nat, taken: set<nat>)
    requires j < hi && MapsRange(m0, m, root, start, j, hi, taken)
    ensures SmallPagesOnly(m, root, Indices(RangePage(start, j)))
  {
    hide Indices;
    SmallPagesFind(m, root, Indices(RangePage(start, j)));
  }

  lemma MapsNext(m0: Memory, m: Memory, m': Memory, root: nat, start: nat, i: nat, count: nat, page: nat,
                 taken: set<nat>, taken': set<nat>)
    requires i < count <= SPACE_PAGES && MapsRange(m0, m, root, start, 0, i, taken)
    requires MapsOnly(m, m', root, Indices(RangePage(start, i)), Entry(page, PRESENT | WRITABLE))
    requires page !in taken && page in taken' && taken <= taken'
    ensures MapsRange(m0, m', root, start, 0, i + 1, taken')
  {
    hide Indices, Find;
    assert Entry(page, PRESENT | WRITABLE).Present();
    forall j: nat | j < i
      ensures Indices(RangePage(start, i)) != Indices(RangePage(start, j))
    {
      RangeDistinct(start, i, j);
    }
  }

  lemma MapsFewer(m0: Memory, m: Memory, m': Memory, root: nat, start: nat, lo: nat, hi: nat, count: nat, taken: set<nat>)
    requires lo < hi <= count <= SPACE_PAGES && Unmapped(m0, root, start, count)
    requires MapsRange(m0, m, root, start, lo, hi, taken)
    requires MapsOnly(m, m', root, Indices(RangePage(start, lo)), ZERO_ENTRY)
    ensures MapsRange(m0, m', root, start, lo + 1, hi, taken)
  {
    hide Indices, Find;
    forall j: nat | lo < j < hi
      ensures Indices(RangePage(start, lo)) != Indices(RangePage(start, j))
    {
      RangeDistinct(start, lo, j);
    }
  }

  lemma MapsEmpty(m0: Memory, m: Memory, root: nat, start: nat, i: nat, taken: set<nat>)
    requires MapsRange(m0, m, root, start, i, i, taken)
    ensures SameMappings(m0, m, root, ENTRIES)
  {
  }

  lemma MapsSame(m0: Memory, m: Memory, m': Memory, root: nat, start: nat, i: nat, taken: set<nat>)
    requires MapsRange(m0, m, root, start, 0, i, taken) && SameMappings(m, m', root, ENTRIES)
    ensures MapsRange(m0, m', root, start, 0, i, taken)
  {
    hide Indices, Find;
  }

  /** A page taken from the allocator leaves the tree sound. */
  lemma TakePage(m: Memory, free: set<nat>, root: nat, page: nat)
    requires Sound(m, free, root, ENTRIES) && page in free
    ensures Sound(m, free - {page}, root, ENTRIES)
  {
  }

  /** A page that was taken before the tree grew is no table and can be freed again. */
  lemma GivePageBack(m: Memory, free: set<nat>, m': Memory, root: nat, page: nat)
    requires Sound(m, free, root, ENTRIES) && page in free
    requires Sound(m', {}, root, ENTRIES) && TablesTaken(m, free - {page}, m', {}, root)
    ensures Sound(m', {page}, root, ENTRIES) && TablesTaken(m, free, m', {page}, root)
  {
  }

  lemma NoneTaken(m: Memory, free: set<nat>, root: nat)
    ensures TablesTaken(m, free - {}, m, free, root)
  {
  }

  lemma TakenThenSame(m0: Memory, free0: set<nat>, m: Memory, m': Memory, free: set<nat>, root: nat)
    requires TablesTaken(m0, free0, m, free, root) && TablesTaken(m, {}, m', {}, root)
    ensures TablesTaken(m0, free0, m', free, root)
  {
    hide IsTable;
  }

  /** One more page mapped: it joins the frames, the tables linked for it join the tables. */
  lemma TakenNext(m0: Memory, free0: set<nat>, frames: set<nat>, m: Memory, free: set<nat>,
                  m': Memory, free': set<nat>, root: nat, page: nat)
    requires TablesTaken(m0, free0 - frames, m, free, root) && free <= free0 - frames && page in free
    requires TablesTaken(m, free - {page}, m', free', root) && free' <= free - {page}
    ensures TablesTaken(m0, free0 - (frames + {page}), m', free', root)
  {
    hide IsTable;
  }

  lemma TakenBySteps(m0: Memory, free0: set<nat>, m: Memory, free: set<nat>, m': Memory, free': set<nat>, root: nat)
    requires TablesTaken(m0, free0, m, free, root) && TablesTaken(m, free, m', free', root)
    requires free' <= free <= free0
    ensures TablesTaken(m0, free0, m', free', root)
  {
    hide IsTable;
  }

  lemma WalkStart(m: Memory, free: set<nat>, root: nat, p: Path)
    requires Sound(m, free, root, ENTRIES) && |p| == 4
    ensures Grown(m, free, m, free, root) && At(m, root, p[..0]) == Some(root)
  {
  }

  /** Before a step: the walk stands at a table and reads one of its entries. */
  lemma WalkEnter(m: Memory, free: set<nat>, root: nat, p: Path, n: nat)
    requires IsPath(p) && |p| == 4 && n < 3 && At(m, root, p[..n]).Some?
    requires Sound(m, free, root, ENTRIES) && SmallPagesOnly(m, root, p)
    ensures Slot(m, root, ENTRIES, p[..n], p[n]) && p[..n] + [p[n]] == p[..n + 1]
    ensures EntryAt(m, root, p[..n + 1]).Present() ==> At(m, root, p[..n + 1]).Some?
  {
    Prefix(p, n);
    if EntryAt(m, root, p[..n + 1]).Present() { LargeOnPath(m, root, p, n); }
  }

  /** A walk that cannot go on maps nothing, and some table is missing. */
  lemma WalkStuck(m: Memory, root: nat, p: Path, n: nat)
    requires IsPath(p) && |p| == 4 && n < 3 && At(m, root, p[..n]).Some? && At(m, root, p[..n + 1]).None?
    ensures !EntryAt(m, root, p).Present() && Missing(m, root, p) > 0
  {
    DeadBelow(m, root, p[..n + 1], p);
    DeadBelow(m, root, p[..n + 1], p[..3]);
  }

  lemma WalkStep(m0: Memory, free0: set<nat>, m: Memory, free: set<nat>, m': Memory, free': set<nat>,
                 root: nat, p: Path, n: nat, next: nat)
    requires Grown(m0, free0, m, free, root) && Grown(m, free, m', free', root)
    requires IsPath(p) && |p| == 4 && n < 3 && At(m, root, p[..n]).Some? && SmallPagesOnly(m, root, p)
    requires PathsExcept(m, m', root, ENTRIES, p[..n + 1], Some(next))
    ensures Grown(m0, free0, m', free', root) && SmallPagesOnly(m', root, p)
    ensures At(m', root, p[..n + 1]) == Some(next)
    ensures Missing(m', root, p) == Missing(m, root, p) - if At(m, root, p[..n + 1]).None? then 1 else 0
  {
    GrownTransitive(m0, free0, m, free, m', free', root);
    SmallPagesFind(m, root, p);
    SmallPagesFind(m', root, p);
    MissingOneLess(m, m', root, p, n, next);
  }

  lemma WalkEnd(m: Memory, free: set<nat>, root: nat, p: Path)
    requires Sound(m, free, root, ENTRIES)
    requires IsPath(p) && |p| == 4 && At(m, root, p[..3]).Some?
    ensures At(m, root, p[..3]).value < |m| && Front(p) == p[..3]
    ensures EntryAt(m, root, p) == m[At(m, root, p[..3]).value][p[3]]
    ensures Missing(m, root, p) == 0
  {
    TableInMemory(m, free, root, ENTRIES, p[..3]);
    Prefix(p, 2);
    Prefix(p, 1);
  }

  /** A level that was missing and is linked leaves one table less to link. */
  lemma MissingOneLess(m: Memory, m': Memory, root: nat, p: Path, n: nat, next: nat)
    requires IsPath(p) && |p| == 4 && n < 3 && At(m, root, p[..n]).Some?
    requires PathsExcept(m, m', root, ENTRIES, p[..n + 1], Some(next))
    ensures At(m', root, p[..n + 1]) == Some(next)
    ensures Missing(m', root, p) == Missing(m, root, p) - if At(m, root, p[..n + 1]).None? then 1 else 0
  {
    Prefix(p, 0);
    Prefix(p, 1);
    Prefix(p, 2);
    assert p[..0] == [];
  }

  lemma LargeOnPath(m: Memory, root: nat, p: Path, k: nat)
    requires IsPath(p) && |p| == 4 && k < 3 && SmallPagesOnly(m, root, p)
    requires EntryAt(m, root, p[..k + 1]).Present()
    ensures At(m, root, p[..k + 1]) == Some(EntryAt(m, root, p[..k + 1]).frame)
  {
    Prefix(p, k);
  }
}
