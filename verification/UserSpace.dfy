/** The lower half of an address space as an owner of pages: every table and every mapped page
    below root index 256 was taken from the allocator for this space alone. */
module UserSpace {
  import opened PageTree

  predicate Lower(p: Path) {
    Within(p, UPPER_HALF)
  }

  /** No path of the lower half shares its page with another one, all of them lie on allocatable
      pages (1 to `limit` - 1) that are not free, mapped pages carry the user flag, and there are no
      large pages. */
  ghost predicate UserTree(m: Memory, free: set<nat>, root: nat, limit: nat) {
    && limit <= |m|
    && (forall p: Path :: Lower(p) && At(m, root, p).Some? ==>
          0 < At(m, root, p).value < limit && At(m, root, p).value !in free)
    && (forall p: Path, q: Path ::
          (Lower(p) && Lower(q) && At(m, root, p).Some? && At(m, root, p) == At(m, root, q)) ==> p == q)
    && (forall p: Path :: Lower(p) && |p| == 4 && At(m, root, p).Some? ==> EntryAt(m, root, p).IsUser())
    && (forall p: Path :: Lower(p) && 2 <= |p| <= 3 ==> !LargePage(m, root, p))
  }

  lemma UserTreeIsSound(m: Memory, free: set<nat>, root: nat, limit: nat)
    requires UserTree(m, free, root, limit)
    ensures Sound(m, free, root, UPPER_HALF)
  {
  }

  ghost predicate Holds(m: Memory, root: nat, f: nat) {
    exists p: Path :: Lower(p) && p != [] && At(m, root, p) == Some(f)
  }

  /** The pages that the lower half of the space owns, besides the root. */
  ghost function Owned(m: Memory, root: nat): set<nat> {
    set f: nat | f < |m| && Holds(m, root, f)
  }

  /** What every operation on the space keeps: no page is lost or gained between the allocator and
      the space, other pages are untouched, and so is the upper half of the root. */
  ghost predicate Conserved(m: Memory, free: set<nat>, m': Memory, free': set<nat>, root: nat) {
    && |m'| == |m| && root < |m|
    && free' + Owned(m', root) == free + Owned(m, root)
    && (forall f: nat :: f < |m| && f !in free && f !in Owned(m, root) && f != root ==> m'[f] == m[f])
    && (forall j: nat :: UPPER_HALF <= j < ENTRIES ==> m'[root][j] == m[root][j])
  }

  lemma ConservedReflexive(m: Memory, free: set<nat>, root: nat)
    requires root < |m|
    ensures Conserved(m, free, m, free, root)
  {
  }

  lemma ConservedTransitive(m: Memory, free: set<nat>, m': Memory, free': set<nat>, m'': Memory, free'': set<nat>, root: nat)
    requires Conserved(m, free, m', free', root) && Conserved(m', free', m'', free'', root)
    ensures Conserved(m, free, m'', free'', root)
  {
    hide Owned;
  }

  /** A step that links one page of the lower half: the page leaves the allocator and joins the space. */
  lemma OwnedPlus(m: Memory, m': Memory, root: nat, p: Path, page: nat)
    requires |m'| == |m| && page < |m| && Lower(p) && p != [] && At(m, root, p).None?
    requires PathsExcept(m, m', root, UPPER_HALF, p, Some(page))
    ensures Owned(m', root) == Owned(m, root) + {page}
  {
    assert At(m', root, p) == Some(page);
    forall f: nat | f < |m|
      ensures Holds(m', root, f) <==> Holds(m, root, f) || f == page
    {
      if Holds(m, root, f) {
        var q: Path :| Lower(q) && q != [] && At(m, root, q) == Some(f);
        assert At(m', root, q) == Some(f);
      }
    }
  }

  lemma OwnedSame(m: Memory, m': Memory, root: nat)
    requires |m'| == |m| && PathsExcept(m, m', root, UPPER_HALF, [], Some(root))
    ensures Owned(m', root) == Owned(m, root)
  {
    assert forall q: Path :: Lower(q) ==> At(m', root, q) == At(m, root, q);
  }

  lemma OwnedMinus(m: Memory, free: set<nat>, m': Memory, root: nat, limit: nat, p: Path, page: nat)
    requires UserTree(m, free, root, limit) && |m'| == |m| && Lower(p) && p != [] && At(m, root, p) == Some(page)
    requires PathsExcept(m, m', root, UPPER_HALF, p, None)
    ensures Owned(m', root) == Owned(m, root) - {page} && page in Owned(m, root)
  {
    forall f: nat | f < |m|
      ensures Holds(m', root, f) <==> Holds(m, root, f) && f != page
    {
      if Holds(m', root, f) {
        var q: Path :| Lower(q) && q != [] && At(m', root, q) == Some(f);
        assert At(m, root, q) == Some(f) && q != p;
      }
      if Holds(m, root, f) && f != page {
        var q: Path :| Lower(q) && q != [] && At(m, root, q) == Some(f);
        assert At(m', root, q) == Some(f);
      }
    }
  }

  // ----- The three kinds of step

  ghost predicate UserSlot(m: Memory, free: set<nat>, root: nat, limit: nat, p: Path, i: nat) {
    UserTree(m, free, root, limit) && Slot(m, root, UPPER_HALF, p, i)
  }

  lemma EnterSlot(m: Memory, free: set<nat>, root: nat, limit: nat, p: Path, i: nat)
    requires UserTree(m, free, root, limit) && Lower(p + [i]) && |p| <= 3 && At(m, root, p).Some?
    ensures UserSlot(m, free, root, limit, p, i) && i < ENTRIES && root < |m| && At(m, root, p).value < |m|
    ensures At(m, root, p + [i]) == Leads(Fetch(m, At(m, root, p).value, i), |p| + 1)
    ensures EntryAt(m, root, p + [i]) == Fetch(m, At(m, root, p).value, i)
    ensures At(m, root, p + [i]).Some? <==> Fetch(m, At(m, root, p).value, i).Present()
    ensures Fetch(m, At(m, root, p).value, i).Present() && 2 <= |p| + 1 <= 3 ==> !Fetch(m, At(m, root, p).value, i).IsHuge()
    ensures 0 < root < limit <= |m| && root !in free
  {
    UserTreeIsSound(m, free, root, limit);
    assert (p + [i])[0] == if p == [] then i else p[0];
    assert p + [i] != [] && Front(p + [i]) == p && Last(p + [i]) == i;
    assert IsPath(p + [i]) && (p + [i])[|p|] == i;
    assert forall k :: 0 <= k < |p| ==> p[k] == (p + [i])[k];
    assert At(m, root, []) == Some(root);
  }

  /** Frames that a store to the table at `p` may change: that table only. */
  lemma StoreConserves(m: Memory, free: set<nat>, root: nat, limit: nat, p: Path, i: nat, e: Entry)
    requires UserSlot(m, free, root, limit, p, i)
    ensures At(m, root, p).value < |m|
    ensures At(m, root, p).value == root || At(m, root, p).value in Owned(m, root)
    ensures p != [] ==> At(m, root, p).value != root
    ensures p == [] ==> i < UPPER_HALF
  {
    assert At(m, root, []) == Some(root);
    if p != [] {
      assert Holds(m, root, At(m, root, p).value);
    } else {
      assert (p + [i])[0] == i;
    }
  }

  const USER_WRITABLE: bv12 := 6

  /** Setting the user and writable flags of an entry that is present already. */
  lemma MarkKeeps(m: Memory, free: set<nat>, root: nat, limit: nat, p: Path, i: nat, m': Memory)
    requires UserSlot(m, free, root, limit, p, i) && At(m, root, p + [i]).Some?
    requires m' == StoreAt(m, root, UPPER_HALF, p, i, EntryAt(m, root, p + [i]).With(USER_WRITABLE))
    ensures UserTree(m', free, root, limit) && Conserved(m, free, m', free, root)
    ensures PathsExcept(m, m', root, UPPER_HALF, p + [i], At(m, root, p + [i]))
    ensures EntriesExcept(m, m', root, UPPER_HALF, p + [i]) && Open(EntryAt(m', root, p + [i]))
  {
    hide UserTree, Tree, Owned, IsTable, SameMappings;
    EnterSlot(m, free, root, limit, p, i);
    StoreConserves(m, free, root, limit, p, i, EntryAt(m, root, p + [i]).With(USER_WRITABLE));
    var e := EntryAt(m, root, p + [i]);
    SetKeeps(e.flags, USER_WRITABLE);
    WithLeads(e, USER_WRITABLE, |p| + 1);
    if |p| <= 2 {
      StoreFlagsKeeps(m, root, UPPER_HALF, p, i, USER_WRITABLE, m');
    } else {
      StoreLeafKeeps(m, root, UPPER_HALF, p, i, e.With(USER_WRITABLE), m');
    }
    SamePathsUser(m, free, root, limit, p + [i], m');
    OwnedSame(m, m', root);
    SetOpens(e);
  }

  /** An entry that lets user code through, to read and to write. */
  predicate Open(e: Entry) {
    e.Present() && e.IsUser() && e.IsWritable()
  }

  lemma SetOpens(e: Entry)
    requires e.Present()
    ensures Open(e.With(USER_WRITABLE))
  {
  }

  lemma NewOpens(page: nat)
    ensures Open(Entry(page, PRESENT | WRITABLE | USER))
  {
  }

  lemma SamePathsUser(m: Memory, free: set<nat>, root: nat, limit: nat, p: Path, m': Memory)
    requires UserTree(m, free, root, limit) && |m'| == |m| && p != []
    requires forall q: Path :: Lower(q) ==> At(m', root, q) == At(m, root, q)
    requires EntriesExcept(m, m', root, UPPER_HALF, p)
    requires EntryAt(m', root, p) == EntryAt(m, root, p).With(USER_WRITABLE)
    ensures UserTree(m', free, root, limit)
  {
    SetKeeps(EntryAt(m, root, p).flags, USER_WRITABLE);
    assert EntryAt(m', root, p).IsUser();
    assert LargePage(m', root, p) ==> EntryAt(m, root, p).IsHuge();
    assert EntryAt(m, root, p).Present() || At(m, root, p).None?;
  }

  /** Linking a page taken from the allocator: a zeroed table, or a zeroed page to map. */
  lemma LinkPage(m: Memory, free: set<nat>, root: nat, limit: nat, p: Path, i: nat, page: nat, zeroed: Memory, m': Memory)
    requires UserSlot(m, free, root, limit, p, i) && At(m, root, p + [i]).None?
    requires page in free && 0 < page < limit
    requires |zeroed| == |m| && zeroed == m[page := zeroed[page]] && AllZero(zeroed[page])
    requires m' == Store(zeroed, At(m, root, p).value, i, Entry(page, PRESENT | WRITABLE | USER))
    ensures UserTree(m', free - {page}, root, limit) && Conserved(m, free, m', free - {page}, root)
    ensures PathsExcept(m, m', root, UPPER_HALF, p + [i], Some(page))
    ensures EntriesExcept(m, m', root, UPPER_HALF, p + [i]) && Open(EntryAt(m', root, p + [i]))
  {
    hide UserTree, Tree, Owned, IsTable, SameMappings, Find, PathsExcept, EntriesExcept, Open, At, EntryAt;
    NewOpens(page);
    EnterSlot(m, free, root, limit, p, i);
    StoreConserves(m, free, root, limit, p, i, Entry(page, PRESENT | WRITABLE | USER));
    ZeroFreePage(m, free, root, limit, p, i, page, zeroed);
    var e := Entry(page, PRESENT | WRITABLE | USER);
    assert e.Present() && !e.IsHuge() && Leads(e, 4) == Some(page) by { NewFlags(); }
    if |p| <= 2 {
      LinkKeeps(zeroed, root, UPPER_HALF, p, i, e, m');
    } else {
      StoreLeafKeeps(zeroed, root, UPPER_HALF, p, i, e, m');
    }
    SameThenLinked(m, zeroed, m', root, p + [i], page);
    LinkedUser(m, free, root, limit, p + [i], page, m');
    OwnedPlus(m, m', root, p + [i], page);
  }

  lemma NewFlags()
    ensures (PRESENT | WRITABLE | USER) & PRESENT != 0 && (PRESENT | WRITABLE | USER) & HUGE == 0
  {
  }

  lemma ZeroFreePage(m: Memory, free: set<nat>, root: nat, limit: nat, p: Path, i: nat, page: nat, zeroed: Memory)
    requires UserSlot(m, free, root, limit, p, i) && page in free && 0 < page < limit
    requires |zeroed| == |m| && page < |m| && zeroed == m[page := zeroed[page]]
    ensures Slot(zeroed, root, UPPER_HALF, p, i) && At(zeroed, root, p) == At(m, root, p)
    ensures EntryAt(zeroed, root, p + [i]) == EntryAt(m, root, p + [i]) && At(zeroed, root, p + [i]) == At(m, root, p + [i])
    ensures PathsExcept(m, zeroed, root, UPPER_HALF, [], Some(root)) && EntriesExcept(m, zeroed, root, UPPER_HALF, [])
    ensures !IsTable(zeroed, root, UPPER_HALF, page)
  {
    hide UserTree, Find, SameMappings, IsTable;
    FreePageIsNoTable(m, free, root, limit, page);
    WriteOutsideKeeps(m, root, UPPER_HALF, page, zeroed[page], zeroed);
    WriteOutside(m, root, UPPER_HALF, page, zeroed[page], p + [i]);
  }

  lemma SameThenLinked(m: Memory, zeroed: Memory, m': Memory, root: nat, p: Path, page: nat)
    requires p != []
    requires PathsExcept(m, zeroed, root, UPPER_HALF, [], Some(root)) && EntriesExcept(m, zeroed, root, UPPER_HALF, [])
    requires PathsExcept(zeroed, m', root, UPPER_HALF, p, Some(page)) && EntriesExcept(zeroed, m', root, UPPER_HALF, p)
    ensures PathsExcept(m, m', root, UPPER_HALF, p, Some(page)) && EntriesExcept(m, m', root, UPPER_HALF, p)
  {
  }

  lemma FreePageIsNoTable(m: Memory, free: set<nat>, root: nat, limit: nat, page: nat)
    requires UserTree(m, free, root, limit) && page in free
    ensures !IsTable(m, root, UPPER_HALF, page)
  {
  }

  lemma LinkedUser(m: Memory, free: set<nat>, root: nat, limit: nat, p: Path, page: nat, m': Memory)
    requires UserTree(m, free, root, limit) && |m'| == |m| && p != []
    requires page in free && 0 < page < limit
    requires PathsExcept(m, m', root, UPPER_HALF, p, Some(page))
    requires EntriesExcept(m, m', root, UPPER_HALF, p)
    requires EntryAt(m', root, p) == Entry(page, PRESENT | WRITABLE | USER)
    ensures UserTree(m', free - {page}, root, limit)
  {
    assert EntryAt(m', root, p).IsUser() && !EntryAt(m', root, p).IsHuge();
  }

  /** Giving a page back: a mapped page or an empty table, with its entry cleared. */
  lemma UnlinkPage(m: Memory, free: set<nat>, root: nat, limit: nat, p: Path, i: nat, page: nat, m': Memory)
    requires UserSlot(m, free, root, limit, p, i) && At(m, root, p + [i]) == Some(page)
    requires |p| == 3 || Childless(m, root, p + [i])
    requires m' == StoreAt(m, root, UPPER_HALF, p, i, ZERO_ENTRY)
    ensures UserTree(m', free + {page}, root, limit) && Conserved(m, free, m', free + {page}, root)
    ensures PathsExcept(m, m', root, UPPER_HALF, p + [i], None)
  {
    hide UserTree, Tree, Owned, IsTable;
    EnterSlot(m, free, root, limit, p, i);
    StoreConserves(m, free, root, limit, p, i, ZERO_ENTRY);
    UnlinkKeeps(m, root, UPPER_HALF, p, i, m');
    UnlinkedUser(m, free, root, limit, p + [i], page, m');
    OwnedMinus(m, free, m', root, limit, p + [i], page);
  }

  lemma UnlinkedUser(m: Memory, free: set<nat>, root: nat, limit: nat, p: Path, page: nat, m': Memory)
    requires UserTree(m, free, root, limit) && |m'| == |m| && Lower(p) && p != [] && At(m, root, p) == Some(page)
    requires PathsExcept(m, m', root, UPPER_HALF, p, None)
    requires forall q: Path :: Lower(q) && q != [] && EntryAt(m', root, q).Present() ==>
               EntryAt(m', root, q) == EntryAt(m, root, q)
    ensures UserTree(m', free + {page}, root, limit)
  {
    assert forall q: Path :: Lower(q) && At(m', root, q).Some? ==> q != p && At(m', root, q) == At(m, root, q) != Some(page);
    forall q: Path | Lower(q) && 2 <= |q| <= 3
      ensures !LargePage(m', root, q)
    {
      assert EntryAt(m', root, q).Present() ==> LargePage(m', root, q) == LargePage(m, root, q);
    }
  }

  // ----- What user code sees

  /** User code can read and write the page at `p`: every entry on the way lets it through. */
  ghost predicate Usable(m: Memory, root: nat, p: Path) {
    |p| == 4 && forall n: nat :: 1 <= n <= 4 ==> Open(EntryAt(m, root, p[..n]))
  }

  ghost predicate Opened(m: Memory, root: nat, p: Path) {
    p != [] && Open(EntryAt(m, root, p))
  }

  ghost predicate Zeroed(m: Memory, f: nat) {
    f < |m| && AllZero(m[f])
  }

  /** Entries that let user code through go on doing so. */
  ghost predicate StaysOpen(m: Memory, m': Memory, root: nat) {
    forall p: Path :: Lower(p) && Opened(m, root, p) ==> Opened(m', root, p)
  }

  lemma OpenedStays(m: Memory, m': Memory, root: nat, q: Path)
    requires q != [] && EntriesExcept(m, m', root, UPPER_HALF, q) && Open(EntryAt(m', root, q))
    ensures StaysOpen(m, m', root)
  {
  }

  lemma UsableStays(m: Memory, m': Memory, root: nat, p: Path)
    requires StaysOpen(m, m', root) && Lower(p) && Usable(m, root, p)
    ensures Usable(m', root, p)
  {
    forall n: nat | 1 <= n <= 4
      ensures Open(EntryAt(m', root, p[..n]))
    {
      assert Open(EntryAt(m, root, p[..n]));
      assert Lower(p[..n]) && Opened(m, root, p[..n]);
    }
  }

  /** Mapped pages are where they were, with the same content. */
  ghost predicate DataKept(m: Memory, m': Memory, root: nat) {
    |m'| == |m| && forall p: Path :: Lower(p) && |p| == 4 && At(m, root, p).Some? ==>
      At(m', root, p) == At(m, root, p) && At(m, root, p).value < |m| && m'[At(m, root, p).value] == m[At(m, root, p).value]
  }

  lemma DataKeptOn(m: Memory, m1: Memory, m': Memory, root: nat)
    requires DataKept(m, m1, root) && DataKept(m1, m', root)
    ensures DataKept(m, m', root)
  {
  }

  /** A step that writes to the table at `p`, and to a page that was free, leaves the data alone. */
  lemma TableStepKeepsData(m: Memory, free: set<nat>, m': Memory, root: nat, limit: nat, p: Path, i: nat, page: nat, target: Option<nat>)
    requires UserTree(m, free, root, limit) && |m'| == |m| && Lower(p) && |p| <= 3 && Lower(p + [i]) && At(m, root, p).Some?
    requires PathsExcept(m, m', root, UPPER_HALF, p + [i], target) && (At(m, root, p + [i]).Some? ==> target == At(m, root, p + [i]))
    requires forall f: nat :: f < |m| && f != At(m, root, p).value && f != page ==> m'[f] == m[f]
    requires page in free || page == At(m, root, p).value
    ensures DataKept(m, m', root)
  {
  }
}
