/** Physical memory seen as page tables, and the four-level tree that a root table
    spans in it (4-level paging, section 4.5 of the Intel SDM, Volume 3A). */
module PageTree {

  datatype Option<+T> = None | Some(value: T)

  const ENTRIES: nat := 512
  const PAGE_SIZE: nat := 4096
  /** The first root index of the upper (kernel) half of the address space. */
  const UPPER_HALF: nat := 256

  const PRESENT: bv12 := 1
  const WRITABLE: bv12 := 2
  const USER: bv12 := 4
  const HUGE: bv12 := 128

  /** A table entry: the low twelve bits are flags, the rest is a page number. */
  datatype Entry = Entry(frame: nat, flags: bv12) {
    predicate Present() { flags & PRESENT != 0 }
    predicate IsHuge() { flags & HUGE != 0 }
    predicate IsUser() { flags & USER != 0 }
    predicate IsWritable() { flags & WRITABLE != 0 }
    function With(extra: bv12): Entry { Entry(frame, flags | extra) }
  }

  const ZERO_ENTRY := Entry(0, 0)
  type Table = t: seq<Entry> | |t| == ENTRIES witness seq(ENTRIES, _ => ZERO_ENTRY)

  /** A page after `memset(page, 0, PAGE_SIZE)`. */
  function ZeroTable(): (t: Table)
    ensures forall j :: 0 <= j < ENTRIES ==> t[j] == ZERO_ENTRY
  {
    seq(ENTRIES, _ => ZERO_ENTRY)
  }

  predicate AllZero(t: Table) {
    forall j :: 0 <= j < ENTRIES ==> t[j] == ZERO_ENTRY
  }

  /** Physical memory: one table's worth of words for each page. */
  type Memory = seq<Table>

  function Fetch(m: Memory, table: nat, i: nat): Entry {
    if table < |m| && i < ENTRIES then m[table][i] else ZERO_ENTRY
  }

  function Store(m: Memory, table: nat, i: nat, e: Entry): (m': Memory)
    requires table < |m| && i < ENTRIES
    ensures |m'| == |m|
    ensures forall t, j :: Fetch(m', t, j) == if t == table && j == i then e else Fetch(m, t, j)
    ensures forall t :: 0 <= t < |m| && t != table ==> m'[t] == m[t]
  {
    m[table := m[table][i := e]]
  }

  /** The flags by their places: bits 0, 1, 2 and 7. */
  lemma FlagBits(e: Entry)
    ensures e.Present() <==> e.flags & 1 == 1
    ensures e.IsWritable() <==> (e.flags >> 1) & 1 == 1
    ensures e.IsUser() <==> (e.flags >> 2) & 1 == 1
    ensures e.IsHuge() <==> (e.flags >> 7) & 1 == 1
  {
  }

  // ----- Paths

  type Path = seq<nat>

  predicate IsPath(p: Path) {
    |p| <= 4 && forall k :: 0 <= k < |p| ==> p[k] < ENTRIES
  }

  function Front(p: Path): Path
    requires p != []
  {
    p[..|p| - 1]
  }

  function Last(p: Path): nat
    requires p != []
  {
    p[|p| - 1]
  }

  /** The four table indices of a virtual address; bits above 47 and the page offset do not count. */
  function Indices(v: nat): (p: Path)
    ensures IsPath(p) && |p| == 4
  {
    [(v / 0x80_0000_0000) % ENTRIES, (v / 0x4000_0000) % ENTRIES, (v / 0x20_0000) % ENTRIES, (v / 0x1000) % ENTRIES]
  }

  /** Where an entry read after `depth` indices leads: a large page (an entry of the second or
      third level with the page-size bit) ends the walk, so it leads to no table. */
  function Leads(e: Entry, depth: nat): Option<nat> {
    if e.Present() && !(e.IsHuge() && 2 <= depth <= 3) then Some(e.frame) else None
  }

  /** The page number a path leads to: a table for up to three indices, a mapped page for four. */
  ghost function At(m: Memory, root: nat, p: Path): Option<nat> {
    if p == [] then Some(root) else
    match At(m, root, Front(p))
    case None => None
    case Some(t) => Leads(Fetch(m, t, Last(p)), |p|)
  }

  /** The entry a path ends in, present or not. */
  ghost function EntryAt(m: Memory, root: nat, p: Path): Entry
    requires p != []
  {
    match At(m, root, Front(p))
    case None => ZERO_ENTRY
    case Some(t) => Fetch(m, t, Last(p))
  }

  /** A page of the address space: the level its entry was found on, and the entry. */
  datatype Mapping = Mapping(level: nat, entry: Entry)

  ghost predicate LargePage(m: Memory, root: nat, p: Path)
    requires p != []
  {
    EntryAt(m, root, p).Present() && EntryAt(m, root, p).IsHuge()
  }

  /** What the processor finds for a path of four indices: a 1 GiB page, a 2 MiB page or a 4 KiB page. */
  ghost function Find(m: Memory, root: nat, p: Path): Option<Mapping>
    requires |p| == 4
  {
    if LargePage(m, root, p[..2]) then Some(Mapping(2, EntryAt(m, root, p[..2])))
    else if LargePage(m, root, p[..3]) then Some(Mapping(3, EntryAt(m, root, p[..3])))
    else if EntryAt(m, root, p).Present() then Some(Mapping(4, EntryAt(m, root, p)))
    else None
  }

  ghost predicate SmallPagesOnly(m: Memory, root: nat, p: Path)
    requires |p| == 4
  {
    !LargePage(m, root, p[..2]) && !LargePage(m, root, p[..3])
  }

  // ----- Well-formed trees

  /** Paths that start below root index `top`. */
  predicate Within(p: Path, top: nat) {
    IsPath(p) && (p != [] ==> p[0] < top)
  }

  /** A table of the tree: reached by a path of at most three indices. */
  ghost predicate IsTable(m: Memory, root: nat, top: nat, t: nat) {
    exists p: Path :: Within(p, top) && |p| <= 3 && At(m, root, p) == Some(t)
  }

  /** The tables below root index `top` lie in memory and no two paths share one. */
  ghost predicate Tree(m: Memory, root: nat, top: nat) {
    && (forall p: Path :: Within(p, top) && |p| <= 3 && At(m, root, p).Some? ==> At(m, root, p).value < |m|)
    && (forall p: Path, q: Path ::
          (Within(p, top) && Within(q, top) && |p| <= 3 && |q| <= 3
           && At(m, root, p).Some? && At(m, root, p) == At(m, root, q)) ==> p == q)
  }

  /** A tree none of whose tables is a free page. */
  ghost predicate Sound(m: Memory, free: set<nat>, root: nat, top: nat) {
    Tree(m, root, top) && forall t: nat :: IsTable(m, root, top, t) ==> t !in free
  }

  lemma TableInMemory(m: Memory, free: set<nat>, root: nat, top: nat, p: Path)
    requires Sound(m, free, root, top) && Within(p, top) && |p| <= 3 && At(m, root, p).Some?
    ensures At(m, root, p).value < |m| && At(m, root, p).value !in free
    ensures IsTable(m, root, top, At(m, root, p).value)
  {
    assert IsTable(m, root, top, At(m, root, p).value);
  }

  /** The place of an entry in the tree: entry `i` of the table that path `p` leads to. */
  ghost predicate Slot(m: Memory, root: nat, top: nat, p: Path, i: nat) {
    Tree(m, root, top) && |p| <= 3 && i < ENTRIES && Within(p, top) && Within(p + [i], top) && At(m, root, p).Some?
  }

  ghost function StoreAt(m: Memory, root: nat, top: nat, p: Path, i: nat, e: Entry): Memory
    requires Slot(m, root, top, p, i)
  {
    Store(m, At(m, root, p).value, i, e)
  }

  // ----- How one store changes the tree

  lemma SlotTable(m: Memory, root: nat, top: nat, p: Path, i: nat)
    requires Slot(m, root, top, p, i)
    ensures At(m, root, p).value < |m|
  {
  }

  lemma SameTable(m: Memory, root: nat, top: nat, p: Path, q: Path)
    requires Tree(m, root, top) && Within(p, top) && Within(q, top) && |p| <= 3 && |q| <= 3
    requires At(m, root, p).Some? && At(m, root, p) == At(m, root, q)
    ensures p == q
  {
  }

  /** A store leaves every path alone that does not run through the stored entry. */
  lemma {:induction false} StoreElsewhere(m: Memory, root: nat, top: nat, p: Path, i: nat, e: Entry, q: Path)
    requires Slot(m, root, top, p, i)
    requires Within(q, top) && !(p + [i] <= q)
    ensures At(StoreAt(m, root, top, p, i, e), root, q) == At(m, root, q)
    ensures q != [] ==> EntryAt(StoreAt(m, root, top, p, i, e), root, q) == EntryAt(m, root, q)
  {
    hide Tree;
    SlotTable(m, root, top, p, i);
    if q != [] {
      var f := Front(q);
      assert Within(f, top) && !(p + [i] <= f);
      StoreElsewhere(m, root, top, p, i, e, f);
      if At(m, root, f) == At(m, root, p) {
        SameTable(m, root, top, f, p);
        assert q == f + [Last(q)];
      }
    }
  }

  /** The path that ends in the stored entry leads where the new entry points. */
  lemma StoreHere(m: Memory, root: nat, top: nat, p: Path, i: nat, e: Entry)
    requires Slot(m, root, top, p, i)
    ensures At(StoreAt(m, root, top, p, i, e), root, p) == At(m, root, p)
    ensures EntryAt(StoreAt(m, root, top, p, i, e), root, p + [i]) == e
    ensures At(StoreAt(m, root, top, p, i, e), root, p + [i]) == Leads(e, |p| + 1)
  {
    StoreElsewhere(m, root, top, p, i, e, p);
    assert Front(p + [i]) == p && Last(p + [i]) == i;
  }

  lemma SetKeeps(flags: bv12, extra: bv12)
    ensures flags & PRESENT != 0 ==> (flags | extra) & PRESENT != 0
    ensures flags & USER != 0 || extra & USER != 0 ==> (flags | extra) & USER != 0
    ensures extra & HUGE == 0 ==> (flags | extra) & HUGE == flags & HUGE
  {
  }

  lemma WithLeads(e: Entry, extra: bv12, depth: nat)
    requires extra & HUGE == 0 && Leads(e, depth).Some?
    ensures Leads(e.With(extra), depth) == Leads(e, depth)
    ensures e.With(extra).Present() && (e.With(extra).IsHuge() <==> e.IsHuge())
  {
    SetKeeps(e.flags, extra);
  }

  /** Setting flag bits of an entry that leads on moves no path. */
  lemma {:induction false} StoreFlags(m: Memory, root: nat, top: nat, p: Path, i: nat, e: Entry, q: Path)
    requires Slot(m, root, top, p, i) && Within(q, top)
    requires At(m, root, p + [i]) == Leads(e, |p| + 1)
    ensures At(StoreAt(m, root, top, p, i, e), root, q) == At(m, root, q)
    ensures q != [] && q != p + [i] ==>
              EntryAt(StoreAt(m, root, top, p, i, e), root, q) == EntryAt(m, root, q)
  {
    if q == p + [i] {
      StoreHere(m, root, top, p, i, e);
    } else if p + [i] <= q {
      assert p + [i] <= Front(q);
      StoreFlags(m, root, top, p, i, e, Front(q));
    } else {
      StoreElsewhere(m, root, top, p, i, e, q);
    }
  }

  /** Writing to a page that is no table of the tree moves no path. */
  lemma {:induction false} WriteOutside(m: Memory, root: nat, top: nat, f: nat, t: Table, q: Path)
    requires Tree(m, root, top) && f < |m| && !IsTable(m, root, top, f) && Within(q, top)
    ensures At(m[f := t], root, q) == At(m, root, q)
    ensures q != [] ==> EntryAt(m[f := t], root, q) == EntryAt(m, root, q)
  {
    if q != [] {
      WriteOutside(m, root, top, f, t, Front(q));
      assert At(m, root, Front(q)) != Some(f);
    }
  }

  /** An entry a zeroed page can be linked with: a table pointer to a page outside the tree. */
  ghost predicate Linkable(m: Memory, root: nat, top: nat, e: Entry) {
    && e.Present() && !e.IsHuge()
    && e.frame < |m| && AllZero(m[e.frame]) && !IsTable(m, root, top, e.frame)
  }

  /** Linking a zeroed page: the path of the new entry leads to the page, no path leads on from it. */
  lemma {:induction false} LinkFresh(m: Memory, root: nat, top: nat, p: Path, i: nat, e: Entry, q: Path)
    requires Slot(m, root, top, p, i) && Linkable(m, root, top, e)
    requires Within(q, top) && p + [i] <= q
    ensures At(StoreAt(m, root, top, p, i, e), root, q) == if q == p + [i] then Some(e.frame) else None
    ensures EntryAt(StoreAt(m, root, top, p, i, e), root, q) == if q == p + [i] then e else ZERO_ENTRY
  {
    StoreHere(m, root, top, p, i, e);
    if q != p + [i] {
      var m' := StoreAt(m, root, top, p, i, e);
      assert p + [i] <= Front(q);
      LinkFresh(m, root, top, p, i, e, Front(q));
      assert At(m, root, p).value != e.frame;
      assert Fetch(m', e.frame, Last(q)) == ZERO_ENTRY by {
        assert AllZero(m'[e.frame]);
      }
    }
  }

  /** Nothing lies below an entry that leads nowhere. */
  lemma {:induction false} DeadBelow(m: Memory, root: nat, p: Path, q: Path)
    requires p != [] && p <= q && At(m, root, p) == None
    ensures At(m, root, q) == None
    ensures p != q ==> EntryAt(m, root, q) == ZERO_ENTRY
  {
    if p != q {
      assert p <= Front(q);
      DeadBelow(m, root, p, Front(q));
    }
  }

  // ----- The kinds of store a walk makes keep the tree and what it maps

  ghost predicate SameMappings(m: Memory, m': Memory, root: nat, top: nat) {
    forall p: Path :: Within(p, top) && |p| == 4 ==> Find(m', root, p) == Find(m, root, p)
  }

  /** The tables of the tree are those of before and `added`. */
  ghost predicate TablesPlus(m: Memory, m': Memory, root: nat, top: nat, added: set<nat>) {
    forall g: nat :: IsTable(m', root, top, g) <==> IsTable(m, root, top, g) || g in added
  }

  /** All paths lead where they led, but for `p`, which leads to `target`. */
  ghost predicate PathsExcept(m: Memory, m': Memory, root: nat, top: nat, p: Path, target: Option<nat>) {
    forall q: Path :: Within(q, top) ==> At(m', root, q) == if q == p then target else At(m, root, q)
  }

  /** Trees with the same paths are equally well formed and have the same tables. */
  lemma SamePaths(m: Memory, m': Memory, root: nat, top: nat)
    requires Tree(m, root, top) && |m'| == |m|
    requires PathsExcept(m, m', root, top, [], Some(root))
    ensures Tree(m', root, top) && TablesPlus(m, m', root, top, {})
  {
    assert forall q: Path :: Within(q, top) ==> At(m', root, q) == At(m, root, q);
  }

  /** The entries of all paths but `except` are the same. */
  ghost predicate EntriesExcept(m: Memory, m': Memory, root: nat, top: nat, except: Path) {
    forall q: Path :: Within(q, top) && q != [] && q != except ==> EntryAt(m', root, q) == EntryAt(m, root, q)
  }

  /** Paths find what they found when the entries on them are the same, but for one that is no
      large page before or after. */
  lemma SameEntries(m: Memory, m': Memory, root: nat, top: nat, except: Path)
    requires EntriesExcept(m, m', root, top, except) && |except| <= 3
    requires 2 <= |except| ==> !LargePage(m, root, except) && !LargePage(m', root, except)
    ensures SameMappings(m, m', root, top)
  {
    forall q: Path | Within(q, top) && |q| == 4
      ensures Find(m', root, q) == Find(m, root, q)
    {
      assert Within(q[..2], top) && Within(q[..3], top);
    }
  }

  lemma WriteOutsideKeeps(m: Memory, root: nat, top: nat, f: nat, t: Table, m': Memory)
    requires Tree(m, root, top) && f < |m| && !IsTable(m, root, top, f)
    requires m' == m[f := t]
    ensures Tree(m', root, top) && SameMappings(m, m', root, top)
    ensures TablesPlus(m, m', root, top, {})
    ensures PathsExcept(m, m', root, top, [], Some(root))
    ensures EntriesExcept(m, m', root, top, [])
  {
    hide Tree, IsTable, SameMappings, Find;
    forall q: Path | Within(q, top)
      ensures At(m', root, q) == At(m, root, q)
      ensures q != [] ==> EntryAt(m', root, q) == EntryAt(m, root, q)
    {
      WriteOutside(m, root, top, f, t, q);
    }
    SameEntries(m, m', root, top, []);
    SamePaths(m, m', root, top);
  }

  lemma StoreFlagsKeeps(m: Memory, root: nat, top: nat, p: Path, i: nat, extra: bv12, m': Memory)
    requires Slot(m, root, top, p, i) && |p| <= 2 && extra & HUGE == 0
    requires At(m, root, p + [i]).Some?
    requires m' == StoreAt(m, root, top, p, i, EntryAt(m, root, p + [i]).With(extra))
    ensures Tree(m', root, top) && SameMappings(m, m', root, top)
    ensures TablesPlus(m, m', root, top, {})
    ensures PathsExcept(m, m', root, top, [], Some(root))
    ensures EntriesExcept(m, m', root, top, p + [i])
    ensures EntryAt(m', root, p + [i]) == EntryAt(m, root, p + [i]).With(extra)
  {
    hide Tree, IsTable, SameMappings, Find;
    assert Front(p + [i]) == p;
    var e := EntryAt(m, root, p + [i]).With(extra);
    WithLeads(EntryAt(m, root, p + [i]), extra, |p| + 1);
    forall q: Path | Within(q, top)
      ensures At(m', root, q) == At(m, root, q)
      ensures q != [] && q != p + [i] ==> EntryAt(m', root, q) == EntryAt(m, root, q)
    {
      StoreFlags(m, root, top, p, i, e, q);
    }
    StoreHere(m, root, top, p, i, e);
    SameEntries(m, m', root, top, p + [i]);
    SamePaths(m, m', root, top);
  }

  lemma {:induction false} LinkOne(m: Memory, root: nat, top: nat, p: Path, i: nat, e: Entry, q: Path)
    requires Slot(m, root, top, p, i) && |p| <= 2 && Linkable(m, root, top, e)
    requires !EntryAt(m, root, p + [i]).Present() && Within(q, top)
    ensures At(StoreAt(m, root, top, p, i, e), root, q) == if q == p + [i] then Some(e.frame) else At(m, root, q)
    ensures q != [] && q != p + [i] ==> EntryAt(StoreAt(m, root, top, p, i, e), root, q) == EntryAt(m, root, q)
  {
    if p + [i] <= q {
      LinkFresh(m, root, top, p, i, e, q);
      assert Front(p + [i]) == p;
      DeadBelow(m, root, p + [i], q);
    } else {
      StoreElsewhere(m, root, top, p, i, e, q);
    }
  }

  lemma LinkKeeps(m: Memory, root: nat, top: nat, p: Path, i: nat, e: Entry, m': Memory)
    requires Slot(m, root, top, p, i) && |p| <= 2 && Linkable(m, root, top, e)
    requires !EntryAt(m, root, p + [i]).Present()
    requires m' == StoreAt(m, root, top, p, i, e)
    ensures Tree(m', root, top) && SameMappings(m, m', root, top)
    ensures TablesPlus(m, m', root, top, {e.frame})
    ensures PathsExcept(m, m', root, top, p + [i], Some(e.frame))
    ensures EntriesExcept(m, m', root, top, p + [i]) && EntryAt(m', root, p + [i]) == e
  {
    forall q: Path | Within(q, top)
      ensures At(m', root, q) == if q == p + [i] then Some(e.frame) else At(m, root, q)
      ensures q != [] && q != p + [i] ==> EntryAt(m', root, q) == EntryAt(m, root, q)
    {
      LinkOne(m, root, top, p, i, e, q);
    }
    StoreHere(m, root, top, p, i, e);
    assert Front(p + [i]) == p;
    SameEntries(m, m', root, top, p + [i]);
    forall g: nat
      ensures IsTable(m', root, top, g) <==> IsTable(m, root, top, g) || g in {e.frame}
    {
      assert At(m', root, p + [i]) == Some(e.frame);
      if IsTable(m, root, top, g) {
        var q: Path :| Within(q, top) && |q| <= 3 && At(m, root, q) == Some(g);
        assert q != p + [i];
        assert At(m', root, q) == Some(g);
      }
    }
  }

  /** A store to a last-level entry leaves the other paths of four indices alone. */
  lemma StoreLeafElsewhere(m: Memory, root: nat, top: nat, p: Path, i: nat, e: Entry, q: Path)
    requires Slot(m, root, top, p, i) && |p| == 3
    requires Within(q, top) && q != p + [i]
    ensures At(StoreAt(m, root, top, p, i, e), root, q) == At(m, root, q)
    ensures q != [] ==> EntryAt(StoreAt(m, root, top, p, i, e), root, q) == EntryAt(m, root, q)
    ensures |q| == 4 ==> Find(StoreAt(m, root, top, p, i, e), root, q) == Find(m, root, q)
  {
    hide Tree, At, EntryAt;
    assert !(p + [i] <= q);
    StoreElsewhere(m, root, top, p, i, e, q);
    if |q| == 4 {
      assert Within(q[..2], top) && Within(q[..3], top);
      StoreElsewhere(m, root, top, p, i, e, q[..2]);
      StoreElsewhere(m, root, top, p, i, e, q[..3]);
    }
  }

  /** A store to a last-level entry changes the mapping of one path and no table. */
  lemma StoreLeafKeeps(m: Memory, root: nat, top: nat, p: Path, i: nat, e: Entry, m': Memory)
    requires Slot(m, root, top, p, i) && |p| == 3
    requires m' == StoreAt(m, root, top, p, i, e)
    ensures Tree(m', root, top)
    ensures TablesPlus(m, m', root, top, {})
    ensures PathsExcept(m, m', root, top, p + [i], Leads(e, 4))
    ensures EntriesExcept(m, m', root, top, p + [i]) && EntryAt(m', root, p + [i]) == e
    ensures Find(m', root, p + [i]) == if e.Present() then Some(Mapping(4, e)) else None
    ensures forall q: Path :: Within(q, top) && |q| == 4 && q != p + [i] ==> Find(m', root, q) == Find(m, root, q)
  {
    forall q: Path | Within(q, top) && q != p + [i]
      ensures At(m', root, q) == At(m, root, q)
      ensures q != [] ==> EntryAt(m', root, q) == EntryAt(m, root, q)
      ensures |q| == 4 ==> Find(m', root, q) == Find(m, root, q)
    {
      StoreLeafElsewhere(m, root, top, p, i, e, q);
    }
    StoreHere(m, root, top, p, i, e);
    LeafTable(m', root, p, i);
  }

  /** A path that reaches a last-level table met no large page. */
  lemma LeafTable(m: Memory, root: nat, p: Path, i: nat)
    requires |p| == 3 && At(m, root, p).Some?
    ensures SmallPagesOnly(m, root, p + [i])
  {
    assert (p + [i])[..3] == p && (p + [i])[..2] == Front(p) == p[..2];
  }

  // ----- Clearing an entry

  /** Nothing present in the table that a path leads to. */
  ghost predicate Childless(m: Memory, root: nat, p: Path) {
    At(m, root, p).Some? && forall j: nat :: j < ENTRIES ==> !Fetch(m, At(m, root, p).value, j).Present()
  }

  lemma {:induction false} ChildlessBelow(m: Memory, root: nat, p: Path, q: Path)
    requires Childless(m, root, p) && IsPath(q) && p <= q && p != q
    ensures At(m, root, q).None?
  {
    var c := q[..|p| + 1];
    assert Front(c) == p;
    DeadBelow(m, root, c, q);
  }

  /** Clearing the entry of a childless table or of a mapped page removes one path. */
  lemma UnlinkKeeps(m: Memory, root: nat, top: nat, p: Path, i: nat, m': Memory)
    requires Slot(m, root, top, p, i) && (|p| == 3 || Childless(m, root, p + [i]))
    requires m' == StoreAt(m, root, top, p, i, ZERO_ENTRY)
    ensures PathsExcept(m, m', root, top, p + [i], None)
    ensures forall q: Path :: Within(q, top) && q != [] && EntryAt(m', root, q).Present() ==>
              EntryAt(m', root, q) == EntryAt(m, root, q)
  {
    hide Tree, IsTable;
    StoreHere(m, root, top, p, i, ZERO_ENTRY);
    forall q: Path | Within(q, top)
      ensures At(m', root, q) == if q == p + [i] then None else At(m, root, q)
      ensures q != [] && EntryAt(m', root, q).Present() ==> EntryAt(m', root, q) == EntryAt(m, root, q)
    {
      if p + [i] <= q {
        DeadBelow(m', root, p + [i], q);
        if q != p + [i] { ChildlessBelow(m, root, p + [i], q); }
      } else {
        StoreElsewhere(m, root, top, p, i, ZERO_ENTRY, q);
      }
    }
  }
}
