/** Formatting a FAT volume (kernel/src/fs/fs.c) and mounting it again (kernel/src/fs/fat.c): the
    layout that is chosen, the boot sector it is written to, and what is read back (section
    "FAT Type Determination" of the Microsoft FAT32 File System Specification, version 1.03). */
module FatFormat {
  import opened FatBoot
  import opened FatTable

  /** `fs_fat_spf_from_clusters`; two entries are always there, so its guard against zero never acts. */
  function SectorsPerFat(clusters: nat, t: FatType): (spf: nat)
    ensures spf >= 1
    ensures match t
      case Fat12 => 1024 * (spf - 1) < 3 * (clusters + 2) + 1 <= 1024 * spf + 1
      case Fat16 => 256 * (spf - 1) < clusters + 2 <= 256 * spf
      case Fat32 => 128 * (spf - 1) < clusters + 2 <= 128 * spf
  {
    var entries := clusters + 2;
    var bytes := match t case Fat12 => (entries * 3 + 1) / 2 case Fat16 => entries * 2 case Fat32 => entries * 4;
    (bytes + (SECTOR - 1)) / SECTOR
  }

  function RootSectors(rootEntries: nat): nat {
    (rootEntries * 32 + (SECTOR - 1)) / SECTOR
  }

  function Overhead(reserved: nat, rootEntries: nat, spf: nat): nat {
    reserved + 2 * spf + RootSectors(rootEntries)
  }

  /** Table size and clusters of a layout that leaves room for data. */
  predicate Lays(total: nat, spc: nat, reserved: nat, rootEntries: nat, spf: nat, clusters: nat) {
    spc > 0 && spf >= 1 && total > Overhead(reserved, rootEntries, spf) && clusters == (total - Overhead(reserved, rootEntries, spf)) / spc && clusters > 0
  }

  /** The table size is the first guess, or was enough for some earlier guess of the clusters. */
  ghost predicate Guessed(total: nat, t: FatType, spc: nat, reserved: nat, rootEntries: nat, spf: nat) {
    spf == 1 || exists was: nat, c: nat :: Lays(total, spc, reserved, rootEntries, was, c) && spf == SectorsPerFat(c, t)
  }

  datatype Layout = Layout(ftype: FatType, spc: nat, reserved: nat, rootEntries: nat, spf: nat, clusters: nat)

  function Reserved(t: FatType): nat {
    if t == Fat32 then 32 else 1
  }

  function RootEntries(t: FatType): nat {
    if t == Fat32 then 0 else 512
  }

  /** The clusters a table size leaves room for, 0 when there is none. */
  function Room(total: nat, spc: nat, reserved: nat, rootEntries: nat, spf: nat): nat
    requires spc > 0
  {
    if total <= Overhead(reserved, rootEntries, spf) then 0 else (total - Overhead(reserved, rootEntries, spf)) / spc
  }

  /** The table size after at most `tries` corrections of a guess, if it leaves room. */
  function Settled(total: nat, t: FatType, spc: nat, reserved: nat, rootEntries: nat, spf: nat, tries: nat): (r: Option<Layout>)
    requires spc > 0
    decreases tries
  {
    var c := Room(total, spc, reserved, rootEntries, spf);
    if c == 0 then None
    else if tries == 0 || SectorsPerFat(c, t) == spf then Some(Layout(t, spc, reserved, rootEntries, spf, c))
    else Settled(total, t, spc, reserved, rootEntries, SectorsPerFat(c, t), tries - 1)
  }

  datatype Option<T> = None | Some(value: T)

  /** The layout of a volume for one type and cluster size, if there is one of that type. */
  function Fitting(total: nat, t: FatType, spc: nat): Option<Layout>
    requires spc > 0
  {
    match Settled(total, t, spc, Reserved(t), RootEntries(t), 1, 8)
    case Some(l) => if TypeFits(t, l.clusters) then Some(l) else None
    case None => None
  }

  /** `fs_fat_try_layout` */
  method TryLayout(total: nat, t: FatType, spc: nat, reserved: nat, rootEntries: nat) returns (ok: bool, spf: nat, clusters: nat)
    requires 0 < spc <= 128 && total < TWO32 && reserved <= 32 && rootEntries <= 512
    ensures Settled(total, t, spc, reserved, rootEntries, 1, 8) == if ok then Some(Layout(t, spc, reserved, rootEntries, spf, clusters)) else None
    ensures ok ==> Lays(total, spc, reserved, rootEntries, spf, clusters) && Guessed(total, t, spc, reserved, rootEntries, spf)
    ensures t == Fat32 && total >= 0x1000_0000 ==> ok && clusters >= 65525
  {
    hide SectorsPerFat, Overhead, Guessed, Settled, Room, Lays;
    spf, clusters := 1, 0;
    FirstGuess(total, t, spc, reserved, rootEntries);
    var iter := 0;
    while iter < 8
      invariant iter <= 8 && spf >= 1 && Guessed(total, t, spc, reserved, rootEntries, spf)
      invariant t == Fat32 ==> 128 * spf <= total + 256
      invariant Settled(total, t, spc, reserved, rootEntries, 1, 8) == Settled(total, t, spc, reserved, rootEntries, spf, 8 - iter)
    {
      RoomIs(total, t, spc, reserved, rootEntries, spf, 8 - iter);
      if total <= Overhead(reserved, rootEntries, spf) { return false, spf, 0; }
      var data := total - Overhead(reserved, rootEntries, spf);
      var c := data / spc;
      if c == 0 { return false, spf, 0; }
      var needed := SectorsPerFat(c, t);
      NextGuess(total, t, spc, reserved, rootEntries, spf, c);
      if needed == spf { break; }
      spf := needed;
      iter := iter + 1;
    }
    RoomIs(total, t, spc, reserved, rootEntries, spf, 8 - iter);
    if total <= Overhead(reserved, rootEntries, spf) { return false, spf, 0; }
    var data := total - Overhead(reserved, rootEntries, spf);
    clusters := data / spc;
    if clusters == 0 { return false, spf, 0; }
    ok := true;
  }

  /** The room left, and what it means for the search. */
  lemma RoomIs(total: nat, t: FatType, spc: nat, reserved: nat, rootEntries: nat, spf: nat, tries: nat)
    requires 0 < spc <= 128 && reserved <= 32 && rootEntries <= 512 && (t == Fat32 ==> 128 * spf <= total + 256) && spf >= 1
    ensures var c := Room(total, spc, reserved, rootEntries, spf);
      && (total > Overhead(reserved, rootEntries, spf) ==> c == (total - Overhead(reserved, rootEntries, spf)) / spc)
      && (total <= Overhead(reserved, rootEntries, spf) ==> c == 0)
      && (c > 0 ==> Lays(total, spc, reserved, rootEntries, spf, c))
      && (t == Fat32 && total >= 0x1000_0000 ==> c >= 65525)
      && Settled(total, t, spc, reserved, rootEntries, spf, tries) ==
        if c == 0 then None
        else if tries == 0 || SectorsPerFat(c, t) == spf then Some(Layout(t, spc, reserved, rootEntries, spf, c))
        else Settled(total, t, spc, reserved, rootEntries, SectorsPerFat(c, t), tries - 1)
  {
    BigVolume(total, t, spc, reserved, rootEntries, spf);
    hide SectorsPerFat, Overhead;
  }

  lemma FirstGuess(total: nat, t: FatType, spc: nat, reserved: nat, rootEntries: nat)
    ensures Guessed(total, t, spc, reserved, rootEntries, 1)
  {
  }

  lemma NextGuess(total: nat, t: FatType, spc: nat, reserved: nat, rootEntries: nat, spf: nat, c: nat)
    requires Lays(total, spc, reserved, rootEntries, spf, c)
    ensures c <= total && Guessed(total, t, spc, reserved, rootEntries, SectorsPerFat(c, t))
    ensures SectorsPerFat(c, t) >= 1 && (t == Fat32 ==> 128 * SectorsPerFat(c, t) <= total + 256)
  {
    hide SectorsPerFat, Overhead;
    QuotientSmaller(total - Overhead(reserved, rootEntries, spf), spc);
  }

  /** On a large volume a FAT32 table leaves room enough. */
  lemma BigVolume(total: nat, t: FatType, spc: nat, reserved: nat, rootEntries: nat, spf: nat)
    requires 0 < spc <= 128 && reserved <= 32 && rootEntries <= 512 && t == Fat32 ==> 128 * spf <= total + 256
    ensures t == Fat32 && 0 < spc <= 128 && reserved <= 32 && rootEntries <= 512 && total >= 0x1000_0000 ==>
      total > Overhead(reserved, rootEntries, spf) && (total - Overhead(reserved, rootEntries, spf)) / spc >= 65525
  {
    if t == Fat32 && 0 < spc <= 128 && reserved <= 32 && rootEntries <= 512 && total >= 0x1000_0000 {
      assert RootSectors(rootEntries) <= 33;
      QuotientLarge(total - Overhead(reserved, rootEntries, spf), spc, 65525);
    }
  }

  lemma QuotientSmaller(x: nat, n: nat)
    requires n > 0
    ensures x / n <= x
  {
    assert x == x / n * n + x % n;
    Times(x / n, 1, n);
  }

  lemma QuotientLarge(x: nat, n: nat, k: nat)
    requires 0 < n <= 128 && x >= 128 * k
    ensures x / n >= k
  {
    assert x == x / n * n + x % n;
    assert (x / n + 1) * n == x / n * n + n;
    Times(k, n, 128);
    TimesLess(x / n + 1, k, n);
  }

  lemma Times(a: nat, b: nat, c: nat)
    ensures b <= c ==> a * b <= a * c
  {
  }

  lemma TimesLess(a: nat, b: nat, n: nat)
    ensures a <= b ==> a * n <= b * n
  {
  }

  // ----- Choosing a layout

  predicate TypeFits(t: FatType, clusters: nat) {
    match t case Fat12 => clusters < 4085 case Fat16 => 4085 <= clusters < 65525 case Fat32 => clusters >= 65525
  }

  const CHOICES: seq<nat> := [1, 2, 4, 8, 16, 32, 64, 128]

  /** What the choice promises about a layout. */
  ghost predicate Chosen(total: nat, l: Layout) {
    && l.spc in CHOICES && TypeFits(l.ftype, l.clusters)
    && l.reserved == Reserved(l.ftype) && l.rootEntries == RootEntries(l.ftype)
    && Lays(total, l.spc, l.reserved, l.rootEntries, l.spf, l.clusters)
    && Guessed(total, l.ftype, l.spc, l.reserved, l.rootEntries, l.spf)
  }

  /** A chosen layout in numbers: the usual reserved sectors and root directory, the type that the
      clusters make it, and as many clusters as fit behind two tables and the root directory. */
  ghost predicate Usual(total: nat, l: Layout) {
    var head := l.reserved + 2 * l.spf + (32 * l.rootEntries + 511) / 512;
    && l.spc in {1, 2, 4, 8, 16, 32, 64, 128} && l.ftype == Kind(l.clusters)
    && l.reserved == (if l.ftype == Fat32 then 32 else 1) && l.rootEntries == (if l.ftype == Fat32 then 0 else 512)
    && l.clusters > 0 && head + l.clusters * l.spc <= total < head + l.clusters * l.spc + l.spc
  }

  lemma ChosenUsual(total: nat, l: Layout)
    requires Chosen(total, l)
    ensures Usual(total, l)
  {
    hide SectorsPerFat, Guessed;
    var data := total - Overhead(l.reserved, l.rootEntries, l.spf);
    assert data == data / l.spc * l.spc + data % l.spc;
  }

  /** No cluster size among the first `n` gives a layout of the type with larger clusters. */
  ghost predicate Largest(total: nat, t: FatType, n: nat, have: bool, spc: nat) {
    forall i :: 0 <= i < n <= |CHOICES| && Fits(total, t, CHOICES[i]) ==> have && CHOICES[i] <= spc
  }

  predicate Fits(total: nat, t: FatType, spc: nat) {
    spc > 0 && Fitting(total, t, spc).Some?
  }

  /** The layout of one type and cluster size. */
  predicate IsLayout(total: nat, t: FatType, l: Layout) {
    l.spc in CHOICES && Fits(total, t, l.spc) && l == Fitting(total, t, l.spc).value
  }

  /** The inner loop of `fs_fat_pick_layout`: the largest clusters that fit the type, if they beat
      what was found before. */
  method BestOfType(total: nat, t: FatType, found: bool, best: Layout) returns (have: bool, l: Layout)
    requires total < TWO32 && (found ==> Chosen(total, best))
    ensures have ==> Chosen(total, l) && ((found && l == best) || (IsLayout(total, t, l) && (found ==> l.spc > best.spc)))
    ensures found ==> have
    ensures Largest(total, t, |CHOICES|, have, l.spc)
    ensures !found && t == Fat32 && total >= 0x1000_0000 ==> have && l.spc == 128
  {
    hide SectorsPerFat, Overhead, Guessed, Lays, Settled, Fits, IsLayout, Chosen, Largest;
    LargestStart(total, t, found, best.spc);
    have, l := found, best;
    for i := 0 to |CHOICES|
      invariant have ==> Chosen(total, l) && ((found && l == best) || (IsLayout(total, t, l) && (found ==> l.spc > best.spc)))
      invariant found ==> have
      invariant Largest(total, t, i, have, l.spc)
      invariant !found && have ==> l.spc <= 128
      invariant !found && t == Fat32 && total >= 0x1000_0000 && i == |CHOICES| ==> have && l.spc == 128
    {
      ChoiceSmall(i);
      var spc := CHOICES[i];
      var ok, candidate := TryType(total, t, spc);
      LargestNext(total, t, i, have, l.spc);
      if !ok { continue; }
      if !have || spc > l.spc { have, l := true, candidate; }
    }
  }

  lemma LargestStart(total: nat, t: FatType, have: bool, spc: nat)
    ensures Largest(total, t, 0, have, spc)
  {
  }

  lemma LargestNext(total: nat, t: FatType, i: nat, have: bool, spc: nat)
    requires i < |CHOICES| && Largest(total, t, i, have, spc)
    ensures var next := CHOICES[i];
      Largest(total, t, i + 1, have || Fits(total, t, next), if Fits(total, t, next) && (!have || next > spc) then next else spc)
  {
    hide Fits;
  }

  /** One try of that loop: the layout, if it makes the volume one of the type. */
  method TryType(total: nat, t: FatType, spc: nat) returns (ok: bool, l: Layout)
    requires spc in CHOICES && 0 < spc <= 128 && total < TWO32
    ensures ok <==> Fits(total, t, spc)
    ensures ok ==> IsLayout(total, t, l) && l.spc == spc && Chosen(total, l)
    ensures t == Fat32 && total >= 0x1000_0000 ==> ok
  {
    hide SectorsPerFat, Overhead, Guessed, Lays, Settled;
    var laid, spf, clusters := TryLayout(total, t, spc, Reserved(t), RootEntries(t));
    l := Layout(t, spc, Reserved(t), RootEntries(t), spf, clusters);
    if !laid { return false, l; }
    if t == Fat12 && clusters >= 4085 { return false, l; }
    if t == Fat16 && (clusters < 4085 || clusters >= 65525) { return false, l; }
    if t == Fat32 && clusters < 65525 { return false, l; }
    ok := true;
  }

  lemma ChoiceSmall(i: nat)
    requires i < |CHOICES|
    ensures 0 < CHOICES[i] <= 128 && (i == |CHOICES| - 1 ==> CHOICES[i] == 128)
  {
  }

  /** The best layout among the types: FAT32 comes first when there is a choice of types, otherwise
      larger clusters do, and FAT16 before FAT12 with equal ones. */
  ghost predicate Best(total: nat, types: seq<FatType>, l: Layout) {
    && l.ftype in types && IsLayout(total, l.ftype, l)
    && forall t, spc :: t in types && spc in CHOICES && Fits(total, t, spc) ==> Beats(l, t, spc)
  }

  /** Some type and cluster size give a layout. */
  ghost predicate Possible(total: nat, types: seq<FatType>) {
    exists t, spc :: t in types && spc in CHOICES && Fits(total, t, spc)
  }

  /** The types to choose from when one is wanted, or none in particular. */
  function Types(wanted: seq<FatType>): seq<FatType> {
    if wanted == [] then [Fat32, Fat16, Fat12] else wanted
  }

  predicate Beats(l: Layout, t: FatType, spc: nat) {
    if l.ftype == Fat32 then t == Fat32 ==> spc <= l.spc
    else t != Fat32 && spc <= l.spc && (spc == l.spc && t == Fat16 ==> l.ftype == Fat16)
  }

  /** `fs_fat_pick_layout`: `types` lists one type, or all three when none was asked for. It fails
      only when no cluster size gives a layout of any of them. */
  method PickLayout(total: nat, types: seq<FatType>) returns (ok: bool, l: Layout)
    requires total < TWO32 && (|types| == 1 || types == [Fat32, Fat16, Fat12])
    ensures ok ==> Chosen(total, l) && l.ftype in types && Best(total, types, l)
    ensures ok <==> Possible(total, types)
    ensures ok && l.ftype == Fat32 && total >= 0x1000_0000 ==> l.spc == 128
  {
    hide SectorsPerFat, Overhead, Guessed, Lays, Chosen, Settled, IsLayout, Largest, Fits;
    ok, l := false, Layout(Fat12, 0, 0, 0, 0, 0);
    for ti := 0 to |types|
      invariant if ok then Chosen(total, l) && Best(total, types[..ti], l) else forall t, spc :: t in types[..ti] && spc in CHOICES ==> !Fits(total, t, spc)
      invariant (ti == 0 ==> !ok) && (ok ==> l.ftype != Fat32)
    {
      ghost var had, was := ok, l;
      ok, l := BestOfType(total, types[ti], ok, l);
      Better(total, types, ti, had, was, ok, l);
      assert types[..|types|] == types;
      if ok && |types| == 1 { break; }
      if ok && |types| != 1 && l.ftype == Fat32 { break; }
    }
    assert types[..|types|] == types;
    if ok { BestPossible(total, types, l); }
  }

  lemma BestPossible(total: nat, types: seq<FatType>, l: Layout)
    requires Best(total, types, l)
    ensures Possible(total, types)
  {
    assert Fits(total, l.ftype, l.spc);
  }

  lemma Better(total: nat, types: seq<FatType>, ti: nat, had: bool, was: Layout, ok: bool, l: Layout)
    requires ti < |types| && (|types| == 1 || types == [Fat32, Fat16, Fat12])
    requires if had then Best(total, types[..ti], was) else forall t, spc :: t in types[..ti] && spc in CHOICES ==> !Fits(total, t, spc)
    requires had ==> ok && was.ftype != Fat32
    requires ok ==> (had && l == was) || (IsLayout(total, types[ti], l) && (had ==> l.spc > was.spc))
    requires Largest(total, types[ti], |CHOICES|, ok, l.spc)
    ensures if ok then Best(total, types[..ti + 1], l) else forall t, spc :: t in types[..ti + 1] && spc in CHOICES ==> !Fits(total, t, spc)
    ensures ok && l.ftype == Fat32 ==> !had && types[ti] == Fat32 && Best(total, types, l)
  {
    if ok && !(had && l == was) { FittingType(total, types[ti], l.spc); }
    hide Fits, IsLayout, Settled;
    assert types[..ti + 1] == types[..ti] + [types[ti]];
    if ok {
      forall t, spc | t in types[..ti + 1] && spc in CHOICES && Fits(total, t, spc)
        ensures Beats(l, t, spc)
      {
        if t in types[..ti] {
          assert had && Beats(was, t, spc);
        } else {
          var i :| 0 <= i < |CHOICES| && CHOICES[i] == spc;
        }
      }
    }
  }

  lemma FittingType(total: nat, t: FatType, spc: nat)
    requires Fits(total, t, spc)
    ensures Fitting(total, t, spc).value.ftype == t && Fitting(total, t, spc).value.spc == spc
  {
    SettledType(total, t, spc, Reserved(t), RootEntries(t), 1, 8);
  }

  lemma {:induction false} SettledType(total: nat, t: FatType, spc: nat, reserved: nat, rootEntries: nat, spf: nat, tries: nat)
    requires spc > 0
    ensures var r := Settled(total, t, spc, reserved, rootEntries, spf, tries); r.Some? ==> r.value.ftype == t && r.value.spc == spc
    decreases tries
  {
    var c := Room(total, spc, reserved, rootEntries, spf);
    if c != 0 && tries > 0 { SettledType(total, t, spc, reserved, rootEntries, SectorsPerFat(c, t), tries - 1); }
  }

  /** The table of a chosen layout fits its field, and its bytes fit 32 bits. */
  lemma TableFits(total: nat, l: Layout)
    requires total < TWO32 && Chosen(total, l) && (l.ftype == Fat32 && total >= 0x1000_0000 ==> l.spc == 128)
    ensures l.ftype != Fat32 ==> l.spf < 0x1_0000
    ensures l.spf * SECTOR < TWO32 && l.spf < TWO32
    ensures Overhead(l.reserved, l.rootEntries, l.spf) < total
  {
    if l.spf != 1 {
      var was: nat, c: nat :| Lays(total, l.spc, l.reserved, l.rootEntries, was, c) && l.spf == SectorsPerFat(c, l.ftype);
      var x, y := total - Overhead(l.reserved, l.rootEntries, l.spf), total - Overhead(l.reserved, l.rootEntries, was);
      assert y <= x + 2 * l.spf;
      QuotientGap(x, y, l.spc, 2 * l.spf);
      QuotientSmaller(y, l.spc);
      if l.spc == 128 { assert c <= total / 128; }
    }
  }

  lemma QuotientGap(x: nat, y: nat, n: nat, d: nat)
    requires n > 0 && y <= x + d
    ensures y / n <= x / n + d
  {
    var q := y / n;
    assert y == q * n + y % n && x == x / n * n + x % n;
    if q > x / n + d {
      TimesLess(x / n + d + 1, q, n);
      assert (x / n + d + 1) * n == x / n * n + d * n + n;
      Times(d, 1, n);
      assert false;
    }
  }

  // ----- The boot sector

  function R16(b: seq<Byte>, off: nat): nat
    requires off + 2 <= |b|
  {
    b[off] as int + 256 * (b[off + 1] as int)
  }

  function R32(b: seq<Byte>, off: nat): nat
    requires off + 4 <= |b|
  {
    R16(b, off) + 65536 * R16(b, off + 2)
  }

  function Low(v: nat): Byte { v % 256 }

  function High(v: nat): Byte { v / 256 % 256 }

  /** A number in two bytes, and in four. */
  ghost predicate Two(b: seq<Byte>, off: nat, v: nat) {
    off + 2 <= |b| && b[off] == Low(v) && b[off + 1] == High(v)
  }

  ghost predicate Four(b: seq<Byte>, off: nat, v: nat) {
    Two(b, off, v % 65536) && Two(b, off + 2, v / 65536)
  }

  lemma TwoIs(b: seq<Byte>, off: nat, v: nat)
    requires Two(b, off, v) && v < 65536
    ensures Num(b, off, 2) == v == R16(b, off)
  {
    NumTwo(b, off);
  }

  lemma FourIs(b: seq<Byte>, off: nat, v: nat)
    requires Four(b, off, v) && v < TWO32
    ensures Num(b, off, 4) == v == R32(b, off)
  {
    TwoIs(b, off, v % 65536);
    TwoIs(b, off + 2, v / 65536);
    NumFour(b, off);
  }

  method Wr16(bs: array<Byte>, off: nat, v: nat)
    requires off + 2 <= bs.Length && v < 0x1_0000
    modifies bs
    ensures bs[off] == Low(v) && bs[off + 1] == High(v)
    ensures forall k :: 0 <= k < bs.Length && !(off <= k < off + 2) ==> bs[k] == old(bs[k])
  {
    bs[off], bs[off + 1] := v % 256, v / 256;
  }

  method Wr32(bs: array<Byte>, off: nat, v: nat)
    requires off + 4 <= bs.Length && v < TWO32
    modifies bs
    ensures bs[off] == Low(v % 65536) && bs[off + 1] == High(v % 65536)
    ensures bs[off + 2] == Low(v / 65536) && bs[off + 3] == High(v / 65536)
    ensures forall k :: 0 <= k < bs.Length && !(off <= k < off + 4) ==> bs[k] == old(bs[k])
  {
    Wr16(bs, off, v % 65536);
    Wr16(bs, off + 2, v / 65536);
  }

  function TotalOf(b: seq<Byte>): nat
    requires |b| == SECTOR
  {
    if R16(b, 19) != 0 then R16(b, 19) else R32(b, 32)
  }

  function SpfOf(b: seq<Byte>): nat
    requires |b| == SECTOR
  {
    if R16(b, 22) != 0 then R16(b, 22) else R32(b, 36)
  }

  /** What mounting reads: the fields of the layout. */
  ghost predicate Says(b: seq<Byte>, l: Layout, sectors: nat) {
    && |b| == SECTOR && R16(b, 11) == SECTOR && b[13] == l.spc && R16(b, 14) == l.reserved && b[16] == 2
    && R16(b, 17) == l.rootEntries
    && TotalOf(b) == sectors && SpfOf(b) == l.spf
    && (l.ftype == Fat32 ==> R32(b, 44) == 2) && b[510] == 0x55 && b[511] == 0xAA
  }

  method PutText(bs: array<Byte>, off: nat, text: seq<Byte>)
    requires off + |text| <= bs.Length
    modifies bs
    ensures bs[off..off + |text|] == text
    ensures forall k :: 0 <= k < bs.Length && !(off <= k < off + |text|) ==> bs[k] == old(bs[k])
  {
    for i := 0 to |text|
      invariant forall k :: 0 <= k < i ==> bs[off + k] == text[k]
      invariant forall k :: 0 <= k < bs.Length && !(off <= k < off + |text|) ==> bs[k] == old(bs[k])
    {
      bs[off + i] := text[i];
    }
  }

  ghost function Short(l: Layout, sectors: nat): nat {
    if l.ftype == Fat32 || sectors >= 65536 then 0 else sectors
  }

  ghost function Long(l: Layout, sectors: nat): nat {
    if l.ftype == Fat32 || sectors >= 65536 then sectors else 0
  }

  /** The fields both kinds of boot sector share. */
  method PutCommon(bs: array<Byte>, l: Layout, sectors: nat, lbaStart: nat)
    requires bs.Length == SECTOR && 0 < sectors < TWO32 && lbaStart < TWO32 && l.spc < 256 && l.reserved < 0x1_0000 && l.rootEntries < 0x1_0000
    requires l.ftype != Fat32 ==> l.spf < 0x1_0000
    requires Zero(bs[..], 0, SECTOR)
    modifies bs
    ensures Common(bs[..], l.ftype, l.spc, l.reserved, l.rootEntries, l.spf, sectors, lbaStart) && Zero(bs[..], 36, SECTOR)
  {
    hide Common, First;
    PutFirst(bs, l, sectors);
    ghost var half := bs[..];
    PutNumbers(bs, l, sectors, lbaStart);
    CommonRest(half, bs[..], l, sectors, lbaStart);
  }

  ghost predicate Begins(b: seq<Byte>) {
    |b| == SECTOR && b[0] == 0xEB && b[1] == 0x3C && b[2] == 0x90 && b[3..11] == OEM
  }

  method PutStart(bs: array<Byte>)
    requires bs.Length == SECTOR
    modifies bs
    ensures Begins(bs[..])
    ensures forall k :: 11 <= k < SECTOR ==> bs[k] == old(bs[k])
  {
    bs[0], bs[1], bs[2] := 0xEB, 0x3C, 0x90;
    PutText(bs, 3, OEM);
  }

  method PutFirst(bs: array<Byte>, l: Layout, sectors: nat)
    requires bs.Length == SECTOR && l.spc < 256 && l.reserved < 0x1_0000 && l.rootEntries < 0x1_0000
    requires Zero(bs[..], 0, SECTOR)
    modifies bs
    ensures First(bs[..], l, sectors) && Zero(bs[..], 21, SECTOR)
  {
    assert Short(l, sectors) == if l.ftype != Fat32 && sectors < 0x1_0000 then sectors else 0;
    hide First, Low, High, Num, Short, Begins;
    PutStart(bs);
    ghost var start := bs[..];
    Wr16(bs, 11, SECTOR);
    bs[13] := l.spc;
    Wr16(bs, 14, l.reserved);
    bs[16] := 2;
    Wr16(bs, 17, l.rootEntries);
    Wr16(bs, 19, if l.ftype != Fat32 && sectors < 0x1_0000 then sectors else 0);
    CommonFirst(start, bs[..], l, sectors);
  }

  method PutNumbers(bs: array<Byte>, l: Layout, sectors: nat, lbaStart: nat)
    requires bs.Length == SECTOR && 0 < sectors < TWO32 && lbaStart < TWO32
    requires l.ftype != Fat32 ==> l.spf < 0x1_0000
    requires Zero(bs[..], 21, SECTOR)
    modifies bs
    ensures var b := bs[..];
      && b[21] == 0xF8 && Two(b, 22, if l.ftype == Fat32 then 0 else l.spf) && Two(b, 24, 63) && Two(b, 26, 255)
      && Four(b, 28, lbaStart) && Four(b, 32, Long(l, sectors)) && Zero(b, 36, SECTOR)
    ensures forall k :: 0 <= k < 21 ==> bs[k] == old(bs[k])
  {
    NoBytes();
    hide Low, High;
    bs[21] := 0xF8;
    Wr16(bs, 22, if l.ftype == Fat32 then 0 else l.spf);
    Wr16(bs, 24, 63);
    Wr16(bs, 26, 255);
    Wr32(bs, 28, lbaStart);
    if l.ftype == Fat32 || sectors >= 0x1_0000 { Wr32(bs, 32, sectors); }
  }

  lemma NoBytes()
    ensures Low(0) == High(0) == 0
  {
  }

  /** Bytes 0 to 20. */
  ghost predicate First(b: seq<Byte>, l: Layout, sectors: nat) {
    && |b| == SECTOR && b[..3] == [0xEB, 0x3C, 0x90] && b[3..11] == OEM
    && Num(b, 11, 2) == 512 && b[13] == l.spc && Num(b, 14, 2) == l.reserved && b[16] == 2 && Num(b, 17, 2) == l.rootEntries
    && Num(b, 19, 2) == Short(l, sectors)
  }

  lemma CommonFirst(start: seq<Byte>, b: seq<Byte>, l: Layout, sectors: nat)
    requires Begins(start)
    requires |b| == SECTOR && (forall k :: 0 <= k < 11 ==> b[k] == start[k]) && Two(b, 11, 512) && b[13] == l.spc
    requires Two(b, 14, l.reserved) && b[16] == 2 && Two(b, 17, l.rootEntries) && Two(b, 19, Short(l, sectors))
    requires l.reserved < 65536 && l.rootEntries < 65536
    ensures First(b, l, sectors)
  {
    TwoIs(b, 11, 512);
    TwoIs(b, 14, l.reserved);
    TwoIs(b, 17, l.rootEntries);
    TwoIs(b, 19, Short(l, sectors));
    hide Num, Two;
    assert b[..3] == [0xEB, 0x3C, 0x90] && b[3..11] == start[3..11];
  }

  lemma CommonRest(half: seq<Byte>, b: seq<Byte>, l: Layout, sectors: nat, lbaStart: nat)
    requires First(half, l, sectors) && |b| == SECTOR && forall k :: 0 <= k < 21 ==> b[k] == half[k]
    requires b[21] == 0xF8 && Two(b, 22, if l.ftype == Fat32 then 0 else l.spf) && Two(b, 24, 63) && Two(b, 26, 255)
    requires Four(b, 28, lbaStart) && Four(b, 32, Long(l, sectors)) && sectors < TWO32 && lbaStart < TWO32
    requires l.ftype != Fat32 ==> l.spf < 65536
    ensures Common(b, l.ftype, l.spc, l.reserved, l.rootEntries, l.spf, sectors, lbaStart)
  {
    TwoIs(b, 22, if l.ftype == Fat32 then 0 else l.spf);
    TwoIs(b, 24, 63);
    TwoIs(b, 26, 255);
    FourIs(b, 28, lbaStart);
    FourIs(b, 32, Long(l, sectors));
    hide Num, Two, Four;
    NumSame(half, b, 11, 2);
    NumSame(half, b, 14, 2);
    NumSame(half, b, 17, 2);
    NumSame(half, b, 19, 2);
    assert b[..3] == half[..3] && b[3..11] == half[3..11];
  }

  method PutFat32(bs: array<Byte>, spf: nat)
    requires bs.Length == SECTOR && spf < TWO32 && Zero(bs[..], 36, SECTOR)
    modifies bs
    ensures Rest32(bs[..], spf) && Zero(bs[..], 90, SECTOR)
    ensures forall k :: 0 <= k < 36 ==> bs[k] == old(bs[k])
  {
    hide Rest32, Low, High;
    PutVolume(bs, spf);
    ghost var half := bs[..];
    bs[64], bs[66] := 0x80, 0x29;
    Wr32(bs, 67, 0x1234_5678);
    PutText(bs, 71, LABEL);
    PutText(bs, 82, [0x46, 0x41, 0x54, 0x33, 0x32, 0x20, 0x20, 0x20]);
    Rest32Is(half, bs[..], spf);
  }

  method PutVolume(bs: array<Byte>, spf: nat)
    requires bs.Length == SECTOR && spf < TWO32 && Zero(bs[..], 36, SECTOR)
    modifies bs
    ensures Volume32(bs[..], spf) && Zero(bs[..], 52, SECTOR)
    ensures forall k :: 0 <= k < 36 ==> bs[k] == old(bs[k])
  {
    hide Low, High;
    Wr32(bs, 36, spf);
    Wr16(bs, 40, 0);
    Wr16(bs, 42, 0);
    Wr32(bs, 44, 2);
    Wr16(bs, 48, 1);
    Wr16(bs, 50, 6);
  }

  /** Bytes 36 to 51. */
  ghost predicate Volume32(b: seq<Byte>, spf: nat) {
    Four(b, 36, spf) && Two(b, 40, 0) && Two(b, 42, 0) && Four(b, 44, 2) && Two(b, 48, 1) && Two(b, 50, 6)
  }

  lemma Rest32Is(half: seq<Byte>, b: seq<Byte>, spf: nat)
    requires |half| == |b| == SECTOR && spf < TWO32 && Volume32(half, spf) && forall k :: 36 <= k < 52 ==> b[k] == half[k]
    requires Zero(b, 52, 64) && b[64] == 0x80 && b[65] == 0 && b[66] == 0x29 && Four(b, 67, 0x1234_5678)
    requires b[71..82] == LABEL && b[82..90] == [0x46, 0x41, 0x54, 0x33, 0x32, 0x20, 0x20, 0x20] && Zero(b, 90, 510)
    ensures Rest32(b, spf)
  {
    NoBytes();
    hide Low, High, Num;
    assert Volume32(b, spf);
    FourIs(b, 36, spf);
    FourIs(b, 44, 2);
    TwoIs(b, 48, 1);
    TwoIs(b, 50, 6);
    FourIs(b, 67, 0x1234_5678);
  }

  method PutFat16(bs: array<Byte>, t: FatType)
    requires bs.Length == SECTOR && Zero(bs[..], 36, SECTOR)
    modifies bs
    ensures Rest16(bs[..], t) && Zero(bs[..], 62, SECTOR)
    ensures forall k :: 0 <= k < 36 ==> bs[k] == old(bs[k])
  {
    hide Num, Low, High;
    bs[36], bs[38] := 0x80, 0x29;
    Wr32(bs, 39, 0x1234_5678);
    PutText(bs, 43, LABEL);
    PutText(bs, 54, [0x46, 0x41, 0x54, 0x31, if t == Fat12 then 0x32 else 0x36, 0x20, 0x20, 0x20]);
    FourIs(bs[..], 39, 0x1234_5678);
  }

  lemma RestSame(a: seq<Byte>, b: seq<Byte>, l: Layout)
    requires |a| == |b| == SECTOR && (forall k :: 0 <= k < 510 ==> a[k] == b[k])
    requires if l.ftype == Fat32 then Rest32(a, l.spf) else Rest16(a, l.ftype)
    ensures if l.ftype == Fat32 then Rest32(b, l.spf) else Rest16(b, l.ftype)
  {
    hide Num;
    if l.ftype == Fat32 {
      NumSame(a, b, 36, 4);
      NumSame(a, b, 44, 4);
      NumSame(a, b, 48, 2);
      NumSame(a, b, 50, 2);
      NumSame(a, b, 67, 4);
      assert b[71..82] == a[71..82] && b[82..90] == a[82..90];
    } else {
      NumSame(a, b, 39, 4);
      assert b[43..54] == a[43..54] && b[54..62] == a[54..62];
    }
  }

  lemma SaysAll(common: seq<Byte>, b: seq<Byte>, l: Layout, sectors: nat, lbaStart: nat)
    requires Common(common, l.ftype, l.spc, l.reserved, l.rootEntries, l.spf, sectors, lbaStart) && l.spf > 0 && sectors > 0
    requires |b| == SECTOR && (forall k :: 0 <= k < 36 ==> b[k] == common[k]) && b[510] == 0x55 && b[511] == 0xAA
    requires if l.ftype == Fat32 then Rest32(b, l.spf) else Rest16(b, l.ftype)
    ensures Image(b, l.ftype, l.spc, l.reserved, l.rootEntries, l.spf, sectors, lbaStart) && Says(b, l, sectors)
  {
    CommonSame(common, b, l.ftype, l.spc, l.reserved, l.rootEntries, l.spf, sectors, lbaStart);
    FieldsAre(b);
    Numbers(b, 36);
    hide Num, R16, R32;
  }

  /** `fs_mkfs_fat` up to the boot sector; `wanted` is the type asked for, or nothing. */
  method MakeBoot(sectors: nat, wanted: seq<FatType>, lbaStart: nat) returns (ok: bool, bs: array<Byte>, ghost l: Layout)
    requires 0 < sectors < TWO32 && lbaStart < TWO32 && |wanted| <= 1
    ensures fresh(bs) && bs.Length == SECTOR
    ensures ok <==> Possible(sectors, Types(wanted))
    ensures ok ==> Best(sectors, Types(wanted), l)
    ensures ok ==> Image(bs[..], l.ftype, l.spc, l.reserved, l.rootEntries, l.spf, sectors, lbaStart)
    ensures ok ==> Chosen(sectors, l) && Says(bs[..], l, sectors) && (l.ftype == Fat32 && sectors >= 0x1000_0000 ==> l.spc == 128)
    ensures ok && wanted != [] ==> l.ftype == wanted[0]
  {
    hide SectorsPerFat, Overhead, Guessed, Lays, Best, Fits, Possible, Common, Rest32, Rest16, Image, Says, Chosen;
    bs := new Byte[SECTOR](_ => 0);
    var layout;
    ok, layout := PickLayout(sectors, Types(wanted));
    l := layout;
    if !ok { return; }
    TableFits(sectors, l);
    FieldsFit(sectors, l);
    PutCommon(bs, layout, sectors, lbaStart);
    ghost var common := bs[..];
    if layout.ftype == Fat32 { PutFat32(bs, layout.spf); } else { PutFat16(bs, layout.ftype); }
    ghost var unsigned := bs[..];
    bs[510], bs[511] := 0x55, 0xAA;
    RestSame(unsigned, bs[..], l);
    SaysAll(common, bs[..], l, sectors, lbaStart);
  }

  lemma FieldsFit(total: nat, l: Layout)
    requires Chosen(total, l)
    ensures 0 < l.spc < 256 && l.reserved < 0x1_0000 && l.rootEntries < 0x1_0000 && l.spf > 0 && l.reserved > 0
  {
    hide SectorsPerFat, Overhead, Guessed;
  }

  // ----- Mounting

  const UNMOUNTED := Mounted(Geometry(Fat12, 0, 0, 0, 0, 0, 0), 0, 0, 0, 0)

  /** The volume holds a boot sector of this layout. */
  ghost predicate Formatted(b: seq<Byte>, l: Layout) {
    exists sectors: nat :: sectors < TWO32 && Says(b, l, sectors) && Chosen(sectors, l) && (l.ftype == Fat32 && sectors >= 0x1000_0000 ==> l.spc == 128)
  }

  /** On every boot sector that mounts: the clusters have entries and lie inside the volume. */
  ghost predicate Inside(m: Mounted) {
    && m.g.sectorsPerCluster > 0 && 0 < m.g.clusterCount && m.g.clusterCount + 2 <= m.g.EntryCount()
    && m.g.firstDataSector + m.g.clusterCount * m.g.sectorsPerCluster <= m.total
  }

  function Least(a: nat, b: nat): nat {
    if a < b then a else b
  }

  /** The layout comes back: type, cluster size, reserved sectors, root size and table size, with as
      many clusters as the table has entries for. */
  ghost predicate Reads(m: Mounted, l: Layout) {
    && m.g.ftype == l.ftype && m.g.sectorsPerCluster == l.spc && m.reserved == l.reserved && m.rootEntries == l.rootEntries
    && m.g.sectorsPerFat == l.spf && m.g.fatCount == 2 && m.g.firstFatSector == l.reserved
    && m.g.firstDataSector == Overhead(l.reserved, l.rootEntries, l.spf)
    && m.g.EntryCount() > 2 && m.g.clusterCount == Least(l.clusters, m.g.EntryCount() - 2)
    && m.g.Valid(m.total)
  }

  function TypeOf(clusters: nat): FatType {
    if clusters < 4085 then Fat12 else if clusters < 65525 then Fat16 else Fat32
  }

  predicate PowerOfTwo(v: Byte) {
    v in {1, 2, 4, 8, 16, 32, 64, 128}
  }

  /** `fat_fs_mount` on a boot sector; sums and products wrap at 32 bits. */
  method Mount(b: seq<Byte>, ghost l: Layout) returns (code: int, m: Mounted)
    requires |b| == SECTOR
    ensures code == if !Signed(b) then -2 else if !Mounts(b) then -3 else 0
    ensures code == 0 ==> m == MountedAs(b) && Inside(m)
    ensures Formatted(b, l) ==> code == 0 && Reads(m, l)
  {
    if Formatted(b, l) { FormattedMeans(b, l); }
    FieldsAre(b);
    hide SectorsPerFat, Guessed, Chosen, Formatted, Says, Inside, Reads, Recovers, Num, Sectors, Table, Sound, MountedWith;
    m := UNMOUNTED;
    if b[510] != 0x55 || b[511] != 0xAA { return -2, m; }
    var spc := b[13];
    var reserved := R16(b, 14);
    var fatCount := b[16];
    var rootEntries := R16(b, 17);
    var total := TotalOf(b);
    var spf := SpfOf(b);
    if R16(b, 11) != SECTOR || spc == 0 || fatCount == 0 || spf == 0 { return -3, m; }
    if !PowerOfTwo(spc) || reserved == 0 || total == 0 { return -3, m; }
    code, m := MountGeometry(spc, reserved, fatCount, spf, rootEntries, total, R32(b, 44));
    if Formatted(b, l) {
      LayoutSound(l, spc, reserved, fatCount, spf, rootEntries, total, R32(b, 44));
      ReadsBack(m, l, total, R32(b, 44));
    }
  }

  /** The fields that mounting reads, by their offsets. */
  lemma FieldsAre(b: seq<Byte>)
    requires |b| == SECTOR
    ensures Num(b, 11, 2) == R16(b, 11) && Num(b, 14, 2) == R16(b, 14) && Num(b, 17, 2) == R16(b, 17)
    ensures Sectors(b) == TotalOf(b) && Table(b) == SpfOf(b) && Num(b, 44, 4) == R32(b, 44)
  {
    hide Num;
    Numbers(b, 11);
    Numbers(b, 14);
    Numbers(b, 17);
    Numbers(b, 19);
    Numbers(b, 22);
    Numbers(b, 32);
    Numbers(b, 36);
    Numbers(b, 44);
  }

  lemma Numbers(b: seq<Byte>, off: nat)
    requires off + 4 <= |b|
    ensures Num(b, off, 2) == R16(b, off) && Num(b, off, 4) == R32(b, off)
  {
    NumTwo(b, off);
    NumTwo(b, off + 2);
    NumFour(b, off);
  }

  /** What a layout mounts as. */
  ghost predicate MountsAs(l: Layout, spc: nat, reserved: nat, fatCount: nat, spf: nat, rootEntries: nat, total: nat, rootCluster: nat) {
    && spc == l.spc && reserved == l.reserved && fatCount == 2 && spf == l.spf && rootEntries == l.rootEntries
    && spf * SECTOR < TWO32 && Overhead(reserved, rootEntries, spf) < total < TWO32
    && spc > 0 && (total - Overhead(reserved, rootEntries, spf)) / spc == l.clusters > 0 && TypeOf(l.clusters) == l.ftype
    && (l.ftype == Fat32 ==> rootCluster == 2) && (l.ftype != Fat32 ==> RootSectors(rootEntries) > 0 && spf < 0x1_0000)
  }

  ghost predicate Recovers(m: Mounted, l: Layout) {
    && m.rootEntries == l.rootEntries && m.reserved == l.reserved && m.g.EntryCount() > 2
    && m.g == Geometry(l.ftype, l.spc, 2, l.spf, l.reserved, Overhead(l.reserved, l.rootEntries, l.spf), Least(l.clusters, m.g.EntryCount() - 2))
  }

  /** Nothing wraps, and the type follows from the clusters. */
  lemma MountNumbers(l: Layout, spc: nat, reserved: nat, fatCount: nat, spf: nat, rootEntries: nat, total: nat, root: nat)
    requires MountsAs(l, spc, reserved, fatCount, spf, rootEntries, total, root)
    ensures fatCount == 2 && spc > 0 && spc == l.spc && reserved == l.reserved && spf == l.spf && rootEntries == l.rootEntries
    ensures (reserved + fatCount * spf) % TWO32 == reserved + 2 * spf
    ensures ((reserved + fatCount * spf) % TWO32 + RootSectors(rootEntries)) % TWO32 == Overhead(reserved, rootEntries, spf) < total
    ensures (total - Overhead(reserved, rootEntries, spf)) / spc == l.clusters > 0 && TypeOf(l.clusters) == l.ftype
    ensures spf * SECTOR < TWO32 && (l.ftype == Fat32 ==> root == 2) && (l.ftype != Fat32 ==> RootSectors(rootEntries) > 0 && spf < 0x1_0000)
  {
  }

  /** The second half of `fat_fs_mount`: from the fields to the geometry. */
  method MountGeometry(spc: nat, reserved: nat, fatCount: nat, spf: nat, rootEntries: nat, total: nat, root: nat)
    returns (code: int, m: Mounted)
    requires spc > 0 && fatCount > 0 && spf > 0
    ensures code == if Sound(spc, reserved, fatCount, spf, rootEntries, total, root) then 0 else -3
    ensures code == 0 ==> m == MountedWith(spc, reserved, fatCount, spf, rootEntries, total, root)
    ensures code == 0 ==> Inside(m) && m.total == total
  {
    DataIs(reserved, fatCount, spf, rootEntries);
    hide RootSectors, Geometry.EntryCount, Sound, MountedWith, DataAt, Entries, Inside, Lower;
    m := UNMOUNTED;
    var rootSectors := RootSectors(rootEntries);
    var firstRoot := (reserved + fatCount * spf) % TWO32;
    var firstData := (firstRoot + rootSectors) % TWO32;
    if firstData >= total {
      NoData(spc, reserved, fatCount, spf, rootEntries, total, root);
      return -3, m;
    }
    var count := (total - firstData) / spc;
    var t := TypeOf(count);
    var g := Geometry(t, spc, fatCount, spf, reserved, firstData, count);
    var entries := g.EntryCount();
    EntriesAre(g);
    SoundMeans(spc, reserved, fatCount, spf, rootEntries, total, root, firstData, count, t, entries);
    if count == 0 { return -3, m; }
    if entries <= 2 { return -3, m; }
    if count > entries - 2 { count := entries - 2; }
    if count == 0 { return -3, m; }
    var rootCluster := if t == Fat32 then root else 0;
    if t == Fat32 {
      if rootCluster < 2 || rootCluster > count + 1 { return -3, m; }
    } else {
      if rootSectors == 0 { return -3, m; }
      if (firstRoot + rootSectors) % TWO32 > total { return -3, m; }
    }
    return 0, Mounted(g.(clusterCount := count), reserved, rootEntries, total, rootCluster);
  }

  /** The numbers of a chosen layout are accepted, and make that layout. */
  lemma LayoutSound(l: Layout, spc: nat, reserved: nat, fatCount: nat, spf: nat, rootEntries: nat, total: nat, root: nat)
    requires MountsAs(l, spc, reserved, fatCount, spf, rootEntries, total, root) && spf > 0
    ensures Sound(spc, reserved, fatCount, spf, rootEntries, total, root)
    ensures Recovers(MountedWith(spc, reserved, fatCount, spf, rootEntries, total, root), l)
  {
    MountNumbers(l, spc, reserved, fatCount, spf, rootEntries, total, root);
    DataIs(reserved, fatCount, spf, rootEntries);
    var data := Overhead(reserved, rootEntries, spf);
    var g := Geometry(l.ftype, spc, 2, spf, reserved, data, l.clusters);
    EntriesAre(g);
    EnoughEntries(g);
    SoundMeans(spc, reserved, fatCount, spf, rootEntries, total, root, data, l.clusters, l.ftype, g.EntryCount());
    hide MountsAs, Overhead, RootSectors, Geometry.EntryCount, Sound, MountedWith, DataAt, Entries;
    SameEntries(g, Least(l.clusters, g.EntryCount() - 2));
  }

  /** The sums in the order the driver computes them. */
  lemma DataIs(reserved: nat, fatCount: nat, spf: nat, rootEntries: nat)
    ensures ((reserved + fatCount * spf) % TWO32 + RootSectors(rootEntries)) % TWO32 == DataAt(reserved, fatCount, spf, rootEntries)
    ensures RootSectors(rootEntries) == 0 <==> rootEntries == 0
  {
    Modular(reserved + fatCount * spf, RootSectors(rootEntries));
  }

  lemma NoData(spc: nat, reserved: nat, fatCount: nat, spf: nat, rootEntries: nat, total: nat, root: nat)
    requires DataAt(reserved, fatCount, spf, rootEntries) >= total
    ensures !Sound(spc, reserved, fatCount, spf, rootEntries, total, root)
  {
  }

  lemma SoundMeans(spc: nat, reserved: nat, fatCount: nat, spf: nat, rootEntries: nat, total: nat, root: nat,
                   data: nat, count: nat, t: FatType, entries: nat)
    requires spc > 0 && data == DataAt(reserved, fatCount, spf, rootEntries) < total
    requires count == (total - data) / spc && t == TypeOf(count) && entries == Entries(t, spf)
    ensures Sound(spc, reserved, fatCount, spf, rootEntries, total, root) <==> (
      && count > 0 && entries > 2 && (t == Fat32 ==> 2 <= root <= (if count > entries - 2 then entries - 2 else count) + 1)
      && (t != Fat32 ==> rootEntries > 0))
    ensures Sound(spc, reserved, fatCount, spf, rootEntries, total, root) ==> (
      var g := Geometry(t, spc, fatCount, spf, reserved, data, if count > entries - 2 then entries - 2 else count);
      var m := Mounted(g, reserved, rootEntries, total, if t == Fat32 then root else 0);
      MountedWith(spc, reserved, fatCount, spf, rootEntries, total, root) == m && Inside(m))
  {
    hide DataAt, Entries, Geometry.EntryCount;
    EntriesAre(Geometry(t, spc, fatCount, spf, reserved, data, if count > entries - 2 > 0 then entries - 2 else count));
    Clamp(total - data, spc, count);
  }

  lemma Modular(x: nat, y: nat)
    ensures (x % TWO32 + y) % TWO32 == (x + y) % TWO32
  {
  }

  lemma EntriesAre(g: Geometry)
    ensures g.EntryCount() == Entries(g.ftype, g.sectorsPerFat)
  {
  }

  lemma EnoughEntries(g: Geometry)
    requires 0 < g.sectorsPerFat && g.sectorsPerFat * SECTOR < TWO32 && (g.ftype != Fat32 ==> g.sectorsPerFat < 0x1_0000)
    ensures g.EntryCount() > 2
  {
  }

  lemma SameEntries(g: Geometry, count: nat)
    ensures g.(clusterCount := count).EntryCount() == g.EntryCount()
  {
  }

  lemma ReadsBack(m: Mounted, l: Layout, total: nat, root: nat)
    requires Inside(m) && m.total == total && MountsAs(l, l.spc, l.reserved, 2, l.spf, l.rootEntries, total, root) && l.spf > 0 && l.spc < 256
    requires l.ftype == Fat32 ==> l.clusters < 0xFFF_FFF0
    requires Recovers(m, l)
    ensures Reads(m, l)
  {
    hide Geometry.EntryCount;
  }

  lemma Clamp(data: nat, spc: nat, count: nat)
    requires spc > 0 && count == data / spc
    ensures forall c: nat :: c <= count ==> c * spc <= data
  {
    assert data == count * spc + data % spc;
    forall c: nat | c <= count
      ensures c * spc <= data
    {
      TimesLess(c, count, spc);
    }
  }

  /** What a formatted boot sector gives the mounting code to compute with. */
  lemma FormattedMeans(b: seq<Byte>, l: Layout)
    requires |b| == SECTOR && Formatted(b, l)
    ensures R16(b, 11) == SECTOR && b[13] == l.spc && R16(b, 14) == l.reserved > 0 && b[16] == 2 && R16(b, 17) == l.rootEntries
    ensures SpfOf(b) == l.spf > 0 && l.spf * SECTOR < TWO32 && b[510] == 0x55 && b[511] == 0xAA && PowerOfTwo(b[13])
    ensures TotalOf(b) < TWO32 && Overhead(l.reserved, l.rootEntries, l.spf) < TotalOf(b)
    ensures l.spc > 0 && (TotalOf(b) - Overhead(l.reserved, l.rootEntries, l.spf)) / l.spc == l.clusters > 0
    ensures TypeOf(l.clusters) == l.ftype && (l.ftype == Fat32 ==> R32(b, 44) == 2 && l.clusters < 0xFFF_FFF0)
    ensures l.ftype != Fat32 ==> RootSectors(l.rootEntries) > 0 && l.spf < 0x1_0000
  {
    var sectors: nat :| sectors < TWO32 && Says(b, l, sectors) && Chosen(sectors, l) && (l.ftype == Fat32 && sectors >= 0x1000_0000 ==> l.spc == 128);
    TableFits(sectors, l);
    FieldsFit(sectors, l);
    hide SectorsPerFat, Guessed;
    var data := sectors - Overhead(l.reserved, l.rootEntries, l.spf);
    QuotientSmaller(data, l.spc);
    if l.ftype == Fat32 && sectors >= 0x1000_0000 { assert l.clusters == data / 128; }
  }

  lemma SaysTotal(b: seq<Byte>, l: Layout, sectors: nat)
    requires Says(b, l, sectors)
    ensures TotalOf(b) == sectors
  {
  }

  /** Formatting and mounting: the driver reads back the layout that was chosen, on a geometry for
      which the table and chain theorems hold. */
  method FormatThenMount(sectors: nat, wanted: seq<FatType>, lbaStart: nat) returns (ok: bool, code: int, m: Mounted, ghost l: Layout)
    requires 0 < sectors < TWO32 && lbaStart < TWO32 && |wanted| <= 1
    ensures ok <==> Possible(sectors, Types(wanted))
    ensures ok ==> Best(sectors, Types(wanted), l)
    ensures ok ==> code == 0 && Chosen(sectors, l) && Reads(m, l) && m.total == sectors && m.g.Valid(sectors)
    ensures ok ==> Usual(sectors, l)
    ensures ok && wanted != [] ==> m.g.ftype == wanted[0]
  {
    hide Chosen, Says, Best, Possible, Usual;
    var bs;
    ok, bs, l := MakeBoot(sectors, wanted, lbaStart);
    code, m := 0, UNMOUNTED;
    if !ok { return; }
    ChosenUsual(sectors, l);
    SaysTotal(bs[..], l, sectors);
    assert Formatted(bs[..], l);
    code, m := Mount(bs[..], l);
  }
}
