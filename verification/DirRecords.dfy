/** Directory blocks of kernel/src/fs/ext2.c: records of varying length that tile a block, and the
    name lookup they amount to. */
module DirRecords {
  import opened Ext2Layout

  /** One record; `len` is the space it takes in its block. */
  datatype Rec = Rec(inode: nat, len: nat, ftype: Byte, name: seq<Byte>) {
    predicate Fits() {
      inode < 0x1_0000_0000 && len < 0x1_0000 && |name| < 256 && 8 + |name| <= len && len % 4 == 0
    }

    predicate Live() {
      inode != 0 && name != []
    }
  }

  function Align4(n: nat): (a: nat)
    ensures n <= a < n + 4 && a % 4 == 0
  {
    (n + 3) / 4 * 4
  }

  // ----- Bytes of a record

  function U16(b: Block, off: nat): nat
    requires off + 2 <= |b|
  {
    b[off] as int + 256 * (b[off + 1] as int)
  }

  function U32(b: Block, off: nat): nat
    requires off + 4 <= |b|
  {
    U16(b, off) + 65536 * U16(b, off + 2)
  }

  function Bytes2(v: nat): (bs: seq<Byte>)
    requires v < 0x1_0000
    ensures |bs| == 2
  {
    [v % 256, v / 256]
  }

  function Bytes4(v: nat): (bs: seq<Byte>)
    requires v < 0x1_0000_0000
    ensures |bs| == 4
  {
    Bytes2(v % 65536) + Bytes2(v / 65536)
  }

  /** The record at `off`, as the pointer casts of the source read it. */
  function RecAt(b: Block, off: nat): Rec
    requires off + 8 <= |b| && off + 8 + b[off + 6] as int <= |b|
  {
    Rec(U32(b, off), U16(b, off + 4), b[off + 7], b[off + 8..off + 8 + b[off + 6] as int])
  }

  function Put(b: Block, off: nat, bs: seq<Byte>): (b': Block)
    requires off + |bs| <= |b|
    ensures |b'| == |b|
  {
    b[..off] + bs + b[off + |bs|..]
  }

  /** `rec_len` of the record at `off`. */
  function SetLen(b: Block, off: nat, len: nat): (b': Block)
    requires off + 8 <= |b| && len < 0x1_0000
    ensures |b'| == |b|
  {
    Put(b, off + 4, Bytes2(len))
  }

  /** Everything else of the record at `off`. */
  function SetEntry(b: Block, off: nat, inode: nat, ftype: Byte, name: seq<Byte>): (b': Block)
    requires off + 8 + |name| <= |b| && inode < 0x1_0000_0000 && |name| < 256
    ensures |b'| == |b|
  {
    Put(Put(b, off, Bytes4(inode))[off + 6 := |name|][off + 7 := ftype], off + 8, name)
  }

  lemma PutReads(b: Block, off: nat, bs: seq<Byte>, k: nat)
    requires off + |bs| <= |b| && k < |b|
    ensures Put(b, off, bs)[k] == if off <= k < off + |bs| then bs[k - off] else b[k]
  {
  }

  lemma BytesRead(v: nat, b: Block, off: nat)
    requires v < 0x1_0000_0000 && off + 4 <= |b|
    requires b[off] == Bytes4(v)[0] && b[off + 1] == Bytes4(v)[1] && b[off + 2] == Bytes4(v)[2] && b[off + 3] == Bytes4(v)[3]
    ensures U32(b, off) == v
  {
  }

  lemma SetEntryReads(b: Block, off: nat, inode: nat, ftype: Byte, name: seq<Byte>)
    requires off + 8 + |name| <= |b| && inode < 0x1_0000_0000 && |name| < 256
    ensures var b' := SetEntry(b, off, inode, ftype, name);
      b'[off + 6] as int == |name| && RecAt(b', off) == Rec(inode, U16(b, off + 4), ftype, name)
    ensures forall k :: 0 <= k < |b| && !(off <= k < off + 8 + |name|) ==> SetEntry(b, off, inode, ftype, name)[k] == b[k]
  {
    var b1 := Put(b, off, Bytes4(inode))[off + 6 := |name|][off + 7 := ftype];
    var b' := SetEntry(b, off, inode, ftype, name);
    forall k | 0 <= k < |b|
      ensures b'[k] == if off + 8 <= k < off + 8 + |name| then name[k - off - 8] else b1[k]
    {
      PutReads(b1, off + 8, name, k);
    }
    forall k | 0 <= k < |b|
      ensures b1[k] == if off <= k < off + 4 then Bytes4(inode)[k - off] else if k == off + 6 then |name| else if k == off + 7 then ftype as int else b[k] as int
    {
      PutReads(b, off, Bytes4(inode), k);
    }
    hide Put, SetEntry, Bytes4;
    FourSame(b', off, Bytes4(inode));
    BytesRead(inode, b', off);
    assert b'[off + 8..off + 8 + |name|] == name;
  }

  lemma FourSame(b: Block, off: nat, bs: seq<Byte>)
    requires off + 4 <= |b| && |bs| == 4 && forall k :: off <= k < off + 4 ==> b[k] == bs[k - off]
    ensures b[off] == bs[0] && b[off + 1] == bs[1] && b[off + 2] == bs[2] && b[off + 3] == bs[3]
  {
  }

  lemma SetLenReads(b: Block, off: nat, len: nat)
    requires off + 8 <= |b| && off + 8 + b[off + 6] as int <= |b| && len < 0x1_0000
    ensures var b' := SetLen(b, off, len); b'[off + 6] == b[off + 6] && RecAt(b', off) == RecAt(b, off).(len := len)
    ensures forall k :: 0 <= k < |b| && !(off + 4 <= k < off + 6) ==> SetLen(b, off, len)[k] == b[k]
  {
    var b' := SetLen(b, off, len);
    forall k | 0 <= k < |b|
      ensures b'[k] == if off + 4 <= k < off + 6 then Bytes2(len)[k - off - 4] else b[k]
    {
      PutReads(b, off + 4, Bytes2(len), k);
    }
    hide Put, SetLen;
    assert b'[off + 4] == len % 256 && b'[off + 5] == len / 256;
    assert b'[off + 8..off + 8 + b[off + 6] as int] == b[off + 8..off + 8 + b[off + 6] as int];
  }

  // ----- Tiling

  ghost predicate IsRec(b: Block, off: nat, r: Rec) {
    r.Fits() && off + r.len <= |b| && off + 8 <= |b| && b[off + 6] as int == |r.name| && off + 8 + |r.name| <= |b| && RecAt(b, off) == r
  }

  /** The records cover the bytes from `off` to `end`, one after the other. */
  ghost predicate Tiles(b: Block, off: nat, rs: seq<Rec>, end: nat)
    decreases |rs|
  {
    if rs == [] then off == end
    else IsRec(b, off, rs[0]) && Tiles(b, off + rs[0].len, rs[1..], end)
  }

  function Length(rs: seq<Rec>): nat {
    if rs == [] then 0 else rs[0].len + Length(rs[1..])
  }

  lemma {:induction false} TilesLength(b: Block, off: nat, rs: seq<Rec>, end: nat)
    requires Tiles(b, off, rs, end)
    ensures end == off + Length(rs) && (end <= |b| || rs == [])
    decreases |rs|
  {
    if rs != [] { TilesLength(b, off + rs[0].len, rs[1..], end); }
  }

  lemma {:induction false} TilesSplit(b: Block, off: nat, rs: seq<Rec>, end: nat, k: nat)
    requires Tiles(b, off, rs, end) && k <= |rs|
    ensures Tiles(b, off, rs[..k], off + Length(rs[..k])) && Tiles(b, off + Length(rs[..k]), rs[k..], end)
    decreases |rs|
  {
    if k > 0 {
      TilesSplit(b, off + rs[0].len, rs[1..], end, k - 1);
      assert rs[1..][..k - 1] == rs[..k][1..] && rs[1..][k - 1..] == rs[k..];
    }
  }

  lemma {:induction false} TilesJoin(b: Block, off: nat, xs: seq<Rec>, mid: nat, ys: seq<Rec>, end: nat)
    requires Tiles(b, off, xs, mid) && Tiles(b, mid, ys, end)
    ensures Tiles(b, off, xs + ys, end)
    decreases |xs|
  {
    hide IsRec;
    if xs == [] {
      assert xs + ys == ys;
    } else {
      TilesJoin(b, off + xs[0].len, xs[1..], mid, ys, end);
      assert (xs + ys)[1..] == xs[1..] + ys;
    }
  }

  ghost predicate SameRange(b: Block, b': Block, lo: nat, hi: nat) {
    |b'| == |b| && forall k :: lo <= k < hi && k < |b| ==> b'[k] == b[k]
  }

  lemma IsRecSame(b: Block, b': Block, off: nat, r: Rec)
    requires IsRec(b, off, r) && SameRange(b, b', off, off + r.len)
    ensures IsRec(b', off, r)
  {
    assert b'[off + 6] == b[off + 6];
    assert b'[off + 8..off + 8 + |r.name|] == b[off + 8..off + 8 + |r.name|];
  }

  lemma {:induction false} TilesSame(b: Block, b': Block, off: nat, rs: seq<Rec>, end: nat)
    requires Tiles(b, off, rs, end) && SameRange(b, b', off, end)
    ensures Tiles(b', off, rs, end)
    decreases |rs|
  {
    hide IsRec;
    if rs != [] {
      TilesLength(b, off + rs[0].len, rs[1..], end);
      IsRecSame(b, b', off, rs[0]);
      TilesSame(b, b', off + rs[0].len, rs[1..], end);
    }
  }

  /** Replacing the records between two boundaries leaves the others. */
  lemma TilesReplaced(b: Block, b': Block, pre: seq<Rec>, mid: seq<Rec>, post: seq<Rec>, mid': seq<Rec>)
    requires Tiles(b, 0, pre + mid + post, |b|) && |b'| == |b|
    requires SameRange(b, b', 0, Length(pre)) && SameRange(b, b', Length(pre) + Length(mid), |b|)
    requires Tiles(b', Length(pre), mid', Length(pre) + Length(mid))
    ensures Tiles(b', 0, pre + mid' + post, |b|)
  {
    hide Tiles, SameRange, Length;
    var lo, hi := Length(pre), Length(pre) + Length(mid);
    TilesThree(b, pre, mid, post);
    TilesSame(b, b', 0, pre, lo);
    TilesSame(b, b', hi, post, |b|);
    TilesJoin(b', 0, pre, lo, mid', hi);
    TilesJoin(b', 0, pre + mid', hi, post, |b|);
  }

  lemma TilesThree(b: Block, pre: seq<Rec>, mid: seq<Rec>, post: seq<Rec>)
    requires Tiles(b, 0, pre + mid + post, |b|)
    ensures Tiles(b, 0, pre, Length(pre)) && Tiles(b, Length(pre), mid, Length(pre) + Length(mid))
    ensures Tiles(b, Length(pre) + Length(mid), post, |b|)
  {
    hide Tiles, Length;
    var all := pre + mid + post;
    TilesSplit(b, 0, all, |b|, |pre|);
    assert all[..|pre|] == pre && all[|pre|..] == mid + post;
    TilesSplit(b, Length(pre), mid + post, |b|, |mid|);
    assert (mid + post)[..|mid|] == mid && (mid + post)[|mid|..] == post;
  }

  // ----- Lookup

  datatype Entry = Entry(inode: nat, ftype: Byte)

  /** `ext2_dir_find` over records: what the first live one of that name says. */
  function Lookup(rs: seq<Rec>, name: seq<Byte>): (e: seq<Entry>)
    ensures |e| <= 1
  {
    if rs == [] then []
    else if rs[0].Live() && rs[0].name == name then [Entry(rs[0].inode, rs[0].ftype)]
    else Lookup(rs[1..], name)
  }

  function Names(rs: seq<Rec>): set<seq<Byte>> {
    set r | r in rs && r.Live() :: r.name
  }

  /** The map a directory stands for. */
  function Bindings(rs: seq<Rec>): map<seq<Byte>, Entry> {
    map n | n in Names(rs) && Lookup(rs, n) != [] :: Lookup(rs, n)[0]
  }

  /** How many live records have a name. */
  function Occurs(rs: seq<Rec>, name: seq<Byte>): nat {
    if rs == [] then 0 else (if rs[0].Live() && rs[0].name == name then 1 else 0) + Occurs(rs[1..], name)
  }

  /** Live records have different names. */
  ghost predicate Unique(rs: seq<Rec>) {
    forall name :: Occurs(rs, name) <= 1
  }

  lemma {:induction false} OccursConcat(xs: seq<Rec>, ys: seq<Rec>, name: seq<Byte>)
    ensures Occurs(xs + ys, name) == Occurs(xs, name) + Occurs(ys, name)
  {
    if xs == [] {
      assert xs + ys == ys;
    } else {
      OccursConcat(xs[1..], ys, name);
      assert (xs + ys)[1..] == xs[1..] + ys;
    }
  }

  lemma {:induction false} LookupConcat(xs: seq<Rec>, ys: seq<Rec>, name: seq<Byte>)
    ensures Lookup(xs + ys, name) == if Lookup(xs, name) != [] then Lookup(xs, name) else Lookup(ys, name)
  {
    if xs == [] {
      assert xs + ys == ys;
    } else {
      LookupConcat(xs[1..], ys, name);
      assert (xs + ys)[1..] == xs[1..] + ys;
    }
  }

  lemma {:induction false} LookupNone(rs: seq<Rec>, name: seq<Byte>)
    ensures Lookup(rs, name) == [] <==> Occurs(rs, name) == 0
    ensures Lookup(rs, name) == [] <==> name !in Names(rs)
  {
    if rs != [] {
      LookupNone(rs[1..], name);
      assert forall r :: r in rs <==> r == rs[0] || r in rs[1..];
    }
  }

  /** Bindings are what lookup finds. */
  lemma BindingsAre(rs: seq<Rec>, name: seq<Byte>)
    ensures name in Bindings(rs) <==> Lookup(rs, name) != []
    ensures name in Bindings(rs) ==> Lookup(rs, name) == [Bindings(rs)[name]]
  {
    LookupNone(rs, name);
  }

  /** `mid'` has one more record for `name`, with `e`: a lookup finds it, or the one that was there. */
  ghost predicate Binds(mid: seq<Rec>, mid': seq<Rec>, name: seq<Byte>, e: Entry) {
    forall x: seq<Byte> ::
      && Occurs(mid', x) == Occurs(mid, x) + (if x == name then 1 else 0)
      && (x != name ==> Lookup(mid', x) == Lookup(mid, x))
      && (x == name ==> Lookup(mid', x) == [e] || (Lookup(mid', x) == Lookup(mid, x) && Lookup(mid, x) != []))
  }

  /** `mid'` binds what `mid` binds, without `name`. */
  ghost predicate Unbinds(mid: seq<Rec>, mid': seq<Rec>, name: seq<Byte>) {
    forall x: seq<Byte> :: Occurs(mid', x) == Occurs(mid, x) - (if x == name then 1 else 0) &&
      (x != name ==> Lookup(mid', x) == Lookup(mid, x))
  }

  /** One more record in a part is one more in the whole. */
  lemma BindsWithin(pre: seq<Rec>, mid: seq<Rec>, mid': seq<Rec>, post: seq<Rec>, name: seq<Byte>, e: Entry)
    requires Binds(mid, mid', name, e)
    ensures Binds(pre + mid + post, pre + mid' + post, name, e)
  {
    hide Occurs, Lookup;
    forall x: seq<Byte>
      ensures Occurs(pre + mid' + post, x) == Occurs(pre + mid + post, x) + (if x == name then 1 else 0)
      ensures x != name ==> Lookup(pre + mid' + post, x) == Lookup(pre + mid + post, x)
      ensures x == name ==> Lookup(pre + mid' + post, x) == [e]
                            || (Lookup(pre + mid' + post, x) == Lookup(pre + mid + post, x) && Lookup(pre + mid + post, x) != [])
    {
      ThreeParts(pre, mid, post, x);
      ThreeParts(pre, mid', post, x);
    }
  }

  /** A directory with one more record: its names stay different exactly when the name is new, and
      then it has one more binding. */
  lemma Bound(was: seq<Rec>, now: seq<Rec>, name: seq<Byte>, e: Entry)
    requires Unique(was) && Binds(was, now, name, e)
    ensures Unique(now) <==> name !in Bindings(was)
    ensures name !in Bindings(was) ==> Bindings(now) == Bindings(was)[name := e]
  {
    hide Occurs, Lookup, Bindings;
    BindingsAre(was, name);
    LookupNone(was, name);
    assert Occurs(now, name) == Occurs(was, name) + 1;
    if name !in Bindings(was) {
      var m := Bindings(was)[name := e];
      forall x: seq<Byte>
        ensures Lookup(now, x) == (if x in m then [m[x]] else []) && Occurs(now, x) <= 1
      {
        BindingsAre(was, x);
        assert Occurs(was, x) <= 1;
      }
      SameBindings(now, m);
    }
  }

  /** A directory with one binding less. */
  lemma Unbound(pre: seq<Rec>, mid: seq<Rec>, mid': seq<Rec>, post: seq<Rec>, name: seq<Byte>)
    requires Unique(pre + mid + post) && Unbinds(mid, mid', name)
    ensures Unique(pre + mid' + post) && Bindings(pre + mid' + post) == Bindings(pre + mid + post) - {name}
  {
    var was, now := pre + mid + post, pre + mid' + post;
    var m := Bindings(was) - {name};
    forall x: seq<Byte>
      ensures Lookup(now, x) == (if x in m then [m[x]] else []) && Occurs(now, x) <= 1
    {
      ThreeParts(pre, mid, post, x);
      ThreeParts(pre, mid', post, x);
      BindingsAre(was, x);
      LookupNone(now, x);
      assert Occurs(was, x) <= 1;
    }
    SameBindings(now, m);
  }

  lemma ThreeParts(pre: seq<Rec>, mid: seq<Rec>, post: seq<Rec>, x: seq<Byte>)
    ensures Occurs(pre + mid + post, x) == Occurs(pre, x) + Occurs(mid, x) + Occurs(post, x)
    ensures Lookup(pre + mid + post, x) == if Lookup(pre, x) != [] then Lookup(pre, x) else if Lookup(mid, x) != [] then Lookup(mid, x) else Lookup(post, x)
    ensures Occurs(pre, x) == 0 <==> Lookup(pre, x) == []
    ensures Occurs(mid, x) == 0 <==> Lookup(mid, x) == []
    ensures Occurs(post, x) == 0 <==> Lookup(post, x) == []
  {
    OccursConcat(pre + mid, post, x);
    OccursConcat(pre, mid, x);
    LookupConcat(pre + mid, post, x);
    LookupConcat(pre, mid, x);
    LookupNone(pre, x);
    LookupNone(mid, x);
    LookupNone(post, x);
  }

  // ----- What the edits bind

  lemma OneRec(r: Rec, x: seq<Byte>)
    ensures Occurs([r], x) == if r.Live() && r.name == x then 1 else 0
    ensures Lookup([r], x) == if r.Live() && r.name == x then [Entry(r.inode, r.ftype)] else []
  {
    assert [r][1..] == [];
  }

  lemma TwoRecs(r: Rec, s: Rec, x: seq<Byte>)
    ensures Occurs([r, s], x) == Occurs([r], x) + Occurs([s], x)
    ensures Lookup([r, s], x) == if Lookup([r], x) != [] then Lookup([r], x) else Lookup([s], x)
  {
    assert [r, s][1..] == [s];
    OneRec(r, x);
    OneRec(s, x);
  }

  lemma ReuseBinds(r: Rec, r': Rec)
    requires r.inode == 0 && r'.Live()
    ensures Binds([r], [r'], r'.name, Entry(r'.inode, r'.ftype))
  {
    forall x: seq<Byte>
      ensures Occurs([r'], x) == (if x == r'.name then 1 else 0) && Occurs([r], x) == 0 && Lookup([r], x) == []
      ensures Lookup([r'], x) == if x == r'.name then [Entry(r'.inode, r'.ftype)] else []
    {
      OneRec(r, x);
      OneRec(r', x);
    }
  }

  lemma SplitBinds(r: Rec, used: nat, s: Rec)
    requires s.Live()
    ensures Binds([r], [r.(len := used), s], s.name, Entry(s.inode, s.ftype))
  {
    forall x: seq<Byte>
      ensures Occurs([r.(len := used), s], x) == Occurs([r], x) + (if x == s.name then 1 else 0)
      ensures x != s.name ==> Lookup([r.(len := used), s], x) == Lookup([r], x)
      ensures x == s.name ==> Lookup([r.(len := used), s], x) == if Lookup([r], x) == [] then [Entry(s.inode, s.ftype)] else Lookup([r], x)
    {
      TwoRecs(r.(len := used), s, x);
      OneRec(r, x);
      OneRec(r, s.name);
      OneRec(r.(len := used), x);
      OneRec(s, x);
    }
  }

  lemma NewBinds(s: Rec)
    requires s.Live()
    ensures Binds([], [s], s.name, Entry(s.inode, s.ftype))
  {
    forall x: seq<Byte>
      ensures Occurs([s], x) == (if x == s.name then 1 else 0)
      ensures Lookup([s], x) == if x == s.name then [Entry(s.inode, s.ftype)] else []
    {
      OneRec(s, x);
    }
  }

  lemma MergeUnbinds(p: Rec, len: nat, r: Rec)
    requires r.Live()
    ensures Unbinds([p, r], [p.(len := len)], r.name)
  {
    forall x: seq<Byte>
      ensures Occurs([p.(len := len)], x) == Occurs([p, r], x) - (if x == r.name then 1 else 0)
      ensures x != r.name ==> Lookup([p.(len := len)], x) == Lookup([p, r], x)
    {
      TwoRecs(p, r, x);
      OneRec(p, x);
      OneRec(r, x);
      OneRec(p.(len := len), x);
    }
  }

  lemma UnuseUnbinds(r: Rec)
    requires r.Live()
    ensures Unbinds([r], [r.(inode := 0)], r.name)
  {
    forall x: seq<Byte>
      ensures Occurs([r.(inode := 0)], x) == Occurs([r], x) - (if x == r.name then 1 else 0)
      ensures x != r.name ==> Lookup([r.(inode := 0)], x) == Lookup([r], x)
    {
      OneRec(r, x);
      OneRec(r.(inode := 0), x);
    }
  }

  lemma SameBindings(now: seq<Rec>, m: map<seq<Byte>, Entry>)
    requires forall x: seq<Byte> :: Lookup(now, x) == if x in m then [m[x]] else []
    ensures Bindings(now) == m
  {
    forall x: seq<Byte>
      ensures x in Bindings(now) <==> x in m
      ensures x in m ==> Bindings(now)[x] == m[x]
    {
      BindingsAre(now, x);
      assert Lookup(now, x) == if x in m then [m[x]] else [];
    }
  }

  // ----- Edits of a block

  /** A dead record takes a new entry. */
  lemma Reused(b: Block, pre: seq<Rec>, r: Rec, post: seq<Rec>, inode: nat, ftype: Byte, name: seq<Byte>)
    requires Tiles(b, 0, pre + [r] + post, |b|) && 8 + |name| <= r.len && inode < 0x1_0000_0000 && |name| < 256
    ensures Length(pre) + 8 + |name| <= |b|
    ensures var r' := Rec(inode, r.len, ftype, name);
      r'.Fits() && Tiles(SetEntry(b, Length(pre), inode, ftype, name), 0, pre + [r'] + post, |b|)
  {
    hide IsRec, Tiles, Length, SetLen, SetEntry, U32, RecAt;
    var off := Length(pre);
    TilesThree(b, pre, [r], post);
    TilesOne(b, off, r);
    Inside(b, off, r);
    EntrySet(b, off, r, inode, ftype, name);
    var r' := Rec(inode, r.len, ftype, name);
    TilesOne(SetEntry(b, off, inode, ftype, name), off, r');
    LengthOne(r);
    TilesReplaced(b, SetEntry(b, off, inode, ftype, name), pre, [r], post, [r']);
  }

  lemma EntrySet(b: Block, off: nat, r: Rec, inode: nat, ftype: Byte, name: seq<Byte>)
    requires IsRec(b, off, r) && 8 + |name| <= r.len && inode < 0x1_0000_0000 && |name| < 256
    ensures var b' := SetEntry(b, off, inode, ftype, name); var r' := Rec(inode, r.len, ftype, name);
      r'.Fits() && IsRec(b', off, r') && SameRange(b, b', 0, off) && SameRange(b, b', off + r.len, |b|)
  {
    SetEntryReads(b, off, inode, ftype, name);
    hide SetEntry, U32;
  }

  lemma TilesOne(b: Block, off: nat, r: Rec)
    ensures Tiles(b, off, [r], off + r.len) <==> IsRec(b, off, r)
    ensures Tiles(b, off, [r], off + Length([r])) <==> IsRec(b, off, r)
  {
    assert [r][1..] == [];
  }

  lemma LengthOne(r: Rec)
    ensures Length([r]) == r.len
  {
    assert [r][1..] == [];
  }

  lemma TilesTwo(b: Block, off: nat, r: Rec, s: Rec)
    ensures Tiles(b, off, [r, s], off + r.len + s.len) <==> IsRec(b, off, r) && IsRec(b, off + r.len, s)
    ensures Length([r, s]) == r.len + s.len
  {
    assert [r, s][1..] == [s];
    TilesOne(b, off + r.len, s);
    LengthOne(s);
  }

  lemma Inside(b: Block, off: nat, r: Rec)
    requires IsRec(b, off, r)
    ensures off + 8 + |r.name| <= off + r.len <= |b| && r.len < 0x1_0000 && r.len % 4 == 0
  {
  }

  /** A record whose `rec_len` changes stays a record, if it still has room for its name. */
  lemma NewLength(b: Block, off: nat, r: Rec, len: nat)
    requires IsRec(b, off, r) && 8 + |r.name| <= len < 0x1_0000 && len % 4 == 0 && off + len <= |b|
    ensures IsRec(SetLen(b, off, len), off, r.(len := len))
    ensures forall k :: 0 <= k < |b| && !(off + 4 <= k < off + 6) ==> SetLen(b, off, len)[k] == b[k]
  {
    SetLenReads(b, off, len);
    hide SetLen, U32;
  }

  /** A record with room gives up its tail to a new one. */
  lemma SplitUp(b: Block, pre: seq<Rec>, r: Rec, post: seq<Rec>, used: nat, inode: nat, ftype: Byte, name: seq<Byte>)
    requires Tiles(b, 0, pre + [r] + post, |b|) && inode < 0x1_0000_0000 && |name| < 256
    requires 8 + |r.name| <= used && used % 4 == 0 && used + 8 + |name| <= r.len
    ensures Length(pre) + used + 8 + |name| <= |b| && r.len < 0x1_0000
    ensures var off := Length(pre);
      Tiles(SetEntry(SetLen(SetLen(b, off, used), off + used, r.len - used), off + used, inode, ftype, name), 0,
            pre + [r.(len := used), Rec(inode, r.len - used, ftype, name)] + post, |b|)
  {
    hide IsRec, Tiles, Length, SetLen, SetEntry, U32, RecAt;
    var off := Length(pre);
    TilesThree(b, pre, [r], post);
    TilesOne(b, off, r);
    LengthOne(r);
    Inside(b, off, r);
    var b1 := SetLen(b, off, used);
    NewLength(b, off, r, used);
    var b2 := SetLen(b1, off + used, r.len - used);
    var b3 := SetEntry(b2, off + used, inode, ftype, name);
    TailSet(b1, off + used, r.len - used, inode, ftype, name);
    var first, second := r.(len := used), Rec(inode, r.len - used, ftype, name);
    IsRecSame(b1, b3, off, first);
    TilesTwo(b3, off, first, second);
    TilesReplaced(b, b3, pre, [r], post, [first, second]);
  }

  lemma TailSet(b: Block, off: nat, len: nat, inode: nat, ftype: Byte, name: seq<Byte>)
    requires off + len <= |b| && 8 + |name| <= len < 0x1_0000 && len % 4 == 0 && inode < 0x1_0000_0000 && |name| < 256
    ensures var b' := SetEntry(SetLen(b, off, len), off, inode, ftype, name);
      IsRec(b', off, Rec(inode, len, ftype, name)) && forall k :: 0 <= k < |b| && !(off <= k < off + len) ==> b'[k] == b[k]
  {
    var b1 := SetLen(b, off, len);
    forall k | 0 <= k < |b|
      ensures b1[k] == if off + 4 <= k < off + 6 then Bytes2(len)[k - off - 4] else b[k]
    {
      PutReads(b, off + 4, Bytes2(len), k);
    }
    assert b1[off + 4] == len % 256 && b1[off + 5] == len / 256;
    SetEntryReads(b1, off, inode, ftype, name);
    hide SetEntry, SetLen, U32;
  }

  /** A removed record's space goes to the one before it. */
  lemma MergedInto(b: Block, pre: seq<Rec>, p: Rec, r: Rec, post: seq<Rec>)
    requires Tiles(b, 0, pre + [p, r] + post, |b|) && |b| < 0x1_0000
    ensures Length(pre) + 8 <= |b| && p.len + r.len < 0x1_0000
    ensures Tiles(SetLen(b, Length(pre), p.len + r.len), 0, pre + [p.(len := p.len + r.len)] + post, |b|)
  {
    hide IsRec, Tiles, Length, SetLen, SetEntry, U32, RecAt;
    var off := Length(pre);
    TilesThree(b, pre, [p, r], post);
    TilesTwo(b, off, p, r);
    Inside(b, off, p);
    Inside(b, off + p.len, r);
    var b' := SetLen(b, off, p.len + r.len);
    NewLength(b, off, p, p.len + r.len);
    var p' := p.(len := p.len + r.len);
    TilesOne(b', off, p');
    TilesReplaced(b, b', pre, [p, r], post, [p']);
  }

  /** The first record of a block only loses its inode. */
  lemma Unused(b: Block, r: Rec, post: seq<Rec>)
    requires Tiles(b, 0, [r] + post, |b|)
    ensures 8 <= |b| && Tiles(Put(b, 0, Bytes4(0)), 0, [r.(inode := 0)] + post, |b|)
  {
    hide IsRec, Tiles, Length, SetLen, SetEntry, U32, RecAt;
    TilesOne(b, 0, r);
    LengthOne(r);
    NoLength();
    assert [] + [r] + post == [r] + post && [] + [r.(inode := 0)] + post == [r.(inode := 0)] + post;
    TilesThree(b, [], [r], post);
    Inside(b, 0, r);
    InodeCleared(b, r);
    TilesOne(Put(b, 0, Bytes4(0)), 0, r.(inode := 0));
    TilesReplaced(b, Put(b, 0, Bytes4(0)), [], [r], post, [r.(inode := 0)]);
  }

  lemma NoLength()
    ensures Length([]) == 0
  {
  }

  lemma InodeCleared(b: Block, r: Rec)
    requires IsRec(b, 0, r) && |b| >= 8
    ensures var b' := Put(b, 0, Bytes4(0)); IsRec(b', 0, r.(inode := 0)) && SameRange(b, b', 0, 0) && SameRange(b, b', r.len, |b|)
  {
    var b' := Put(b, 0, Bytes4(0));
    forall k | 0 <= k < |b|
      ensures b'[k] == if k < 4 then Bytes4(0)[k] else b[k]
    {
      PutReads(b, 0, Bytes4(0), k);
    }
    hide Put;
    BytesRead(0, b', 0);
    assert b'[8..8 + |r.name|] == b[8..8 + |r.name|];
  }
}
