/** Long file names of kernel/src/fs/fat.c: the directory entries a name is spread over, and the
    accumulator that puts it together again (section "FAT Long Directory Entries" of the Microsoft
    FAT32 File System Specification, version 1.03). */
module LongNames {

  const MAX_NAME: nat := 64
  const PER_ENTRY: nat := 13
  const LAST: nat := 0x40

  /** The order byte, the checksum of the short name, and thirteen 16-bit characters. */
  datatype Entry = Entry(order: nat, checksum: nat, chars: seq<nat>)

  function Pow2(n: nat): (p: nat)
    ensures p > 0
  {
    if n == 0 then 1 else 2 * Pow2(n - 1)
  }

  /** `mask | (1 << i)` */
  function SetBit(mask: nat, i: nat): nat {
    if mask / Pow2(i) % 2 == 1 then mask else mask + Pow2(i)
  }

  /** The accumulator as a value; `name` is the buffer of 64 characters. */
  datatype State = State(active: bool, expected: nat, seen: nat, name: seq<nat>)

  function Zeros(n: nat): (z: seq<nat>)
    ensures |z| == n && forall i :: 0 <= i < n ==> z[i] == 0
  {
    if n == 0 then [] else Zeros(n - 1) + [0]
  }

  /** `fat_lfn_reset` */
  function Empty(): (a: State)
    ensures |a.name| == MAX_NAME
  {
    State(false, 0, 0, Zeros(MAX_NAME))
  }

  /** `fat_lfn_put_char` */
  function PutChar(name: seq<nat>, pos: nat, ch: nat): (n: seq<nat>)
    requires |name| == MAX_NAME
    ensures |n| == MAX_NAME
  {
    if pos >= MAX_NAME - 1 || ch == 0 || ch == 0xFFFF then name else name[pos := if 32 <= ch <= 126 then ch else '?' as nat]
  }

  function PutChars(name: seq<nat>, base: nat, chars: seq<nat>): (n: seq<nat>)
    requires |name| == MAX_NAME
    ensures |n| == MAX_NAME
  {
    if chars == [] then name
    else PutChar(PutChars(name, base, chars[..|chars| - 1]), base + |chars| - 1, chars[|chars| - 1])
  }

  /** `fat_lfn_push`: rejects orders out of range or out of turn. */
  function Pushed(a: State, e: Entry): (r: State)
    requires |a.name| == MAX_NAME
    ensures |r.name| == MAX_NAME
  {
    var idx := e.order % 0x20;
    var last := e.order / 0x40 % 2 == 1;
    if idx == 0 || idx > 20 then Empty()
    else if !last && (!a.active || a.expected == 0 || idx > a.expected) then Empty()
    else
      var s := if last then Empty().(active := true, expected := idx) else a;
      s.(name := PutChars(s.name, (idx - 1) * PER_ENTRY, e.chars), seen := SetBit(s.seen, idx - 1))
  }

  /** `fat_lfn_complete` */
  predicate Complete(a: State) {
    a.active && 0 < a.expected <= 20 && a.seen == Pow2(a.expected) - 1 && |a.name| == MAX_NAME && a.name[0] != 0
  }

  /** Where the characters of an entry go: to 13 * (number - 1) and on, in a buffer whose last place
      stays free. Zeros and 0xFFFF are skipped, what cannot be printed becomes a question mark. */
  lemma {:induction false} PutCharsAt(name: seq<nat>, base: nat, chars: seq<nat>, p: nat)
    requires |name| == MAX_NAME && p < 64
    ensures PutChars(name, base, chars)[p] ==
      if base <= p < base + |chars| && p < 63 && chars[p - base] != 0 && chars[p - base] != 0xFFFF
      then (if 32 <= chars[p - base] <= 126 then chars[p - base] else 63)
      else name[p]
  {
    if chars != [] { PutCharsAt(name, base, chars[..|chars| - 1], p); }
  }

  /** Which entries are taken: numbers 1 to 20 that carry bit 0x40, which starts a name, or that come
      no later than a name begun before says. */
  predicate Taken(a: State, e: Entry) {
    var number := e.order % 32;
    1 <= number <= 20 && (e.order / 64 % 2 == 1 || (a.active && number <= a.expected))
  }

  /** The accumulator after one entry. */
  lemma PushedIs(a: State, e: Entry, p: nat)
    requires |a.name| == MAX_NAME && p < 64
    ensures !Taken(a, e) ==> Pushed(a, e) == State(false, 0, 0, Zeros(64))
    ensures Taken(a, e) ==> (
      var number, starts := e.order % 32, e.order / 64 % 2 == 1;
      var k, r := p - 13 * (number - 1), Pushed(a, e);
      && r.active && r.expected == (if starts then number else a.expected)
      && r.seen == SetBit(if starts then 0 else a.seen, number - 1)
      && r.name[p] ==
        if 0 <= k < |e.chars| && p < 63 && e.chars[k] != 0 && e.chars[k] != 0xFFFF
        then (if 32 <= e.chars[k] <= 126 then e.chars[k] else 63)
        else if starts then 0 else a.name[p])
  {
    hide PutChars, SetBit;
    var number := e.order % 32;
    if Taken(a, e) {
      PutCharsAt(if e.order / 64 % 2 == 1 then Zeros(64) else a.name, (number - 1) * PER_ENTRY, e.chars, p);
    }
  }

  // ----- The entries of a name

  /** Character `idx` of an entry: the name, a zero, then ones. */
  function CharAt(name: seq<nat>, idx: nat): nat {
    if idx < |name| then name[idx] else if idx == |name| then 0 else 0xFFFF
  }

  function CharsFrom(name: seq<nat>, start: nat, n: nat): (cs: seq<nat>)
    ensures |cs| == n && forall i :: 0 <= i < n ==> cs[i] == CharAt(name, start + i)
  {
    if n == 0 then [] else CharsFrom(name, start, n - 1) + [CharAt(name, start + n - 1)]
  }

  function Segments(len: nat): nat {
    (len + PER_ENTRY - 1) / PER_ENTRY
  }

  /** Entry number `seg` (from 0) of `n`. */
  function EntryOf(name: seq<nat>, checksum: nat, seg: nat, n: nat): Entry {
    Entry(seg + 1 + (if seg == n - 1 then LAST else 0), checksum, CharsFrom(name, seg * PER_ENTRY, PER_ENTRY))
  }

  lemma EntryIs(name: seq<nat>, checksum: nat, seg: nat, n: nat)
    ensures EntryOf(name, checksum, seg, n) == Entry(seg + 1 + (if seg == n - 1 then LAST else 0), checksum, CharsFrom(name, seg * PER_ENTRY, PER_ENTRY))
  {
  }

  /** `fat_lfn_write_entry` */
  method WriteEntry(order: nat, checksum: nat, name: seq<nat>, start: nat) returns (e: Entry)
    ensures e == Entry(order, checksum, CharsFrom(name, start, PER_ENTRY))
  {
    var chars: seq<nat> := [];
    for i := 0 to PER_ENTRY
      invariant |chars| == i && chars == CharsFrom(name, start, i)
    {
      var idx := start + i;
      chars := chars + [if idx < |name| then name[idx] else if idx == |name| then 0 else 0xFFFF];
    }
    e := Entry(order, checksum, chars);
  }

  /** Entry `i` of `n` on disk: the last piece of the name comes first and is marked; each holds 13
      characters, of which a zero ends the name and the rest are 0xFFFF. */
  ghost predicate OnDisk(e: Entry, name: seq<nat>, checksum: nat, i: nat, n: nat) {
    && n == (|name| + 12) / 13 && i < n && e.order == n - i + (if i == 0 then 64 else 0) && e.checksum == checksum && |e.chars| == 13
    && forall j: nat :: j < 13 ==>
      var at := 13 * (n - 1 - i) + j;
      e.chars[j] == if at < |name| then name[at] else if at == |name| then 0 else 0xFFFF
  }

  lemma EntryOnDisk(name: seq<nat>, checksum: nat, i: nat, n: nat)
    requires n == Segments(|name|) && i < n
    ensures OnDisk(EntryOf(name, checksum, n - 1 - i, n), name, checksum, i, n)
  {
  }

  /** The entries in the order they go to disk: made first to last, then turned round in place. */
  method MakeEntries(name: seq<nat>, checksum: nat) returns (entries: array<Entry>)
    requires 0 < |name| < MAX_NAME
    ensures fresh(entries) && entries.Length == Segments(|name|)
    ensures forall i :: 0 <= i < entries.Length ==> entries[i] == EntryOf(name, checksum, entries.Length - 1 - i, entries.Length)
    ensures forall i :: 0 <= i < entries.Length ==> OnDisk(entries[i], name, checksum, i, entries.Length)
  {
    hide EntryOf, CharsFrom, OnDisk;
    var n := Segments(|name|);
    entries := new Entry[n](_ => Entry(0, 0, []));
    for seg := 0 to n
      invariant forall i :: 0 <= i < seg ==> entries[i] == EntryOf(name, checksum, i, n)
    {
      var order := seg + 1;
      if seg == n - 1 { order := order + LAST; }
      EntryIs(name, checksum, seg, n);
      entries[seg] := WriteEntry(order, checksum, name, seg * PER_ENTRY);
    }
    for i := 0 to n / 2
      invariant forall j :: 0 <= j < i || n - i <= j < n ==> entries[j] == EntryOf(name, checksum, n - 1 - j, n)
      invariant forall j :: i <= j < n - i ==> entries[j] == EntryOf(name, checksum, j, n)
    {
      var tmp := entries[i];
      entries[i] := entries[n - 1 - i];
      entries[n - 1 - i] := tmp;
    }
    forall i | 0 <= i < n
      ensures OnDisk(entries[i], name, checksum, i, n)
    {
      EntryOnDisk(name, checksum, i, n);
    }
  }

  // ----- Putting a name together again

  lemma PowerStep(n: nat)
    requires n > 0
    ensures Pow2(n) == 2 * Pow2(n - 1)
  {
  }

  lemma {:induction false} PowerDivides(n: nat, k: nat)
    requires k <= n
    ensures Pow2(n) % Pow2(k) == 0 && Pow2(n) >= Pow2(k)
    decreases n - k
  {
    if k < n {
      PowerDivides(n - 1, k);
      Twice(Pow2(n - 1), Pow2(k));
    }
  }

  lemma Twice(a: nat, b: nat)
    requires b > 0 && a % b == 0
    ensures 2 * a % b == 0
  {
    var q := a / b;
    assert a == q * b;
    assert 2 * a == 2 * q * b;
    Multiple(2 * q, b);
  }

  lemma Multiple(q: nat, b: nat)
    requires b > 0
    ensures q * b % b == 0 && q * b / b == q
  {
    var x := q * b;
    assert x == x / b * b + x % b;
    Unique(q, 0, x / b, x % b, b);
  }

  lemma Unique(q: nat, r: nat, q': nat, r': nat, b: nat)
    requires r < b && r' < b && q * b + r == q' * b + r'
    ensures q == q' && r == r'
  {
    if q < q' { Ahead(q, q', b); }
    if q' < q { Ahead(q', q, b); }
  }

  lemma Ahead(q: nat, q': nat, b: nat)
    requires q < q'
    ensures q' * b >= q * b + b
  {
    var d := q' - q - 1;
    assert q' * b == q * b + b + d * b;
    assert d * b >= 0;
  }

  /** The bit of the next segment is not yet seen, and is added. */
  lemma NextBit(n: nat, k: nat)
    requires 0 < k <= n
    ensures Pow2(n) >= Pow2(k) && SetBit(Pow2(n) - Pow2(k), k - 1) == Pow2(n) - Pow2(k - 1)
  {
    PowerDivides(n, k);
    PowerStep(k);
    var b, m := Pow2(k - 1), Pow2(n) / Pow2(k);
    assert Pow2(n) == m * Pow2(k) == 2 * m * b;
    assert Pow2(n) - Pow2(k) == (2 * m - 2) * b;
    assert m >= 1;
    Multiple(2 * m - 2, b);
  }

  /** What the accumulator holds once the segments from `k` on were pushed. */
  ghost predicate Upper(a: State, name: seq<nat>, n: nat, k: nat) {
    && a.active && a.expected == n && k <= n && a.seen == Pow2(n) - Pow2(k) && |a.name| == MAX_NAME
    && forall p :: 0 <= p < MAX_NAME ==> a.name[p] == if k * PER_ENTRY <= p < |name| then name[p] else 0
  }

  predicate Printable(name: seq<nat>) {
    forall i :: 0 <= i < |name| ==> 32 <= name[i] <= 126
  }

  lemma {:induction false} PutCharsAre(buf: seq<nat>, base: nat, name: seq<nat>, n: nat)
    requires |buf| == MAX_NAME && Printable(name) && |name| < MAX_NAME
    ensures forall p :: 0 <= p < MAX_NAME ==>
      PutChars(buf, base, CharsFrom(name, base, n))[p] == if base <= p < base + n && p < |name| then name[p] else buf[p]
  {
    if n > 0 {
      var cs := CharsFrom(name, base, n);
      assert cs[..n - 1] == CharsFrom(name, base, n - 1);
      PutCharsAre(buf, base, name, n - 1);
    }
  }

  lemma PushNext(a: State, name: seq<nat>, checksum: nat, n: nat, k: nat)
    requires 0 < |name| < MAX_NAME && Printable(name) && n == Segments(|name|) && 0 < k <= n && |a.name| == MAX_NAME
    requires k < n ==> Upper(a, name, n, k)
    ensures Upper(Pushed(a, EntryOf(name, checksum, k - 1, n)), name, n, k - 1)
  {
    var e := EntryOf(name, checksum, k - 1, n);
    assert e.order % 0x20 == k && (e.order / 0x40 % 2 == 1 <==> k == n);
    NextBit(n, k);
    var buf := if k == n then Zeros(MAX_NAME) else a.name;
    PutCharsAre(buf, (k - 1) * PER_ENTRY, name, PER_ENTRY);
    hide Pow2, SetBit, PutChars, CharsFrom;
  }

  lemma UpperComplete(a: State, name: seq<nat>, n: nat)
    requires 0 < |name| < MAX_NAME && Printable(name) && n == Segments(|name|) && Upper(a, name, n, 0)
    ensures Complete(a) && a.name[..|name|] == name && a.name[|name|] == 0
  {
    assert Pow2(0) == 1;
    assert a.name[0] == name[0];
    assert a.name[..|name|] == name;
    hide Pow2;
  }

  class Accumulator {
    var active: bool
    var expected: nat
    var seen: nat
    var name: seq<nat>

    ghost function Abs(): State
      reads this
    {
      State(active, expected, seen, name)
    }

    constructor ()
      ensures Abs() == Empty()
    {
      active, expected, seen, name := false, 0, 0, Zeros(MAX_NAME);
    }

    method Reset()
      modifies this
      ensures Abs() == Empty()
    {
      active, expected, seen, name := false, 0, 0, Zeros(MAX_NAME);
    }

    /** `fat_lfn_push` */
    method Push(e: Entry) returns (code: int)
      requires |name| == MAX_NAME
      modifies this
      ensures Abs() == Pushed(old(Abs()), e)
      ensures code == 0 || (code == -1 && Abs() == Empty())
    {
      var idx := e.order % 0x20;
      if idx == 0 || idx > 20 {
        Reset();
        return -1;
      }
      if e.order / 0x40 % 2 == 1 {
        Reset();
        active, expected := true, idx;
      } else if !active || expected == 0 || idx > expected {
        Reset();
        return -1;
      }
      var base := (idx - 1) * PER_ENTRY;
      ghost var was := name;
      for p := 0 to |e.chars|
        invariant |name| == MAX_NAME && name == PutChars(was, base, e.chars[..p])
        invariant active == old(active) || e.order / 0x40 % 2 == 1
        invariant Abs().(name := was) == (if e.order / 0x40 % 2 == 1 then Empty().(active := true, expected := idx) else old(Abs()))
      {
        assert e.chars[..p + 1][..p] == e.chars[..p];
        name := PutChar(name, base + p, e.chars[p]);
      }
      assert e.chars[..|e.chars|] == e.chars;
      seen := SetBit(seen, idx - 1);
      code := 0;
    }
  }

  /** A name written as entries and read back in disk order is the same name. */
  method RoundTrip(name: seq<nat>, checksum: nat) returns (a: Accumulator)
    requires 0 < |name| < MAX_NAME && Printable(name)
    ensures Complete(a.Abs()) && a.name[..|name|] == name && a.name[|name|] == 0
  {
    hide Upper, Pow2, SetBit, Pushed, PutChars, CharsFrom, EntryOf, OnDisk, Complete, Zeros;
    var entries := MakeEntries(name, checksum);
    a := new Accumulator();
    var n := entries.Length;
    for i := 0 to n
      invariant |a.name| == MAX_NAME && (i > 0 ==> Upper(a.Abs(), name, n, n - i))
      modifies a
    {
      PushNext(a.Abs(), name, checksum, n, n - i);
      var code := a.Push(entries[i]);
    }
    UpperComplete(a.Abs(), name, n);
  }
}
