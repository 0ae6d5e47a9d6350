/** Virtual addresses, pages and table indices. */
module Addresses {
  import opened PageTree

  const SPACE_PAGES: nat := 0x10_0000_0000   // 2^36 pages of 4 KiB: 48 address bits

  /** An address names a page by its bits 12 to 47. */
  function PageOf(v: nat): nat {
    v / PAGE_SIZE % SPACE_PAGES
  }

  function Unindex(p: Path): nat
    requires |p| == 4
  {
    p[0] * 0x800_0000 + p[1] * 0x4_0000 + p[2] * 0x200 + p[3]
  }

  lemma IndicesAreThePage(v: nat)
    ensures Unindex(Indices(v)) == PageOf(v)
  {
    var n := v / PAGE_SIZE;
    var n1 := n / 512;
    var n2 := n1 / 512;
    var n3 := n2 / 512;
    assert v / 0x20_0000 == n1;
    assert v / 0x4000_0000 == n2;
    assert v / 0x80_0000_0000 == n3;
    assert n == SPACE_PAGES * (n3 / 512) + Unindex(Indices(v));
  }

  /** The indices and the offset spell the address: nine bits each, the root's index first, and twelve. */
  lemma IndicesSpell(v: nat)
    ensures var p := Indices(v);
      && |p| == 4 && p[0] < 512 && p[1] < 512 && p[2] < 512 && p[3] < 512
      && v % 0x1_0000_0000_0000 == p[0] * 0x80_0000_0000 + p[1] * 0x4000_0000 + p[2] * 0x20_0000 + p[3] * 0x1000 + v % 0x1000
  {
    IndicesAreThePage(v);
    assert v == v / 0x1000 * 0x1000 + v % 0x1000;
    PageBits(v / 0x1000, v % 0x1000);
  }

  lemma PageBits(n: nat, r: nat)
    requires r < 0x1000
    ensures (n * 0x1000 + r) % 0x1_0000_0000_0000 == n % 0x10_0000_0000 * 0x1000 + r
  {
    var q := n / 0x10_0000_0000;
    assert n == q * 0x10_0000_0000 + n % 0x10_0000_0000;
  }

  lemma {:induction false} SamePageSameIndices(v: nat, w: nat)
    ensures Indices(v) == Indices(w) <==> PageOf(v) == PageOf(w)
  {
    IndicesAreThePage(v);
    IndicesAreThePage(w);
    UnindexInjective(Indices(v), Indices(w));
  }

  lemma UnindexInjective(p: Path, q: Path)
    requires IsPath(p) && IsPath(q) && |p| == |q| == 4
    ensures Unindex(p) == Unindex(q) <==> p == q
  {
    if Unindex(p) == Unindex(q) {
      LastDigit(p[0] * 0x4_0000 + p[1] * 0x200 + p[2], p[3], q[0] * 0x4_0000 + q[1] * 0x200 + q[2], q[3]);
      LastDigit(p[0] * 0x200 + p[1], p[2], q[0] * 0x200 + q[1], q[2]);
      LastDigit(p[0], p[1], q[0], q[1]);
    }
  }

  lemma LastDigit(a: nat, x: nat, b: nat, y: nat)
    requires x < ENTRIES && y < ENTRIES && a * ENTRIES + x == b * ENTRIES + y
    ensures a == b && x == y
  {
  }

  function RangePage(start: nat, j: nat): nat {
    start + j * PAGE_SIZE
  }
}
