/** The physical page allocator of kernel/src/mm/pmm.c: a bitmap with one bit for each
    4 KiB page, scanned one 64-bit word at a time from the word after the last page
    handed out. */
module Pmm {

  const WORD_BITS: nat := 64

  function WordCount(totalPages: nat): nat {
    (totalPages + 63) / WORD_BITS
  }

  /** The page numbers whose bit is clear, among the pages that exist. */
  ghost function Clear(bits: seq<bool>, total: nat): set<nat>
    requires total <= |bits|
  {
    set p: nat | p < total && !bits[p]
  }

  /** The page a next-fit scan chooses when it starts at page `from`: the lowest free page
      not below `from`, or the lowest free page of all when there is none. */
  ghost predicate IsNextFit(free: set<nat>, from: nat, page: nat) {
    && page in free
    && (from <= page ==> forall q <- free :: from <= q ==> page <= q)
    && (page < from ==> forall q <- free :: q < from && page <= q)
  }

  class Allocator {
    const bits: array<bool>        // true: in use; padded to whole words
    const totalPages: nat
    var freePages: int
    var lastAllocPage: nat

    ghost predicate Valid()
      reads this, bits
    {
      && bits.Length == WORD_BITS * WordCount(totalPages)
      && totalPages <= bits.Length
      && (totalPages > 0 ==> bits[0])
      && freePages == |Free()|
    }

    ghost function Free(): (free: set<nat>)
      reads this, bits
    {
      if totalPages <= bits.Length then Clear(bits[..], totalPages) else {}
    }

    /** Takes over a bitmap that has been filled in; page 0 is marked as in use. */
    constructor (filled: array<bool>, total: nat)
      requires filled.Length == WORD_BITS * WordCount(total)
      modifies filled
      ensures Valid() && bits == filled && totalPages == total && lastAllocPage == 1
      ensures Free() == Clear(old(filled[..]), total) - {0}
    {
      bits := filled;
      totalPages := total;
      lastAllocPage := 1;
      new;
      if total > 0 { bits[0] := true; }
      assert Free() == Clear(old(filled[..]), total) - {0};
      freePages := CountClear();
    }

    method CountClear() returns (n: nat)
      requires totalPages <= bits.Length
      ensures n == |Free()|
    {
      n := 0;
      for p := 0 to totalPages
        invariant n == |Clear(bits[..], p)|
      {
        if !bits[p] {
          assert Clear(bits[..], p + 1) == Clear(bits[..], p) + {p};
          n := n + 1;
        } else {
          assert Clear(bits[..], p + 1) == Clear(bits[..], p);
        }
      }
    }

    /** A word with a clear bit, seen as the 64 pages it stands for. */
    method WordIsFull(w: nat) returns (full: bool)
      requires WORD_BITS * (w + 1) <= bits.Length
      ensures full <==> forall p :: WORD_BITS * w <= p < WORD_BITS * (w + 1) ==> bits[p]
    {
      full := true;
      for p := WORD_BITS * w to WORD_BITS * (w + 1)
        invariant full <==> forall q :: WORD_BITS * w <= q < p ==> bits[q]
      {
        full := full && bits[p];
      }
    }

    /** `__builtin_ctzll` of the complemented word, as a page number. */
    method LowestClearPage(w: nat) returns (page: nat)
      requires WORD_BITS * (w + 1) <= bits.Length
      requires exists p :: WORD_BITS * w <= p < WORD_BITS * (w + 1) && !bits[p]
      ensures WORD_BITS * w <= page < WORD_BITS * (w + 1) && !bits[page]
      ensures forall p :: WORD_BITS * w <= p < page ==> bits[p]
    {
      page := WORD_BITS * w;
      while bits[page]
        invariant WORD_BITS * w <= page < WORD_BITS * (w + 1)
        invariant forall p :: WORD_BITS * w <= p < page ==> bits[p]
        decreases WORD_BITS * (w + 1) - page
      {
        page := page + 1;
      }
    }

    /** One pass of the scan, over the words from `w0` on. It finds the lowest free page
        there, or none; a word whose lowest clear bit is not a usable page holds none. */
    method Scan(w0: nat) returns (page: nat)
      requires Valid()
      ensures page == 0 ==> forall q <- Free() :: q < WORD_BITS * w0
      ensures page != 0 ==> page in Free() && WORD_BITS * w0 <= page
      ensures page != 0 ==> forall q <- Free() :: WORD_BITS * w0 <= q ==> page <= q
    {
      var w := w0;
      while w < WordCount(totalPages)
        invariant w0 <= w
        invariant forall q <- Free() :: WORD_BITS * w0 <= q ==> WORD_BITS * w <= q
      {
        var full := WordIsFull(w);
        if !full {
          page := LowestClearPage(w);
          if page != 0 && page < totalPages {
            return page;
          }
        }
        w := w + 1;
      }
      page := 0;
    }

    method AllocPage() returns (page: nat)
      requires Valid()
      modifies this, bits
      ensures Valid()
      ensures page == 0 <==> old(Free()) == {}
      ensures page == 0 ==> Free() == old(Free())
      ensures page != 0 ==> page < totalPages && page in old(Free()) && Free() == old(Free()) - {page}
      ensures page != 0 ==> IsNextFit(old(Free()), WORD_BITS * (old(lastAllocPage) / WORD_BITS), page)
      ensures lastAllocPage ==
              if page == 0 then old(lastAllocPage) else if page + 1 >= totalPages then 1 else page + 1
    {
      if totalPages == 0 { return 0; }
      page := Scan(lastAllocPage / WORD_BITS);
      if page == 0 {
        page := Scan(0);
      }
      if page != 0 {
        bits[page] := true;
        assert Free() == old(Free()) - {page};
        freePages := freePages - 1;
        lastAllocPage := if page + 1 >= totalPages then 1 else page + 1;
      }
    }

    /** Freeing page 0, a page that does not exist or a page that is free already changes nothing. */
    method FreePage(page: nat)
      requires Valid()
      modifies this, bits
      ensures Valid()
      ensures Free() == if page == 0 || page >= totalPages then old(Free()) else old(Free()) + {page}
      ensures lastAllocPage == old(lastAllocPage)
    {
      if page == 0 || page >= totalPages { return; }
      if bits[page] {
        bits[page] := false;
        assert Free() == old(Free()) + {page};
        freePages := freePages + 1;
      }
    }
  }
}
