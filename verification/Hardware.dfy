/** The state that paging code shares: physical memory, the page allocator and the root table in use. */
module Hardware {
  import opened PageTree
  import Pmm

  class Machine {
    const pmm: Pmm.Allocator
    var mem: Memory
    var cr3: nat              // page number of the root table in use

    constructor (pmm: Pmm.Allocator, mem: Memory, cr3: nat)
      requires pmm.Valid() && pmm.totalPages <= |mem|
      ensures this.pmm == pmm && this.mem == mem && this.cr3 == cr3 && Valid()
    {
      this.pmm := pmm;
      this.mem := mem;
      this.cr3 := cr3;
    }

    ghost predicate Valid()
      reads this, pmm, pmm.bits
    {
      pmm.Valid() && pmm.totalPages <= |mem|
    }

    ghost function Free(): set<nat>
      reads this, pmm, pmm.bits
    {
      pmm.Free()
    }

    /** The tree below `root` is well formed and none of its tables is a free page. */
    ghost predicate Owns(root: nat, top: nat)
      reads this, pmm, pmm.bits
    {
      Valid() && Sound(mem, Free(), root, top)
    }

    method WriteEntry(table: nat, i: nat, e: Entry)
      requires table < |mem| && i < ENTRIES
      modifies this`mem
      ensures mem == Store(old(mem), table, i, e)
    {
      mem := mem[table := mem[table][i := e]];
    }

    /** `memset(page, 0, PAGE_SIZE)` */
    method ZeroPage(page: nat)
      requires page < |mem|
      modifies this`mem
      ensures |mem| == |old(mem)| && AllZero(mem[page])
      ensures forall f: nat :: f < |mem| && f != page ==> mem[f] == old(mem)[f]
      ensures mem == old(mem)[page := mem[page]]
    {
      mem := mem[page := ZeroTable()];
    }
  }
}
