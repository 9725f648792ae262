/** The page table as the copy-on-write fault handler sees it: a map from a
    page-aligned virtual address to the frame it maps and its permission
    bits. The multi-level walk, the PTE encoding and the allocation of
    page-table pages are not modelled. */
module Vm {

  /** The ten flag bits of a RISC-V Sv39 page-table entry. */
  type Perm = bv10

  const PTE_V: Perm := 1 << 0
  const PTE_R: Perm := 1 << 1
  const PTE_W: Perm := 1 << 2
  const PTE_X: Perm := 1 << 3
  const PTE_U: Perm := 1 << 4
  /** The copy-on-write marker, one of the bits the hardware leaves to
      software. */
  const PTE_COW: Perm := 1 << 8

  /** A leaf entry: `PTE2PA` gives `pa`, `PTE_FLAGS` gives `perm`. */
  datatype Pte = Pte(pa: nat, perm: Perm)

  class PageTable {
    var entries: map<nat, Pte>

    /** mappages(pagetable, va, PGSIZE, pa, perm) on an address that is not
        mapped: adds the one entry, marked valid. */
    method MapPages(va: nat, pa: nat, perm: Perm)
      requires va !in entries
      modifies this
      ensures entries == old(entries)[va := Pte(pa, perm | PTE_V)]
      ensures entries[va].perm & PTE_V == PTE_V
    {
      entries := entries[va := Pte(pa, perm | PTE_V)];
    }

    /** The page-table side of uvmunmap(pagetable, va, 1, do_free): clears
        the entry. */
    method Unmap(va: nat)
      requires va in entries
      modifies this
      ensures entries == old(entries) - {va}
    {
      entries := entries - {va};
    }
  }
}
