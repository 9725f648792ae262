/** Physical memory layout of the kernel: page size, the managed physical
    range and the translation between a frame's physical address and its
    slot in the reference-count table. */
module Memlayout {

  /** Bytes per page. */
  const PGSIZE: nat := 4096
  /** First physical address of RAM; the kernel image is loaded here. */
  const KERNBASE: nat := 0x8000_0000
  /** First physical address after RAM (128 MB of it). */
  const PHYSTOP: nat := KERNBASE + 128 * 1024 * 1024
  /** Number of slots in the reference-count table: one per page of RAM. */
  const NFRAMES: nat := (PHYSTOP - KERNBASE) / PGSIZE

  type Byte = bv8

  /** The contents of one physical page. */
  type Page = seq<Byte>

  /** A page whose every byte is `b`, as `memset(pa, b, PGSIZE)` leaves it. */
  function Filled(b: Byte): (p: Page)
    ensures |p| == PGSIZE
    ensures forall k :: 0 <= k < |p| ==> p[k] == b
  {
    seq(PGSIZE, _ => b)
  }

  /** Round a physical address up to the next page boundary. */
  function PgRoundUp(sz: nat): (r: nat)
    ensures r % PGSIZE == 0
    ensures sz <= r < sz + PGSIZE
  {
    (sz + PGSIZE - 1) / PGSIZE * PGSIZE
  }

  /** No page boundary lies in [sz, PgRoundUp(sz)). */
  lemma PgRoundUpLeast(sz: nat, a: nat)
    requires a % PGSIZE == 0 && sz <= a
    ensures PgRoundUp(sz) <= a
  {
  }

  /** Physical address of the frame in slot `i` of the table. */
  function Addr(i: nat): (pa: nat)
    ensures pa % PGSIZE == 0 && KERNBASE <= pa
    ensures i < NFRAMES <==> pa < PHYSTOP
  {
    KERNBASE + i * PGSIZE
  }

  /** The slot of the reference-count table that tracks the frame holding
      physical address `pa`: `(pa - KERNBASE) / PGSIZE`. */
  function Index(pa: nat): (i: nat)
    requires KERNBASE <= pa < PHYSTOP
    ensures i < NFRAMES
    ensures Addr(i) <= pa < Addr(i) + PGSIZE
  {
    (pa - KERNBASE) / PGSIZE
  }

  lemma IndexOfAddr(i: nat)
    requires i < NFRAMES
    ensures Index(Addr(i)) == i
  {
  }

  lemma AddrOfIndex(pa: nat)
    requires KERNBASE <= pa < PHYSTOP && pa % PGSIZE == 0
    ensures Addr(Index(pa)) == pa
  {
  }
}
