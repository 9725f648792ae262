/** The physical page allocator: a LIFO pool of free frames, a per-frame
    reference-count table for copy-on-write sharing, and the flag that
    switches the double-free check on once the pool has been seeded.

    The first half states each operation on an abstract value (`KState`)
    and proves what it does; the class `Kmem` at the end holds the
    allocator's global state and implements each operation imperatively,
    proved equal to its specification function. */
module Kalloc {
  import opened Memlayout

  /** How an operation ended: it returned, or the kernel panicked with the
      given message. After a panic the kernel stops, so the state a
      specification returns with `Panic` is the state at the panic. */
  datatype Status = Done | Panic(msg: string)

  /** The allocator's global state.
      - `end`: the first address after the kernel image (a linker symbol);
      - `freelist`: table slots of the free frames, head (next to be handed
        out) at position 0;
      - `cowCount`: the reference-count table, one entry per page of RAM;
      - `mem`: the contents of each page of RAM, by table slot;
      - `cowInit`: set once the pool has been seeded. */
  datatype KState = KState(
    end: nat,
    freelist: seq<nat>,
    cowCount: seq<int>,
    mem: map<nat, Page>,
    cowInit: bool)

  /** Shape of a state: the table has a slot per page of RAM, every page of
      RAM has PGSIZE bytes, and the list only names slots of the table. */
  ghost predicate WellFormed(st: KState) {
    && KERNBASE <= st.end <= PHYSTOP
    && |st.cowCount| == NFRAMES
    && (forall i: nat :: i < NFRAMES ==> i in st.mem && |st.mem[i]| == PGSIZE)
    && (forall j :: 0 <= j < |st.freelist| ==> st.freelist[j] < NFRAMES)
  }

  /** `pa` passes kfree's address check: page-aligned, in [end, PHYSTOP). */
  predicate Freeable(end: nat, pa: nat) {
    pa % PGSIZE == 0 && end <= pa < PHYSTOP
  }

  /** Slot `i` is a frame the allocator manages: a page of RAM at or after
      the end of the kernel image. */
  predicate Managed(end: nat, i: nat) {
    i < NFRAMES && end <= Addr(i)
  }

  predicate Distinct(s: seq<nat>) {
    forall j, k :: 0 <= j < k < |s| ==> s[j] != s[k]
  }

  /** The allocator's invariant:
      - no count is negative;
      - the free list holds managed frames, each once, each with count 0 and
        filled with the free pattern (byte 1);
      - once seeded, every managed frame with count 0 is on the free list,
        i.e. every frame off the list (allocated) has count >= 1. */
  ghost predicate Inv(st: KState) {
    && WellFormed(st)
    && (forall i :: 0 <= i < NFRAMES ==> st.cowCount[i] >= 0)
    && (forall j :: 0 <= j < |st.freelist| ==> Managed(st.end, st.freelist[j]))
    && (forall j :: 0 <= j < |st.freelist| ==>
          st.cowCount[st.freelist[j]] == 0 && st.mem[st.freelist[j]] == Filled(1))
    && Distinct(st.freelist)
    && (st.cowInit ==>
          forall i: nat :: Managed(st.end, i) && st.cowCount[i] == 0 ==> i in st.freelist)
  }

  // ---------------------------------------------------------------------
  // kfree

  /** kfree(pa): check the address, check the count (once seeded), then
      either drop one reference or really free the frame: count 0, fill
      with byte 1, push on the free list. */
  ghost function KfreeSpec(st: KState, pa: nat): (r: (Status, KState))
    requires WellFormed(st)
    ensures WellFormed(r.1) && r.1.end == st.end && r.1.cowInit == st.cowInit
    ensures r.0 == Done <==>
              Freeable(st.end, pa) && !(st.cowInit && st.cowCount[Index(pa)] <= 0)
  {
    if pa % PGSIZE != 0 || pa < st.end || pa >= PHYSTOP then
      (Panic("kfree"), st)
    else
      var i := Index(pa);
      if st.cowInit && st.cowCount[i] <= 0 then
        (Panic("kfree: cow_count"), st)
      else if st.cowCount[i] > 1 then
        (Done, st.(cowCount := st.cowCount[i := st.cowCount[i] - 1]))
      else
        (Done, st.(cowCount := st.cowCount[i := 0],
                   mem := st.mem[i := Filled(1)],
                   freelist := [i] + st.freelist))
  }

  /** kfree panics, changing nothing, on a misaligned address or one
      outside [end, PHYSTOP); and, once seeded, on a frame whose count is
      already <= 0. */
  lemma KfreePanics(st: KState, pa: nat)
    requires WellFormed(st)
    requires !Freeable(st.end, pa) || (st.cowInit && st.cowCount[Index(pa)] <= 0)
    ensures KfreeSpec(st, pa).0.Panic?
    ensures !Freeable(st.end, pa) ==> KfreeSpec(st, pa).0 == Panic("kfree")
    ensures Freeable(st.end, pa) ==> KfreeSpec(st, pa).0 == Panic("kfree: cow_count")
    ensures KfreeSpec(st, pa).1 == st
  {
  }

  /** kfree of a shared frame (count > 1) only drops one reference: the
      free list, the page contents and every other count are unchanged. */
  lemma KfreeShared(st: KState, pa: nat)
    requires WellFormed(st) && Freeable(st.end, pa) && st.cowCount[Index(pa)] > 1
    ensures var (s, st') := KfreeSpec(st, pa);
      && s == Done
      && st'.cowCount[Index(pa)] == st.cowCount[Index(pa)] - 1
      && (forall i :: 0 <= i < NFRAMES && i != Index(pa) ==> st'.cowCount[i] == st.cowCount[i])
      && st'.freelist == st.freelist && st'.mem == st.mem
  {
  }

  /** kfree of the last reference (count 1, or 0 before seeding) sets the
      count to 0, fills the page with byte 1 and pushes the frame on the
      head of the free list, which grows by exactly one. */
  lemma KfreeLast(st: KState, pa: nat)
    requires WellFormed(st) && Freeable(st.end, pa)
    requires st.cowCount[Index(pa)] == 1 || (!st.cowInit && st.cowCount[Index(pa)] <= 1)
    ensures var (s, st') := KfreeSpec(st, pa);
      && s == Done
      && st'.cowCount == st.cowCount[Index(pa) := 0]
      && st'.mem == st.mem[Index(pa) := Filled(1)]
      && st'.freelist == [Index(pa)] + st.freelist
      && |st'.freelist| == |st.freelist| + 1
  {
  }

  /** Once seeded, kfree of a frame that is already free panics: a frame
      is never pushed on the free list twice. */
  lemma KfreeNoDoubleFree(st: KState, pa: nat)
    requires Inv(st) && st.cowInit && Freeable(st.end, pa)
    requires Index(pa) in st.freelist
    ensures KfreeSpec(st, pa) == (Panic("kfree: cow_count"), st)
  {
    var j :| 0 <= j < |st.freelist| && st.freelist[j] == Index(pa);
    assert st.cowCount[st.freelist[j]] == 0;
  }

  /** kfree keeps the invariant, provided that before seeding it is not
      handed a frame that is already free (the source does not check that
      case; after seeding it panics, see KfreeNoDoubleFree). */
  lemma KfreePreservesInv(st: KState, pa: nat)
    requires Inv(st)
    requires !st.cowInit && Freeable(st.end, pa) ==> Index(pa) !in st.freelist
    ensures Inv(KfreeSpec(st, pa).1)
  {
    var (s, st') := KfreeSpec(st, pa);
    if s == Done {
      var i := Index(pa);
      AddrOfIndex(pa);
      if st.cowCount[i] > 1 {
        assert i !in st.freelist;
        assert forall j :: 0 <= j < |st.freelist| ==> st.freelist[j] != i;
      } else {
        assert i !in st.freelist;
        assert Managed(st.end, i);
        forall j | 0 <= j < |st'.freelist|
          ensures Managed(st'.end, st'.freelist[j])
          ensures st'.cowCount[st'.freelist[j]] == 0 && st'.mem[st'.freelist[j]] == Filled(1)
        {
          if j > 0 {
            assert st'.freelist[j] == st.freelist[j - 1];
          }
        }
        forall j, k | 0 <= j < k < |st'.freelist| ensures st'.freelist[j] != st'.freelist[k] {
          assert st'.freelist[k] == st.freelist[k - 1];
          if j > 0 {
            assert st'.freelist[j] == st.freelist[j - 1];
          }
        }
      }
    }
  }

  // ---------------------------------------------------------------------
  // kalloc

  /** kalloc(): pop the head of the free list, fill it with byte 5, set its
      count to 1 and return its address; return 0 when the list is empty. */
  ghost function KallocSpec(st: KState): (r: (nat, KState))
    requires WellFormed(st)
    ensures WellFormed(r.1) && r.1.end == st.end && r.1.cowInit == st.cowInit
    ensures r.0 == 0 <==> st.freelist == []
    ensures r.0 != 0 ==> r.0 == Addr(st.freelist[0]) && r.0 < PHYSTOP
  {
    if st.freelist == [] then
      (0, st)
    else
      var i := st.freelist[0];
      (Addr(i), st.(freelist := st.freelist[1..],
                    mem := st.mem[i := Filled(5)],
                    cowCount := st.cowCount[i := 1]))
  }

  /** A successful kalloc hands out the head of the free list, filled with
      byte 5 and with count 1; the tail of the list and every other count
      and page are unchanged. An empty pool leaves everything unchanged. */
  lemma KallocTakesHead(st: KState)
    requires WellFormed(st)
    ensures var (pa, st') := KallocSpec(st);
      && (pa == 0 ==> st' == st)
      && (pa != 0 ==>
            && Index(pa) == st.freelist[0]
            && st'.freelist == st.freelist[1..]
            && st'.mem == st.mem[Index(pa) := Filled(5)]
            && st'.cowCount == st.cowCount[Index(pa) := 1])
  {
    if st.freelist != [] {
      IndexOfAddr(st.freelist[0]);
    }
  }

  /** kalloc keeps the invariant, and the frame it hands out is a managed
      frame that is no longer on the free list. */
  lemma KallocPreservesInv(st: KState)
    requires Inv(st)
    ensures var (pa, st') := KallocSpec(st);
      && Inv(st')
      && (pa != 0 ==> Freeable(st.end, pa) && Index(pa) !in st'.freelist)
  {
    if st.freelist != [] {
      var (pa, st') := KallocSpec(st);
      var h := st.freelist[0];
      IndexOfAddr(h);
      assert Managed(st.end, st.freelist[0]);
      forall j | 0 <= j < |st'.freelist| ensures st'.freelist[j] != h {
        assert st'.freelist[j] == st.freelist[j + 1];
      }
      forall j | 0 <= j < |st'.freelist|
        ensures Managed(st'.end, st'.freelist[j])
        ensures st'.cowCount[st'.freelist[j]] == 0 && st'.mem[st'.freelist[j]] == Filled(1)
      {
        assert st'.freelist[j] == st.freelist[j + 1];
      }
      if st.cowInit {
        forall i: nat | Managed(st'.end, i) && st'.cowCount[i] == 0 ensures i in st'.freelist {
          assert i != h;
          var j :| 0 <= j < |st.freelist| && st.freelist[j] == i;
          assert j != 0;
          assert st'.freelist[j - 1] == i;
        }
      }
    }
  }

  /** Free then allocate: releasing the last reference to a frame and then
      allocating returns that very frame (the list is LIFO), now holding
      the allocation pattern (byte 5) rather than the free pattern; the
      counts and the free list are back to what they were. */
  lemma FreeThenAllocReuses(st: KState, pa: nat)
    requires Inv(st) && Freeable(st.end, pa) && st.cowCount[Index(pa)] == 1
    ensures var (s, st1) := KfreeSpec(st, pa);
      var (q, st2) := KallocSpec(st1);
      && s == Done && q == pa
      && st2.mem[Index(pa)] == Filled(5) && st2.mem[Index(pa)] != Filled(1)
      && st2.cowCount == st.cowCount && st2.freelist == st.freelist
  {
    var i := Index(pa);
    AddrOfIndex(pa);
    var (s, st1) := KfreeSpec(st, pa);
    var (q, st2) := KallocSpec(st1);
    assert st2.mem[i][0] == 5;
    assert st2.cowCount == st.cowCount;
  }

  // ---------------------------------------------------------------------
  // freerange and kinit

  /** freerange from page-aligned `p` to `e`: kfree(p), kfree(p + PGSIZE),
      ... while p + PGSIZE <= e, stopping at the first panic. */
  ghost function FreeRangeSpec(st: KState, p: nat, e: nat): (r: (Status, KState))
    requires WellFormed(st)
    ensures WellFormed(r.1) && r.1.end == st.end && r.1.cowInit == st.cowInit
    decreases e - p
  {
    if p + PGSIZE <= e then
      var (s, st1) := KfreeSpec(st, p);
      if s.Panic? then (s, st1) else FreeRangeSpec(st1, p + PGSIZE, e)
    else
      (Done, st)
  }

  /** The frames freerange(p, e) pushes, as they end up on the free list:
      the last one released first. */
  ghost function FreedStack(p: nat, e: nat): seq<nat>
    requires KERNBASE <= p && e <= PHYSTOP
    decreases e - p
  {
    if p + PGSIZE <= e then FreedStack(p + PGSIZE, e) + [Index(p)] else []
  }

  /** freerange(p, e) covers exactly the n pages p, p + PGSIZE, ...,
      p + (n-1)*PGSIZE, where n is the number of whole pages in [p, e);
      the last of them is on top of the stack. */
  lemma {:induction false} FreedStackAt(p: nat, e: nat, n: nat)
    requires p % PGSIZE == 0 && KERNBASE <= p && e <= PHYSTOP
    requires p + n * PGSIZE <= e < p + (n + 1) * PGSIZE
    ensures |FreedStack(p, e)| == n
    ensures forall k :: 0 <= k < n ==>
              FreedStack(p, e)[k] == Index(p) + (n - 1 - k)
              && Addr(FreedStack(p, e)[k]) == p + (n - 1 - k) * PGSIZE
    decreases n
  {
    if n > 0 {
      AddrOfIndex(p);
      var q := p + PGSIZE;
      FreedStackAt(q, e, n - 1);
      if n > 1 {
        assert Index(q) == Index(p) + 1 by { AddrOfIndex(q); }
      }
      forall k | 0 <= k < n
        ensures FreedStack(p, e)[k] == Index(p) + (n - 1 - k)
        ensures Addr(FreedStack(p, e)[k]) == p + (n - 1 - k) * PGSIZE
      {
        if k < n - 1 {
          assert FreedStack(p, e)[k] == FreedStack(q, e)[k];
        }
      }
    } else {
      assert FreedStack(p, e) == [];
    }
  }

  /** Slot `i`'s frame lies in the range freerange(p, e) walks over. */
  predicate InRange(i: nat, p: nat, e: nat) {
    p <= Addr(i) && Addr(i) + PGSIZE <= e
  }

  /** Stepping from p to p + PGSIZE leaves exactly the frame at p behind. */
  lemma InRangeStep(i: nat, p: nat, e: nat)
    requires p % PGSIZE == 0 && KERNBASE <= p && p + PGSIZE <= e <= PHYSTOP && i < NFRAMES
    ensures InRange(i, p, e) <==> i == Index(p) || InRange(i, p + PGSIZE, e)
  {
    AddrOfIndex(p);
    IndexOfAddr(i);
  }

  /** One turn of the bootstrap loop: kfree(p), before seeding, of a frame
      with count at most 1 pushes it. */
  lemma BootstrapKfree(st: KState, p: nat)
    requires WellFormed(st) && !st.cowInit
    requires p % PGSIZE == 0 && st.end <= p && p + PGSIZE <= PHYSTOP
    requires forall i: nat :: i < NFRAMES && p <= Addr(i) ==> st.cowCount[i] <= 1
    ensures var (s, st1) := KfreeSpec(st, p);
      && s == Done && !st1.cowInit
      && st1.freelist == [Index(p)] + st.freelist
      && st1.cowCount == st.cowCount[Index(p) := 0]
      && st1.mem == st.mem[Index(p) := Filled(1)]
      && (forall i: nat :: i < NFRAMES && p + PGSIZE <= Addr(i) ==> st1.cowCount[i] <= 1)
  {
    AddrOfIndex(p);
    KfreeLast(st, p);
  }

  /** The same turn keeps the invariant when the frame lies above every
      free frame. */
  lemma BootstrapKfreeInv(st: KState, p: nat)
    requires Inv(st) && !st.cowInit
    requires p % PGSIZE == 0 && st.end <= p && p + PGSIZE <= PHYSTOP
    requires forall j :: 0 <= j < |st.freelist| ==> Addr(st.freelist[j]) < p
    requires st.cowCount[Index(p)] <= 1
    ensures var st1 := KfreeSpec(st, p).1;
      && Inv(st1)
      && (forall j :: 0 <= j < |st1.freelist| ==> Addr(st1.freelist[j]) < p + PGSIZE)
  {
    var i0 := Index(p);
    AddrOfIndex(p);
    assert i0 !in st.freelist;
    KfreePreservesInv(st, p);
    KfreeLast(st, p);
    var st1 := KfreeSpec(st, p).1;
    forall j | 0 <= j < |st1.freelist| ensures Addr(st1.freelist[j]) < p + PGSIZE {
      if j > 0 {
        assert st1.freelist[j] == st.freelist[j - 1];
      }
    }
  }

  /** Frames in [p, e) end up freed (count 0, byte 1), the others as in
      `st`. */
  ghost predicate SeededRange(st: KState, p: nat, e: nat, st': KState)
    requires |st.cowCount| == |st'.cowCount| == NFRAMES
    requires forall i: nat :: i < NFRAMES ==> i in st.mem && i in st'.mem
  {
    && (forall i :: 0 <= i < NFRAMES ==>
          st'.cowCount[i] == (if InRange(i, p, e) then 0 else st.cowCount[i]))
    && (forall i: nat :: i < NFRAMES ==>
          st'.mem[i] == (if InRange(i, p, e) then Filled(1) else st.mem[i]))
  }

  /** Freeing the frame at p and then seeding [p + PGSIZE, e) seeds
      [p, e). */
  lemma SeededRangeStep(st: KState, st1: KState, st': KState, p: nat, e: nat)
    requires WellFormed(st) && WellFormed(st1) && WellFormed(st')
    requires p % PGSIZE == 0 && KERNBASE <= p && p + PGSIZE <= e <= PHYSTOP
    requires st1.cowCount == st.cowCount[Index(p) := 0]
    requires st1.mem == st.mem[Index(p) := Filled(1)]
    requires SeededRange(st1, p + PGSIZE, e, st')
    ensures SeededRange(st, p, e, st')
  {
    forall i | 0 <= i < NFRAMES
      ensures st'.cowCount[i] == (if InRange(i, p, e) then 0 else st.cowCount[i])
      ensures st'.mem[i] == (if InRange(i, p, e) then Filled(1) else st.mem[i])
    {
      InRangeStep(i, p, e);
    }
  }

  lemma FreeRangeStep(st: KState, p: nat, e: nat)
    requires WellFormed(st) && p + PGSIZE <= e && KfreeSpec(st, p).0 == Done
    ensures FreeRangeSpec(st, p, e) == FreeRangeSpec(KfreeSpec(st, p).1, p + PGSIZE, e)
  {
  }

  lemma FreedStackStep(p: nat, e: nat)
    requires KERNBASE <= p && p + PGSIZE <= e <= PHYSTOP
    ensures FreedStack(p, e) == FreedStack(p + PGSIZE, e) + [Index(p)]
  {
  }

  lemma AppendAssoc<T>(a: seq<T>, b: seq<T>, c: seq<T>)
    ensures a + b + c == a + (b + c)
  {
  }

  /** During bootstrap, freerange(p, e) over frames with count at most 1
      never panics ... */
  lemma {:induction false} FreeRangeBootstrap(st: KState, p: nat, e: nat)
    requires WellFormed(st) && !st.cowInit
    requires p % PGSIZE == 0 && st.end <= p && e <= PHYSTOP
    requires forall i: nat :: i < NFRAMES && p <= Addr(i) ==> st.cowCount[i] <= 1
    ensures FreeRangeSpec(st, p, e).0 == Done
    decreases e - p
  {
    if p + PGSIZE <= e {
      BootstrapKfree(st, p);
      FreeRangeBootstrap(KfreeSpec(st, p).1, p + PGSIZE, e);
      FreeRangeStep(st, p, e);
    }
  }

  /** ... pushes the frames of the range on top of the free list, the
      highest frame at the head ... */
  lemma {:induction false} FreeRangeBootstrapList(st: KState, p: nat, e: nat)
    requires WellFormed(st) && !st.cowInit
    requires p % PGSIZE == 0 && st.end <= p && e <= PHYSTOP
    requires forall i: nat :: i < NFRAMES && p <= Addr(i) ==> st.cowCount[i] <= 1
    ensures FreeRangeSpec(st, p, e).1.freelist == FreedStack(p, e) + st.freelist
    decreases e - p
  {
    if p + PGSIZE <= e {
      BootstrapKfree(st, p);
      var st1 := KfreeSpec(st, p).1;
      FreeRangeBootstrapList(st1, p + PGSIZE, e);
      FreeRangeStep(st, p, e);
      FreedStackStep(p, e);
      AppendAssoc(FreedStack(p + PGSIZE, e), [Index(p)], st.freelist);
    } else {
      assert [] + st.freelist == st.freelist;
    }
  }

  /** ... sets their counts to 0, fills them with byte 1 and leaves every
      other frame alone ... */
  lemma {:induction false} FreeRangeBootstrapSeeds(st: KState, p: nat, e: nat)
    requires WellFormed(st) && !st.cowInit
    requires p % PGSIZE == 0 && st.end <= p && e <= PHYSTOP
    requires forall i: nat :: i < NFRAMES && p <= Addr(i) ==> st.cowCount[i] <= 1
    ensures SeededRange(st, p, e, FreeRangeSpec(st, p, e).1)
    decreases e - p
  {
    if p + PGSIZE <= e {
      BootstrapKfree(st, p);
      var st1 := KfreeSpec(st, p).1;
      FreeRangeBootstrapSeeds(st1, p + PGSIZE, e);
      FreeRangeStep(st, p, e);
      SeededRangeStep(st, st1, FreeRangeSpec(st1, p + PGSIZE, e).1, p, e);
    } else {
      assert forall i :: 0 <= i < NFRAMES ==> !InRange(i, p, e);
    }
  }

  /** ... and keeps the invariant, provided the frames of the range lie
      above every frame already free. */
  lemma {:induction false} FreeRangeBootstrapInv(st: KState, p: nat, e: nat)
    requires Inv(st) && !st.cowInit
    requires p % PGSIZE == 0 && st.end <= p && e <= PHYSTOP
    requires forall j :: 0 <= j < |st.freelist| ==> Addr(st.freelist[j]) < p
    requires forall i: nat :: i < NFRAMES && p <= Addr(i) ==> st.cowCount[i] <= 1
    ensures Inv(FreeRangeSpec(st, p, e).1)
    decreases e - p
  {
    if p + PGSIZE <= e {
      BootstrapKfree(st, p);
      BootstrapKfreeInv(st, p);
      FreeRangeBootstrapInv(KfreeSpec(st, p).1, p + PGSIZE, e);
      FreeRangeStep(st, p, e);
    }
  }

  /** The state before kinit: the free list empty, the (zero-initialised)
      count table all 0, the flag clear, RAM holding whatever it held. */
  ghost function BootState(end: nat, boot: map<nat, Page>): KState {
    KState(end, [], seq(NFRAMES, _ => 0), boot, false)
  }

  /** kinit(): freerange(end, PHYSTOP), then set cow_init. */
  ghost function KinitSpec(end: nat, boot: map<nat, Page>): (st: KState)
    requires WellFormed(BootState(end, boot))
    ensures WellFormed(st) && st.end == end && st.cowInit
  {
    FreeRangeSpec(BootState(end, boot), PgRoundUp(end), PHYSTOP).1.(cowInit := true)
  }

  /** The frames freerange(end, PHYSTOP) releases are exactly the managed
      frames. */
  lemma FreedStackIsManaged(end: nat)
    requires KERNBASE <= end <= PHYSTOP
    ensures forall i: nat :: Managed(end, i) <==> i in FreedStack(PgRoundUp(end), PHYSTOP)
  {
    var r := PgRoundUp(end);
    var j := (r - KERNBASE) / PGSIZE;
    assert r == KERNBASE + j * PGSIZE;
    var n := NFRAMES - j;
    FreedStackAt(r, PHYSTOP, n);
    var fs := FreedStack(r, PHYSTOP);
    forall i: nat ensures Managed(end, i) <==> i in fs {
      if Managed(end, i) {
        PgRoundUpLeast(end, Addr(i));
        assert fs[n - 1 - (i - j)] == i;
      }
      if i in fs {
        var k :| 0 <= k < n && fs[k] == i;
        assert Addr(i) == r + (n - 1 - k) * PGSIZE;
      }
    }
  }

  /** After kinit every managed frame, and nothing else, is on the free
      list, once, with count 0 and filled with byte 1; the list is the
      frames from PgRoundUp(end) up, the highest on top; the invariant
      holds with the double-free check switched on. */
  lemma KinitEstablishesInv(end: nat, boot: map<nat, Page>)
    requires WellFormed(BootState(end, boot))
    ensures var st := KinitSpec(end, boot);
      && Inv(st) && st.cowInit
      && FreeRangeSpec(BootState(end, boot), PgRoundUp(end), PHYSTOP).0 == Done
      && st.freelist == FreedStack(PgRoundUp(end), PHYSTOP)
      && (forall i :: 0 <= i < NFRAMES ==> st.cowCount[i] == 0)
      && (forall i: nat :: Managed(end, i) <==> i in st.freelist)
  {
    var st0 := BootState(end, boot);
    var r := PgRoundUp(end);
    assert Inv(st0);
    FreeRangeBootstrap(st0, r, PHYSTOP);
    FreeRangeBootstrapList(st0, r, PHYSTOP);
    FreeRangeBootstrapSeeds(st0, r, PHYSTOP);
    FreeRangeBootstrapInv(st0, r, PHYSTOP);
    FreedStackIsManaged(end);
    var st := KinitSpec(end, boot);
    assert st.freelist == FreedStack(r, PHYSTOP) + [];
  }

  // ---------------------------------------------------------------------
  // The allocator's global state, updated in place

  /** The globals `kmem.freelist`, `cow_count` and `cow_init`, with the
      linker symbol `end` and the page contents of RAM. */
  class Kmem {
    const end: nat
    const cowCount: array<int>
    var freelist: seq<nat>
    var mem: map<nat, Page>
    var cowInit: bool

    ghost function State(): KState
      reads this, cowCount
    {
      KState(end, freelist, cowCount[..], mem, cowInit)
    }

    ghost predicate Valid()
      reads this, cowCount
    {
      cowCount.Length == NFRAMES && WellFormed(State())
    }

    /** kinit(): seed the pool with every page from `end` to PHYSTOP, then
        switch on the double-free check. `boot` is what RAM holds at boot. */
    constructor Kinit(end: nat, boot: map<nat, Page>)
      requires WellFormed(BootState(end, boot))
      ensures Valid() && fresh(cowCount)
      ensures State() == KinitSpec(end, boot)
      ensures Inv(State()) && cowInit
    {
      this.end := end;
      cowCount := new int[NFRAMES](_ => 0);
      freelist := [];
      mem := boot;
      cowInit := false;
      new;
      assert State() == BootState(end, boot);
      var s := FreeRange(end, PHYSTOP);
      cowInit := true;
      KinitEstablishesInv(end, boot);
    }

    /** freerange(pa_start, pa_end): kfree every whole page from
        PGROUNDUP(pa_start) up to pa_end, stopping if kfree panics. */
    method FreeRange(paStart: nat, paEnd: nat) returns (s: Status)
      requires Valid()
      modifies this, cowCount
      ensures Valid()
      ensures (s, State()) == FreeRangeSpec(old(State()), PgRoundUp(paStart), paEnd)
    {
      var p := PgRoundUp(paStart);
      s := Done;
      while p + PGSIZE <= paEnd
        invariant Valid() && s == Done
        invariant FreeRangeSpec(State(), p, paEnd)
                  == FreeRangeSpec(old(State()), PgRoundUp(paStart), paEnd)
        decreases paEnd - p
      {
        s := Kfree(p);
        if s.Panic? {
          return;
        }
        p := p + PGSIZE;
      }
    }

    /** kfree(pa). */
    method Kfree(pa: nat) returns (s: Status)
      requires Valid()
      modifies this, cowCount
      ensures Valid()
      ensures (s, State()) == KfreeSpec(old(State()), pa)
    {
      if pa % PGSIZE != 0 || pa < end || pa >= PHYSTOP {
        return Panic("kfree");
      }
      var i := (pa - KERNBASE) / PGSIZE;
      if cowInit && cowCount[i] <= 0 {
        return Panic("kfree: cow_count");
      }
      if cowCount[i] > 1 {
        cowCount[i] := cowCount[i] - 1;
        return Done;
      }
      cowCount[i] := 0;
      mem := mem[i := Filled(1)];
      freelist := [i] + freelist;
      s := Done;
    }

    /** kalloc(): the address of a fresh page, or 0 when none is free. */
    method Kalloc() returns (pa: nat)
      requires Valid()
      modifies this, cowCount
      ensures Valid()
      ensures (pa, State()) == KallocSpec(old(State()))
    {
      if freelist == [] {
        return 0;
      }
      var i := freelist[0];
      freelist := freelist[1..];
      pa := Addr(i);
      mem := mem[i := Filled(5)];
      cowCount[i] := 1;
    }
  }
}
