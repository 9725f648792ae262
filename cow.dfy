/** The copy-on-write fault handler cow_kalloc: give the faulting virtual
    page a private, writable frame. As written it unmaps the old page
    (dropping one reference with kfree), allocates, copies the old frame
    into the new one and maps the new frame. */
module Cow {
  import opened Memlayout
  import opened Kalloc
  import opened Vm

  /** What a call ended with: its status, the address it returned (0 for
      out of memory), and the allocator state and page table it left. */
  datatype Outcome = Outcome(status: Status, pa: nat, kmem: KState, pagetable: map<nat, Pte>)

  /** The permissions of the private copy: the old flags with the COW marker
      cleared and write enabled, every other bit kept. */
  function CowPerm(perm: Perm): (r: Perm)
    ensures r & PTE_W == PTE_W
    ensures r & PTE_COW == 0
    ensures r & !(PTE_W | PTE_COW) == perm & !(PTE_W | PTE_COW)
  {
    (perm & !PTE_COW) | PTE_W
  }

  /** uvmunmap(pagetable, va, 1, 1) on a mapped page: kfree the frame, then
      clear the entry. A panic in kfree leaves the entry in place. */
  ghost function UvmUnmapSpec(st: KState, pt: map<nat, Pte>, va: nat): (r: (Status, KState, map<nat, Pte>))
    requires WellFormed(st) && va in pt
    ensures WellFormed(r.1) && r.1.end == st.end && r.1.cowInit == st.cowInit
    ensures (r.0, r.1) == KfreeSpec(st, pt[va].pa)
    ensures r.0 == Done ==> Freeable(st.end, pt[va].pa) && r.2 == pt - {va}
    ensures r.0.Panic? ==> r.2 == pt
  {
    var (s, st1) := KfreeSpec(st, pt[va].pa);
    if s.Panic? then (s, st1, pt) else (Done, st1, pt - {va})
  }

  /** cow_kalloc(pagetable, va) as written: walk, compute the new flags,
      unmap with free, kalloc, memmove old to new, mappages. mappages
      cannot fail here, because `va` has just been unmapped. */
  ghost function CowKallocSpec(st: KState, pt: map<nat, Pte>, va: nat): (o: Outcome)
    requires WellFormed(st)
    ensures WellFormed(o.kmem)
  {
    if va !in pt then
      Outcome(Panic("cow_kalloc: old_pte should exist"), 0, st, pt)
    else
      var oldPerm := pt[va].perm & !PTE_COW;
      var oldPa := pt[va].pa;
      var (s1, st1, pt1) := UvmUnmapSpec(st, pt, va);
      if s1.Panic? then
        Outcome(s1, 0, st1, pt1)
      else
        var (newPa, st2) := KallocSpec(st1);
        if newPa == 0 then
          Outcome(Done, 0, st2, pt1)
        else
          var st3 := st2.(mem := st2.mem[Index(newPa) := st2.mem[Index(oldPa)]]);
          Outcome(Done, newPa, st3, pt1[va := Pte(newPa, oldPerm | PTE_W | PTE_V)])
  }

  /** `va` maps a frame that kalloc handed out and that is still
      referenced. */
  ghost predicate MapsLiveFrame(st: KState, pt: map<nat, Pte>, va: nat)
    requires WellFormed(st)
  {
    va in pt && Freeable(st.end, pt[va].pa) && st.cowCount[Index(pt[va].pa)] >= 1
  }

  /** Writing a page that is not on the free list keeps the invariant. */
  lemma WriteAllocatedPage(st: KState, i: nat, page: Page)
    requires Inv(st) && i < NFRAMES && i !in st.freelist && |page| == PGSIZE
    ensures Inv(st.(mem := st.mem[i := page]))
  {
    var st' := st.(mem := st.mem[i := page]);
    forall j | 0 <= j < |st'.freelist| ensures st'.mem[st'.freelist[j]] == Filled(1) {
      assert st.freelist[j] != i;
    }
  }

  /** A fault on an unmapped address panics and changes nothing. */
  lemma CowKallocNoPte(st: KState, pt: map<nat, Pte>, va: nat)
    requires WellFormed(st) && va !in pt
    ensures CowKallocSpec(st, pt, va) == Outcome(Panic("cow_kalloc: old_pte should exist"), 0, st, pt)
  {
  }

  /** When the mapped frame fails kfree's checks (misaligned, outside
      [end, PHYSTOP), or with count <= 0 once seeded), the unmap panics
      with kfree's message and nothing changes. */
  lemma CowKallocBadFrame(st: KState, pt: map<nat, Pte>, va: nat)
    requires WellFormed(st) && va in pt
    requires !Freeable(st.end, pt[va].pa) || (st.cowInit && st.cowCount[Index(pt[va].pa)] <= 0)
    ensures var o := CowKallocSpec(st, pt, va);
      && o.status == (if Freeable(st.end, pt[va].pa) then Panic("kfree: cow_count") else Panic("kfree"))
      && o.kmem == st && o.pagetable == pt
  {
  }

  /** A fault on a shared frame (count >= 2) drops one reference to it; if
      the pool is empty it returns 0 with `va` left unmapped; otherwise `va`
      maps the old head of the free list, a different frame, holding a copy
      of the old frame, with count 1 and the COW permissions. The
      invariant is kept. */
  lemma CowKallocShared(st: KState, pt: map<nat, Pte>, va: nat)
    requires Inv(st) && MapsLiveFrame(st, pt, va)
    requires st.cowCount[Index(pt[va].pa)] >= 2
    ensures var o := CowKallocSpec(st, pt, va);
      var f := Index(pt[va].pa);
      && o.status == Done
      && Inv(o.kmem)
      && (o.pa == 0 <==> st.freelist == [])
      && (o.pa == 0 ==>
            && o.pagetable == pt - {va}
            && o.kmem == st.(cowCount := st.cowCount[f := st.cowCount[f] - 1]))
      && (o.pa != 0 ==>
            && Index(o.pa) == st.freelist[0] && Index(o.pa) != f
            && o.kmem.mem == st.mem[Index(o.pa) := st.mem[f]]
            && o.kmem.cowCount == st.cowCount[f := st.cowCount[f] - 1][Index(o.pa) := 1]
            && o.kmem.freelist == st.freelist[1..]
            && o.pagetable == pt[va := Pte(o.pa, CowPerm(pt[va].perm) | PTE_V)])
  {
    var pa := pt[va].pa;
    var f := Index(pa);
    assert f !in st.freelist;
    KfreeShared(st, pa);
    KfreePreservesInv(st, pa);
    var st1 := KfreeSpec(st, pa).1;
    KallocTakesHead(st1);
    KallocPreservesInv(st1);
    if st1.freelist != [] {
      var (newPa, st2) := KallocSpec(st1);
      var h := st1.freelist[0];
      assert Index(newPa) == h;
      assert h != f by {
        assert st1.cowCount[st1.freelist[0]] == 0;
      }
      WriteAllocatedPage(st2, h, st2.mem[f]);
      assert (pt - {va})[va := Pte(newPa, CowPerm(pt[va].perm) | PTE_V)] == pt[va := Pte(newPa, CowPerm(pt[va].perm) | PTE_V)];
    }
  }

  /** A fault on a frame with a single reference (count 1) frees it, and
      kalloc, the list being LIFO, hands the very same frame back, now
      filled with byte 5: `va` keeps its frame, with the COW permissions,
      but the frame's contents are lost. The counts and the free list end
      as they began; the invariant is kept. */
  lemma CowKallocSoleOwner(st: KState, pt: map<nat, Pte>, va: nat)
    requires Inv(st) && MapsLiveFrame(st, pt, va)
    requires st.cowCount[Index(pt[va].pa)] == 1
    ensures var o := CowKallocSpec(st, pt, va);
      var f := Index(pt[va].pa);
      && o.status == Done
      && o.pa == pt[va].pa
      && o.kmem.mem == st.mem[f := Filled(5)]
      && o.kmem.cowCount == st.cowCount
      && o.kmem.freelist == st.freelist
      && o.pagetable == pt[va := Pte(o.pa, CowPerm(pt[va].perm) | PTE_V)]
      && Inv(o.kmem)
  {
    var pa := pt[va].pa;
    var f := Index(pa);
    assert f !in st.freelist;
    FreeThenAllocReuses(st, pa);
    KfreePreservesInv(st, pa);
    var st1 := KfreeSpec(st, pa).1;
    KallocPreservesInv(st1);
    KallocTakesHead(st1);
    var st2 := KallocSpec(st1).1;
    assert st2.mem == st.mem[f := Filled(5)];
    assert st2.cowCount == st.cowCount;
    assert (pt - {va})[va := Pte(pa, CowPerm(pt[va].perm) | PTE_V)] == pt[va := Pte(pa, CowPerm(pt[va].perm) | PTE_V)];
  }

  /** The contents a faulting process had in a frame it owned alone do not
      survive cow_kalloc as written, unless they happened to be all 5s. */
  lemma CowKallocSoleOwnerLosesContents(st: KState, pt: map<nat, Pte>, va: nat)
    requires Inv(st) && MapsLiveFrame(st, pt, va)
    requires st.cowCount[Index(pt[va].pa)] == 1
    requires st.mem[Index(pt[va].pa)] != Filled(5)
    ensures var o := CowKallocSpec(st, pt, va);
      o.pa != 0 && o.kmem.mem[Index(o.pa)] != st.mem[Index(pt[va].pa)]
  {
    CowKallocSoleOwner(st, pt, va);
  }

  /** cow_kalloc with the copy taken before the old reference is dropped:
      walk, compute the new flags, kalloc, memmove old to new, then
      uvmunmap with free and mappages. Out of memory changes nothing. */
  ghost function CowKallocCopyFirstSpec(st: KState, pt: map<nat, Pte>, va: nat): (o: Outcome)
    requires WellFormed(st)
    requires va in pt ==> KERNBASE <= pt[va].pa < PHYSTOP
    ensures WellFormed(o.kmem)
  {
    if va !in pt then
      Outcome(Panic("cow_kalloc: old_pte should exist"), 0, st, pt)
    else
      var perm := CowPerm(pt[va].perm);
      var oldPa := pt[va].pa;
      var (newPa, st1) := KallocSpec(st);
      if newPa == 0 then
        Outcome(Done, 0, st1, pt)
      else
        var st2 := st1.(mem := st1.mem[Index(newPa) := st1.mem[Index(oldPa)]]);
        var (s3, st3, pt3) := UvmUnmapSpec(st2, pt, va);
        if s3.Panic? then
          Outcome(s3, 0, st3, pt3)
        else
          Outcome(Done, newPa, st3, pt3[va := Pte(newPa, perm | PTE_V)])
  }

  /** With the copy taken first, every fault on a live frame either runs out
      of memory changing nothing, or maps `va` to a different frame that
      holds exactly the old frame's contents, with count 1 and the COW
      permissions, the old frame losing exactly one reference (and, when
      that was its last, being freed); nothing else changes. The invariant
      is kept. */
  lemma CowKallocCopyFirstKeepsContents(st: KState, pt: map<nat, Pte>, va: nat)
    requires Inv(st) && MapsLiveFrame(st, pt, va)
    ensures var o := CowKallocCopyFirstSpec(st, pt, va);
      var f := Index(pt[va].pa);
      && o.status == Done
      && Inv(o.kmem)
      && (o.pa == 0 <==> st.freelist == [])
      && (o.pa == 0 ==> o.kmem == st && o.pagetable == pt)
      && (o.pa != 0 ==>
            && o.pa != pt[va].pa
            && Index(o.pa) == st.freelist[0]
            && o.kmem.mem[Index(o.pa)] == st.mem[f]
            && o.kmem.cowCount[Index(o.pa)] == 1
            && o.kmem.cowCount[f] == st.cowCount[f] - 1
            && o.kmem.cowCount == st.cowCount[Index(o.pa) := 1][f := st.cowCount[f] - 1]
            && o.kmem.freelist
               == (if st.cowCount[f] == 1 then [f] + st.freelist[1..] else st.freelist[1..])
            && o.kmem.mem
               == (if st.cowCount[f] == 1 then st.mem[Index(o.pa) := st.mem[f]][f := Filled(1)]
                   else st.mem[Index(o.pa) := st.mem[f]])
            && o.pagetable == pt[va := Pte(o.pa, CowPerm(pt[va].perm) | PTE_V)])
  {
    var pa := pt[va].pa;
    var f := Index(pa);
    assert f !in st.freelist;
    KallocTakesHead(st);
    KallocPreservesInv(st);
    if st.freelist != [] {
      var (newPa, st1) := KallocSpec(st);
      var h := st.freelist[0];
      assert h != f by {
        assert st.cowCount[st.freelist[0]] == 0;
      }
      var st2 := st1.(mem := st1.mem[h := st1.mem[f]]);
      WriteAllocatedPage(st1, h, st1.mem[f]);
      assert f !in st2.freelist;
      KfreePreservesInv(st2, pa);
      var st3 := KfreeSpec(st2, pa).1;
      if st.cowCount[f] >= 2 {
        KfreeShared(st2, pa);
      } else {
        KfreeLast(st2, pa);
      }
      assert st3.mem[h] == st.mem[f];
      assert st2.mem == st.mem[h := st.mem[f]];
      assert (pt - {va})[va := Pte(newPa, CowPerm(pt[va].perm) | PTE_V)] == pt[va := Pte(newPa, CowPerm(pt[va].perm) | PTE_V)];
    }
  }

  // ---------------------------------------------------------------------
  // The handler, updating the allocator and the page table in place

  /** uvmunmap(pagetable, va, 1, 1) on a mapped page. */
  method UvmUnmap(kmem: Kmem, pagetable: PageTable, va: nat) returns (s: Status)
    requires kmem.Valid() && va in pagetable.entries
    modifies kmem, kmem.cowCount, pagetable
    ensures kmem.Valid()
    ensures (s, kmem.State(), pagetable.entries)
            == UvmUnmapSpec(old(kmem.State()), old(pagetable.entries), va)
  {
    s := kmem.Kfree(pagetable.entries[va].pa);
    if s == Done {
      pagetable.Unmap(va);
    }
  }

  /** cow_kalloc(pagetable, va), as written. */
  method CowKalloc(kmem: Kmem, pagetable: PageTable, va: nat) returns (s: Status, newPa: nat)
    requires kmem.Valid()
    modifies kmem, kmem.cowCount, pagetable
    ensures kmem.Valid()
    ensures Outcome(s, newPa, kmem.State(), pagetable.entries)
            == CowKallocSpec(old(kmem.State()), old(pagetable.entries), va)
  {
    if va !in pagetable.entries {
      return Panic("cow_kalloc: old_pte should exist"), 0;
    }
    var oldPerm := pagetable.entries[va].perm & !PTE_COW;
    var oldPa := pagetable.entries[va].pa;
    s := UvmUnmap(kmem, pagetable, va);
    if s.Panic? {
      return s, 0;
    }
    newPa := kmem.Kalloc();
    if newPa == 0 {
      return Done, 0;
    }
    kmem.mem := kmem.mem[Index(newPa) := kmem.mem[Index(oldPa)]];
    pagetable.MapPages(va, newPa, oldPerm | PTE_W);
  }

  /** cow_kalloc with the copy taken before the old reference is dropped. */
  method CowKallocCopyFirst(kmem: Kmem, pagetable: PageTable, va: nat) returns (s: Status, newPa: nat)
    requires kmem.Valid()
    requires va in pagetable.entries ==> KERNBASE <= pagetable.entries[va].pa < PHYSTOP
    modifies kmem, kmem.cowCount, pagetable
    ensures kmem.Valid()
    ensures Outcome(s, newPa, kmem.State(), pagetable.entries)
            == CowKallocCopyFirstSpec(old(kmem.State()), old(pagetable.entries), va)
  {
    if va !in pagetable.entries {
      return Panic("cow_kalloc: old_pte should exist"), 0;
    }
    var perm := CowPerm(pagetable.entries[va].perm);
    var oldPa := pagetable.entries[va].pa;
    newPa := kmem.Kalloc();
    if newPa == 0 {
      return Done, 0;
    }
    kmem.mem := kmem.mem[Index(newPa) := kmem.mem[Index(oldPa)]];
    s := UvmUnmap(kmem, pagetable, va);
    if s.Panic? {
      return s, 0;
    }
    pagetable.MapPages(va, newPa, perm);
  }
}
