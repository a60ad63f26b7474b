/** The elementary steps that keep processes isolated: a chain appears or disappears
    unowned, an allocation is recorded or forgotten, a process is added or dropped. */
module Steps {
  import opened Machine
  import opened Bytes
  import opened Heap
  import opened Paging
  import opened Directory
  import opened ElfMap
  import opened Isolation

  /** Every frame of address space c is the same in b. */
  ghost predicate SameParts(a: Ram, b: Ram, c: FrameNo) {
    forall i: nat :: i < PAGES_PER_TABLE + 2 ==> b[PartFrame(a, c, i)] == a[PartFrame(a, c, i)]
  }

  lemma SamePartsView(a: Ram, b: Ram, c: FrameNo)
    requires SameParts(a, b, c)
    ensures forall i: nat :: i < PAGES_PER_TABLE + 2 ==> PartFrame(b, c, i) == PartFrame(a, c, i)
    ensures forall v: FrameNo :: PageEntry(b, c, v) == PageEntry(a, c, v)
    ensures forall i: Slot :: DirEntry(b, c, i) == DirEntry(a, c, i)
  {
    assert b[PartFrame(a, c, PAGES_PER_TABLE + 1)] == a[PartFrame(a, c, PAGES_PER_TABLE + 1)];
    assert DirFrame(b, c) == DirFrame(a, c);
    assert b[PartFrame(a, c, PAGES_PER_TABLE)] == a[PartFrame(a, c, PAGES_PER_TABLE)];
    forall v: FrameNo ensures PageEntry(b, c, v) == PageEntry(a, c, v) {
      assert b[PartFrame(a, c, v / PAGES_PER_TABLE)] == a[PartFrame(a, c, v / PAGES_PER_TABLE)];
    }
  }

  /** sys with other memory contents. */
  function WithPhys(sys: Sys, ph: Phys): Sys {
    sys.(ph := ph)
  }

  ghost predicate AllPartsSame(sys: Sys, ph: Phys) {
    forall pid: nat :: Active(sys, pid) ==> SameParts(sys.ph.ram, ph.ram, sys.procs[pid].value.chunk)
  }

  lemma SameUses(sys: Sys, ph: Phys, u: Use)
    requires AllPartsSame(sys, ph)
    ensures Valid(WithPhys(sys, ph), u) <==> Valid(sys, u)
    ensures Valid(sys, u) ==>
              BlockOf(WithPhys(sys, ph), u) == BlockOf(sys, u) && LenOf(WithPhys(sys, ph), u) == LenOf(sys, u)
  {
    hide PartFrame, SameParts;
    if Valid(sys, u) {
      SamePartsView(sys.ph.ram, ph.ram, sys.procs[u.pid].value.chunk);
    }
  }

  /** Memory may change in any way that keeps the held chains and the page directories. */
  lemma TransferIsolated(sys: Sys, ph: Phys)
    requires Isolated(sys) && KernelMap(ph.heap) && AllPartsSame(sys, ph)
    requires forall u: Use :: Valid(sys, u) ==>
               BlockOf(sys, u) in Live(ph.heap) && Live(ph.heap)[BlockOf(sys, u)] == LenOf(sys, u)
    ensures Isolated(WithPhys(sys, ph))
  {
    var next := WithPhys(sys, ph);
    hide WellFormed, Live, PageEntry, SameParts, BlockOf, LenOf, Valid;
    forall u: Use ensures Valid(next, u) <==> Valid(sys, u)
                  ensures Valid(sys, u) ==> BlockOf(next, u) == BlockOf(sys, u) && LenOf(next, u) == LenOf(sys, u) {
      SameUses(sys, ph, u);
    }
    forall pid: nat | Active(next, pid) ensures Mapped(ph.ram, next.procs[pid].value) {
      assert Active(sys, pid);
      SamePartsView(sys.ph.ram, ph.ram, sys.procs[pid].value.chunk);
    }
  }

  // -------------------------------------------------- unowned heap chains

  lemma RunAvoidsChain(m: Map, s: int, n: nat, b: int)
    requires RunAt(m, s, n) && b in Live(m)
    ensures b + Live(m)[b] <= s || s + n <= b
  {
    LiveBounds(m, b);
    var j := if s < b then b else s;
    assert b <= j < b + Live(m)[b] ==> m[j] == ChainByte(j - b, Live(m)[b]) && !IsFree(m[j]);
  }

  lemma ZeroedOutside(ram: Ram, f: FrameNo, size: Word, g: FrameNo)
    requires (g < f || f + Blocks(size) <= g) && f + Blocks(size) <= TOTAL_PAGES
    requires size <= 0xFFFF_F000
    ensures Zeroed(ram, f, size)[g] == ram[g]
  {
    BlocksIsCeiling(size);
  }

  /** An allocation leaves the frames of every live chain alone. */
  lemma AllocKeepsChains(ph: Phys, size: Word, b: int)
    requires KernelMap(ph.heap) && Serveable(ph.heap, size) && Blocks(size) >= 1 && b in Live(ph.heap)
    ensures var (r, ptr) := ZeroedAlloc(ph, size);
            && b in Live(r.heap) && Live(r.heap)[b] == Live(ph.heap)[b]
            && 0 <= b && b + Live(ph.heap)[b] <= HEAP_BLOCKS && Live(ph.heap)[b] >= 1
            && forall g: FrameNo :: BlockFrame(b) <= g < BlockFrame(b) + Live(ph.heap)[b] ==> r.ram[g] == ph.ram[g]
  {
    hide WellFormed, Live, Zeroed, MarkTaken, StartBlock;
    LiveBounds(ph.heap, b);
    MallocOutcome(ph.heap, size);
    BlocksIsCeiling(size);
    if Fits(ph.heap, Blocks(size)) {
      var s := StartBlock(ph.heap, Blocks(size));
      RunAvoidsChain(ph.heap, s, Blocks(size), b);
      assert BlockAddress(s) / PAGE_SIZE == BlockFrame(s);
      forall g: FrameNo | BlockFrame(b) <= g < BlockFrame(b) + Live(ph.heap)[b]
        ensures Zeroed(ph.ram, BlockFrame(s), size)[g] == ph.ram[g] {
        ZeroedOutside(ph.ram, BlockFrame(s), size, g);
      }
    }
  }

  lemma AllocKeepsParts(sys: Sys, size: Word)
    requires Isolated(sys) && Serveable(sys.ph.heap, size) && Blocks(size) >= 1
    ensures AllPartsSame(sys, ZeroedAlloc(sys.ph, size).0)
  {
    hide WellFormed, Live, Serveable, ZeroedAlloc, PartFrame;
    var r := ZeroedAlloc(sys.ph, size).0;
    forall pid: nat, i: nat | Active(sys, pid) && i < PAGES_PER_TABLE + 2
      ensures var f := PartFrame(sys.ph.ram, sys.procs[pid].value.chunk, i); r.ram[f] == sys.ph.ram[f] {
      assert Valid(sys, PartOf(pid, i));
      AllocKeepsChains(sys.ph, size, BlockOf(sys, PartOf(pid, i)));
    }
  }

  /** kernel_zeroed_alloc keeps everybody isolated; the new chain belongs to nobody. */
  lemma AllocKeepsIsolation(sys: Sys, size: Word)
    requires Isolated(sys) && Serveable(sys.ph.heap, size) && Blocks(size) >= 1
    ensures var (r, ptr) := ZeroedAlloc(sys.ph, size);
            && Isolated(WithPhys(sys, r)) && AllPartsSame(sys, r) && |r.heap| == |sys.ph.heap|
            && (ptr == 0 ==> r == sys.ph)
            && (ptr != 0 ==>
                  && HEAP_BASE <= ptr < TWO32 && ptr % PAGE_SIZE == 0
                  && var b := Pfn(ptr) - FIRST_FRAME;
                  && b !in Live(sys.ph.heap) && Live(r.heap) == Live(sys.ph.heap)[b := Blocks(size)]
                  && Unowned(WithPhys(sys, r), b))
  {
    hide WellFormed, Live, Zeroed, MarkTaken, StartBlock, BlockOf, LenOf, Valid, AllPartsSame, Serveable;
    AllocKeepsParts(sys, size);
    MallocOutcome(sys.ph.heap, size);
    var (r, ptr) := ZeroedAlloc(sys.ph, size);
    forall u: Use | Valid(sys, u)
      ensures BlockOf(sys, u) in Live(r.heap) && Live(r.heap)[BlockOf(sys, u)] == LenOf(sys, u) {
      AllocKeepsChains(sys.ph, size, BlockOf(sys, u));
    }
    TransferIsolated(sys, r);
    forall u: Use
      ensures Valid(WithPhys(sys, r), u) <==> Valid(sys, u)
      ensures Valid(sys, u) ==> BlockOf(WithPhys(sys, r), u) == BlockOf(sys, u) {
      SameUses(sys, r, u);
    }
  }

  /** heap_free of a chain nobody holds keeps everybody isolated. */
  lemma ReleaseKeepsIsolation(sys: Sys, b: nat)
    requires Isolated(sys) && b in Live(sys.ph.heap) && Unowned(sys, b)
    ensures var r := Phys(MarkFree(sys.ph.heap, b), sys.ph.ram);
            && Isolated(WithPhys(sys, r)) && AllPartsSame(sys, r)
            && |r.heap| == |sys.ph.heap| && Live(r.heap) == Live(sys.ph.heap) - {b}
  {
    hide WellFormed, Live, BlockOf, LenOf, Valid, Extent;
    FreeRemovesChain(sys.ph.heap, b);
    TransferIsolated(sys, Phys(MarkFree(sys.ph.heap, b), sys.ph.ram));
  }

  // ------------------------------------------ an allocation and its pages

  lemma IsolatedSeparate(sys: Sys, pid: nat)
    requires Isolated(sys) && Active(sys, pid)
    ensures Separate(sys.ph.ram, sys.procs[pid].value.chunk)
    ensures OwnsParts(sys.ph.heap, sys.ph.ram, sys.procs[pid].value.chunk)
  {
    hide WellFormed, Live, PartBlocks;
    var c := sys.procs[pid].value.chunk;
    var parts := PartBlocks(sys.ph.ram, c);
    PartBlocksLength(sys.ph.ram, c);
    forall i | 0 <= i < |parts| ensures Valid(sys, PartOf(pid, i)) && parts[i] == BlockOf(sys, PartOf(pid, i)) {
      PartFrameIsPart(sys.ph.ram, c, i);
    }
    forall i, j | 0 <= i < j < |parts| ensures parts[i] != parts[j] {
      assert BlockOf(sys, PartOf(pid, i)) != BlockOf(sys, PartOf(pid, j));
    }
    DistinctIsSeparate(sys.ph.ram, c);
  }

  lemma PartBlocksLength(ram: Ram, c: FrameNo)
    ensures |PartBlocks(ram, c)| == PAGES_PER_TABLE + 2
  {
  }

  /** Rewriting the page tables of one process leaves the page directories of the others. */
  lemma RemapOthers(sys: Sys, pid: nat, ram: Ram, q: nat)
    requires Isolated(sys) && Active(sys, pid) && Active(sys, q) && q != pid
    requires OnlyTables(sys.ph.ram, ram, sys.procs[pid].value.chunk)
    ensures SameParts(sys.ph.ram, ram, sys.procs[q].value.chunk)
  {
    hide WellFormed, Live;
    var a, c, d := sys.ph.ram, sys.procs[pid].value.chunk, sys.procs[q].value.chunk;
    forall i: nat | i < PAGES_PER_TABLE + 2 ensures ram[PartFrame(a, d, i)] == a[PartFrame(a, d, i)] {
      assert Valid(sys, PartOf(q, i));
      forall j: Slot ensures TableFrame(a, c, j) != PartFrame(a, d, i) {
        assert Valid(sys, PartOf(pid, j));
        assert BlockOf(sys, PartOf(pid, j)) != BlockOf(sys, PartOf(q, i));
      }
    }
  }

  lemma RemapOwn(a: Ram, b: Ram, c: FrameNo, i: nat)
    requires Separate(a, c) && OnlyTables(a, b, c) && i < PAGES_PER_TABLE + 2
    ensures PartFrame(b, c, i) == PartFrame(a, c, i)
  {
  }

  /** Mapping an allocation onto itself touches its Blocks(size) pages and no other. */
  lemma MapAllocation(ram: Ram, c: FrameNo, ptr: Word, size: Word, flags: Flags)
    requires Separate(ram, c) && ptr % PAGE_SIZE == 0 && Blocks(size) >= 1
    requires Pfn(ptr) + Blocks(size) <= FIRST_FRAME + HEAP_BLOCKS
    ensures var (r, res) := MapTo(ram, DirFrame(ram, c), ptr, ptr, AlignUp(Wrap(ptr + size)), flags);
            && res == 0 && OnlyTables(ram, r, c) && Separate(r, c) && DirFrame(r, c) == DirFrame(ram, c)
            && forall v: FrameNo :: PageEntry(r, c, v)
                 == if Pfn(ptr) <= v < Pfn(ptr) + Blocks(size) then IdentityEntry(v, flags) else PageEntry(ram, c, v)
  {
    hide PageEntry, Separate, OnlyTables, MapTo, Distance, AlignUp, Blocks;
    AllocationEnd(ptr, size);
    MapToExact(ram, c, ptr, ptr, AlignUp(Wrap(ptr + size)), flags);
    forall v: FrameNo
      ensures Distance(Pfn(ptr), v) < Blocks(size) <==> Pfn(ptr) <= v < Pfn(ptr) + Blocks(size)
      ensures Pfn(ptr) <= v ==> MappedEntry(Pfn(ptr), Pfn(ptr), flags, v) == IdentityEntry(v, flags) {
      DistanceIs(Pfn(ptr), v);
    }
  }

  lemma ModShift(k: int, n: int)
    ensures (k * PAGE_SIZE + n) % PAGE_SIZE == n % PAGE_SIZE
  {
  }

  lemma AllocationEnd(ptr: Word, size: Word)
    requires ptr % PAGE_SIZE == 0 && Blocks(size) >= 1 && Pfn(ptr) + Blocks(size) <= FIRST_FRAME + HEAP_BLOCKS
    ensures AlignUp(Wrap(ptr + size)) == ptr + Blocks(size) * PAGE_SIZE
    ensures ptr + Blocks(size) * PAGE_SIZE < TWO32
  {
    BlocksIsCeiling(size);
    ModShift(Pfn(ptr), size);
    AlignedUp(size);
    assert ptr == Pfn(ptr) * PAGE_SIZE && Blocks(size) * PAGE_SIZE == AlignUp(size);
    assert ptr + AlignUp(size) <= HEAP_BASE + HEAP_BLOCKS * PAGE_SIZE;
    assert Wrap(ptr + size) == ptr + size;
  }

  function WithProc(sys: Sys, ram: Ram, pid: nat, p: Proc): Sys
    requires pid < |sys.procs|
  {
    Sys(Phys(sys.ph.heap, ram), sys.procs[pid := Some(p)])
  }

  /** What process pid's table looks like with one slot changed. */
  function WithSlot(p: Proc, slot: Slot, a: Allocation): Proc {
    p.(allocs := p.allocs[slot := a])
  }

  lemma SlotUses(sys: Sys, ram: Ram, pid: nat, slot: Slot, a: Allocation, u: Use)
    requires Isolated(sys) && Active(sys, pid) && OnlyTables(sys.ph.ram, ram, sys.procs[pid].value.chunk)
    requires u != AllocOf(pid, slot)
    ensures var next := WithProc(sys, ram, pid, WithSlot(sys.procs[pid].value, slot, a));
            && (Valid(next, u) <==> Valid(sys, u))
            && (Valid(sys, u) ==> BlockOf(next, u) == BlockOf(sys, u) && LenOf(next, u) == LenOf(sys, u))
  {
    hide WellFormed, Live, Mapped, PartFrame;
    if Valid(sys, u) {
      var c := sys.procs[u.pid].value.chunk;
      IsolatedSeparate(sys, pid);
      if u.pid != pid {
        RemapOthers(sys, pid, ram, u.pid);
        SamePartsView(sys.ph.ram, ram, c);
      } else if u.PartOf? {
        RemapOwn(sys.ph.ram, ram, c, u.part);
      }
    }
  }

  lemma OthersMapped(sys: Sys, ram: Ram, pid: nat, q: nat)
    requires Isolated(sys) && Active(sys, pid) && Active(sys, q) && q != pid
    requires OnlyTables(sys.ph.ram, ram, sys.procs[pid].value.chunk)
    ensures Mapped(ram, sys.procs[q].value)
  {
    hide WellFormed, Live, PageEntry;
    RemapOthers(sys, pid, ram, q);
    SamePartsView(sys.ph.ram, ram, sys.procs[q].value.chunk);
  }

  lemma RecordMapped(a: Ram, b: Ram, p: Proc, slot: Slot, ptr: Word, size: Word)
    requires forall i: Slot :: DirEntry(b, p.chunk, i) == DirEntry(a, p.chunk, i)
    requires Mapped(a, p) && p.allocs[slot].ptr == 0 && ptr != 0
    requires forall v: FrameNo :: PageEntry(b, p.chunk, v)
               == if Pfn(ptr) <= v < Pfn(ptr) + Blocks(size) then IdentityEntry(v, READ_WRITE)
                  else PageEntry(a, p.chunk, v)
    ensures Mapped(b, WithSlot(p, slot, Allocation(ptr, size)))
  {
    hide PageEntry, Blocks;
    var p' := WithSlot(p, slot, Allocation(ptr, size));
    forall v: FrameNo
      ensures InAllocs(p'.allocs, v) <==> Pfn(ptr) <= v < Pfn(ptr) + Blocks(size) || InAllocs(p.allocs, v) {
      if InAllocs(p.allocs, v) {
        var i: Slot :| AllocPage(p.allocs[i], v);
        assert AllocPage(p'.allocs[i], v);
      }
      assert AllocPage(p'.allocs[slot], v) <==> Pfn(ptr) <= v < Pfn(ptr) + Blocks(size);
    }
  }

  /** Recording and mapping a chain nobody held makes it this process's allocation. */
  lemma RecordKeepsIsolation(sys: Sys, pid: nat, slot: Slot, ptr: Word, size: Word)
    requires Isolated(sys) && Active(sys, pid) && sys.procs[pid].value.allocs[slot].ptr == 0
    requires ptr > 0 && ptr % PAGE_SIZE == 0 && Blocks(size) >= 1
    requires var b := Pfn(ptr) - FIRST_FRAME;
             b in Live(sys.ph.heap) && Live(sys.ph.heap)[b] == Blocks(size) && Unowned(sys, b)
    ensures var p := sys.procs[pid].value;
            var (ram, res) := MapTo(sys.ph.ram, DirFrame(sys.ph.ram, p.chunk), ptr, ptr,
                AlignUp(Wrap(ptr + size)), READ_WRITE);
            && res == 0 && OnlyTables(sys.ph.ram, ram, p.chunk)
            && Isolated(WithProc(sys, ram, pid, WithSlot(p, slot, Allocation(ptr, size))))
  {
    hide WellFormed, Live, Mapped, PageEntry, Blocks, MapTo, OnlyTables, Separate, AlignUp, BlockOf, LenOf, Valid;
    var p, b := sys.procs[pid].value, Pfn(ptr) - FIRST_FRAME;
    LiveBounds(sys.ph.heap, b);
    IsolatedSeparate(sys, pid);
    MapAllocation(sys.ph.ram, p.chunk, ptr, size, READ_WRITE);
    var ram := MapTo(sys.ph.ram, DirFrame(sys.ph.ram, p.chunk), ptr, ptr, AlignUp(Wrap(ptr + size)), READ_WRITE).0;
    OnlyTablesKeeps(sys.ph.ram, ram, p.chunk);
    RecordMapped(sys.ph.ram, ram, p, slot, ptr, size);
    var next := WithProc(sys, ram, pid, WithSlot(p, slot, Allocation(ptr, size)));
    forall u: Use | u != AllocOf(pid, slot)
      ensures Valid(next, u) <==> Valid(sys, u)
      ensures Valid(sys, u) ==> BlockOf(next, u) == BlockOf(sys, u) && LenOf(next, u) == LenOf(sys, u) {
      SlotUses(sys, ram, pid, slot, Allocation(ptr, size), u);
    }
    NewSlot(sys, ram, pid, slot, ptr, size);
    forall q: nat | Active(next, q) ensures Mapped(ram, next.procs[q].value) {
      if q != pid {
        OthersMapped(sys, ram, pid, q);
      }
    }
  }

  lemma NewSlot(sys: Sys, ram: Ram, pid: nat, slot: Slot, ptr: Word, size: Word)
    requires Active(sys, pid) && ptr > 0
    ensures var next, u := WithProc(sys, ram, pid, WithSlot(sys.procs[pid].value, slot, Allocation(ptr, size))),
                           AllocOf(pid, slot);
            Valid(next, u) && BlockOf(next, u) == Pfn(ptr) - FIRST_FRAME && LenOf(next, u) == Blocks(size)
  {
  }

  lemma ForgetMapped(a: Ram, b: Ram, p: Proc, slot: Slot)
    requires forall i: Slot :: DirEntry(b, p.chunk, i) == DirEntry(a, p.chunk, i)
    requires Mapped(a, p) && p.allocs[slot].ptr != 0
    requires forall v: FrameNo :: PageEntry(b, p.chunk, v)
               == if AllocPage(p.allocs[slot], v) then IdentityEntry(v, 0) else PageEntry(a, p.chunk, v)
    requires forall i: Slot, v: FrameNo :: AllocPage(p.allocs[i], v) && AllocPage(p.allocs[slot], v) ==> i == slot
    ensures Mapped(b, WithSlot(p, slot, EMPTY_SLOT))
  {
    hide PageEntry, Blocks;
    var p' := WithSlot(p, slot, EMPTY_SLOT);
    forall v: FrameNo ensures InAllocs(p'.allocs, v) <==> !AllocPage(p.allocs[slot], v) && InAllocs(p.allocs, v) {
      if InAllocs(p'.allocs, v) {
        var i: Slot :| AllocPage(p'.allocs[i], v);
        assert AllocPage(p.allocs[i], v);
      }
      if InAllocs(p.allocs, v) && !AllocPage(p.allocs[slot], v) {
        var i: Slot :| AllocPage(p.allocs[i], v);
        assert AllocPage(p'.allocs[i], v);
      }
    }
    forall v: FrameNo ensures !Writeable(IdentityEntry(v, 0)) {
    }
  }

  lemma AllocPagesApart(sys: Sys, pid: nat, i: Slot, j: Slot, v: FrameNo)
    requires Isolated(sys) && Active(sys, pid)
    requires AllocPage(sys.procs[pid].value.allocs[i], v) && AllocPage(sys.procs[pid].value.allocs[j], v)
    ensures i == j
  {
    hide WellFormed, Live, Isolated, Blocks;
    assert Valid(sys, AllocOf(pid, i)) && Valid(sys, AllocOf(pid, j));
    if i != j {
      UsesDisjoint(sys, AllocOf(pid, i), AllocOf(pid, j));
    }
  }

  /** A pointer sits in one slot, so unjoining it empties that slot. */
  lemma UnjoinIsOneSlot(sys: Sys, pid: nat, slot: Slot)
    requires Isolated(sys) && Active(sys, pid) && sys.procs[pid].value.allocs[slot].ptr != 0
    ensures var t := sys.procs[pid].value.allocs;
            Unjoin(t, t[slot].ptr) == t[slot := EMPTY_SLOT] && FindSlot(t, t[slot].ptr, 0) == slot
  {
    hide WellFormed, Live, Mapped;
    var t := sys.procs[pid].value.allocs;
    forall i: Slot | t[i].ptr == t[slot].ptr ensures i == slot {
      assert Valid(sys, AllocOf(pid, i)) && Valid(sys, AllocOf(pid, slot));
      assert BlockOf(sys, AllocOf(pid, i)) == BlockOf(sys, AllocOf(pid, slot));
    }
  }

  /** Unmapping and forgetting an allocation leaves its chain to nobody. */
  lemma ForgetKeepsIsolation(sys: Sys, pid: nat, slot: Slot)
    requires Isolated(sys) && Active(sys, pid) && sys.procs[pid].value.allocs[slot].ptr != 0
    ensures var p := sys.procs[pid].value;
            var a := p.allocs[slot];
            var (ram, res) := MapTo(sys.ph.ram, DirFrame(sys.ph.ram, p.chunk), a.ptr, a.ptr,
                AlignUp(Wrap(a.ptr + a.size)), 0);
            var next := WithProc(sys, ram, pid, WithSlot(p, slot, EMPTY_SLOT));
            && res == 0 && OnlyTables(sys.ph.ram, ram, p.chunk) && Isolated(next)
            && Pfn(a.ptr) - FIRST_FRAME in Live(sys.ph.heap) && Unowned(next, Pfn(a.ptr) - FIRST_FRAME)
            && Live(sys.ph.heap)[Pfn(a.ptr) - FIRST_FRAME] == Blocks(a.size)
            && forall v: FrameNo :: PageEntry(ram, p.chunk, v)
                 == if AllocPage(a, v) then IdentityEntry(v, 0) else PageEntry(sys.ph.ram, p.chunk, v)
  {
    hide WellFormed, Live, Mapped, PageEntry, Blocks, MapTo, OnlyTables, Separate, AlignUp;
    var p := sys.procs[pid].value;
    var a := p.allocs[slot];
    assert Valid(sys, AllocOf(pid, slot));
    AllocationPlace(sys, pid, slot);
    IsolatedSeparate(sys, pid);
    MapAllocation(sys.ph.ram, p.chunk, a.ptr, a.size, 0);
    var ram := MapTo(sys.ph.ram, DirFrame(sys.ph.ram, p.chunk), a.ptr, a.ptr, AlignUp(Wrap(a.ptr + a.size)), 0).0;
    forall i: Slot, v: FrameNo | AllocPage(p.allocs[i], v) && AllocPage(a, v) ensures i == slot {
      AllocPagesApart(sys, pid, i, slot, v);
    }
    OnlyTablesKeeps(sys.ph.ram, ram, p.chunk);
    ForgetMapped(sys.ph.ram, ram, p, slot);
    ForgetUses(sys, ram, pid, slot);
  }

  lemma ForgetUses(sys: Sys, ram: Ram, pid: nat, slot: Slot)
    requires Isolated(sys) && Active(sys, pid) && sys.procs[pid].value.allocs[slot].ptr != 0
    requires OnlyTables(sys.ph.ram, ram, sys.procs[pid].value.chunk)
    requires Mapped(ram, WithSlot(sys.procs[pid].value, slot, EMPTY_SLOT))
    ensures var next := WithProc(sys, ram, pid, WithSlot(sys.procs[pid].value, slot, EMPTY_SLOT));
            Isolated(next) && Unowned(next, BlockOf(sys, AllocOf(pid, slot)))
  {
    hide WellFormed, Live, Mapped, OnlyTables, BlockOf, LenOf, Valid;
    var next := WithProc(sys, ram, pid, WithSlot(sys.procs[pid].value, slot, EMPTY_SLOT));
    forall u: Use | u != AllocOf(pid, slot)
      ensures Valid(next, u) <==> Valid(sys, u)
      ensures Valid(sys, u) ==> BlockOf(next, u) == BlockOf(sys, u) && LenOf(next, u) == LenOf(sys, u) {
      SlotUses(sys, ram, pid, slot, EMPTY_SLOT, u);
    }
    EmptySlotInvalid(sys, ram, pid, slot);
    forall q: nat | Active(next, q) ensures Mapped(ram, next.procs[q].value) {
      if q != pid {
        OthersMapped(sys, ram, pid, q);
      }
    }
  }

  lemma EmptySlotInvalid(sys: Sys, ram: Ram, pid: nat, slot: Slot)
    requires Active(sys, pid)
    ensures !Valid(WithProc(sys, ram, pid, WithSlot(sys.procs[pid].value, slot, EMPTY_SLOT)), AllocOf(pid, slot))
    ensures sys.procs[pid].value.allocs[slot].ptr != 0 ==> Valid(sys, AllocOf(pid, slot))
  {
  }
}
