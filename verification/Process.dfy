/** process_malloc, process_free and process_terminate_allocations (src/process/Process.c),
    what each does to one process, and that the others never notice. */
module Process {
  import opened Machine
  import opened Bytes
  import opened Heap
  import opened Paging
  import opened Directory
  import opened ElfMap
  import opened Isolation
  import opened Steps

  // ------------------------------------------------------------ operations

  ghost function Release(ph: Phys, ptr: Word): Phys {
    Phys(MarkFree(ph.heap, AddressBlock(ptr)), ph.ram)
  }

  /** process_malloc; the page range is mapped onto itself. */
  ghost function ProcMalloc(ph: Phys, p: Proc, size: Word): (Phys, Proc, Word) {
    var (r, ptr) := ZeroedAlloc(ph, size);
    if ptr == 0 then (ph, p, 0)
    else
      var address := Wrap(ptr);
      var slot := FindSlot(p.allocs, 0, 0);
      if slot < 0 then (Release(r, address), p, 0)
      else
        var (ram, res) := MapTo(r.ram, DirFrame(r.ram, p.chunk), address, address,
            AlignUp(Wrap(address + size)), READ_WRITE);
        if res < 0 then (Release(Phys(r.heap, ram), address), p, 0)
        else (Phys(r.heap, ram), WithSlot(p, slot, Allocation(address, size)), address)
  }

  /** process_free. */
  ghost function ProcFree(ph: Phys, p: Proc, ptr: Word): (Phys, Proc) {
    var slot := FindSlot(p.allocs, ptr, 0);
    if slot < 0 then (ph, p)
    else
      var a := p.allocs[slot];
      var (ram, res) := MapTo(ph.ram, DirFrame(ph.ram, p.chunk), a.ptr, a.ptr, AlignUp(Wrap(a.ptr + a.size)), 0);
      if res < 0 then (Phys(ph.heap, ram), p)
      else (Release(Phys(ph.heap, ram), ptr), p.(allocs := Unjoin(p.allocs, ptr)))
  }

  /** process_terminate_allocations from slot i on, with empty slots skipped. */
  ghost function Terminate(ph: Phys, p: Proc, i: nat): (Phys, Proc)
    decreases MAX_ALLOCATIONS - i
  {
    if i >= MAX_ALLOCATIONS then (ph, p)
    else if p.allocs[i].ptr == 0 then Terminate(ph, p, i + 1)
    else
      var (r, p') := ProcFree(ph, p, p.allocs[i].ptr);
      Terminate(r, p', i + 1)
  }

  // ----------------------------------------------------- in the whole system

  function Installed(sys: Sys, pid: nat, ph: Phys, p: Proc): Sys
    requires pid < |sys.procs|
  {
    Sys(ph, sys.procs[pid := Some(p)])
  }

  ghost function MallocStep(sys: Sys, pid: nat, size: Word): (Sys, Word)
    requires Active(sys, pid)
  {
    var (ph, p, ptr) := ProcMalloc(sys.ph, sys.procs[pid].value, size);
    (Installed(sys, pid, ph, p), ptr)
  }

  ghost function FreeStep(sys: Sys, pid: nat, ptr: Word): Sys
    requires Active(sys, pid)
  {
    var (ph, p) := ProcFree(sys.ph, sys.procs[pid].value, ptr);
    Installed(sys, pid, ph, p)
  }

  ghost function TerminateStep(sys: Sys, pid: nat): Sys
    requires Active(sys, pid)
  {
    var (ph, p) := Terminate(sys.ph, sys.procs[pid].value, 0);
    Installed(sys, pid, ph, p)
  }

  /** Nothing of any process but pid is different: neither its record nor any of its
      page-table entries. */
  ghost predicate OthersUntouched(a: Sys, b: Sys, pid: nat) {
    && |b.procs| == |a.procs|
    && (forall q: nat :: q < |a.procs| && q != pid ==> b.procs[q] == a.procs[q])
    && forall q: nat :: Active(a, q) && q != pid ==> SameParts(a.ph.ram, b.ph.ram, a.procs[q].value.chunk)
  }

  lemma UntouchedChain(a: Sys, b: Sys, c: Sys, pid: nat)
    requires OthersUntouched(a, b, pid) && OthersUntouched(b, c, pid)
    ensures OthersUntouched(a, c, pid)
  {
    hide PartFrame;
    forall q: nat | Active(a, q) && q != pid ensures SameParts(a.ph.ram, c.ph.ram, a.procs[q].value.chunk) {
      assert Active(b, q);
      SamePartsView(a.ph.ram, b.ph.ram, a.procs[q].value.chunk);
    }
  }

  /** What untouched means for a program: every address translates as before. */
  lemma UntouchedView(a: Sys, b: Sys, pid: nat, q: nat, v: Word)
    requires OthersUntouched(a, b, pid) && Active(a, q) && q != pid
    ensures var c := a.procs[q].value.chunk;
            Translate(b.ph.ram, DirFrame(b.ph.ram, c), v) == Translate(a.ph.ram, DirFrame(a.ph.ram, c), v)
  {
    hide PageEntry, Translate;
    var c := a.procs[q].value.chunk;
    SamePartsView(a.ph.ram, b.ph.ram, c);
    GetIsPageEntry(a.ph.ram, c, v);
    GetIsPageEntry(b.ph.ram, c, v);
  }

  /** A request of at least one block that the heap can serve: either null comes back and
      the heap is as before, or one new chain exists, is recorded and is mapped. */
  lemma MallocKeepsIsolation(sys: Sys, pid: nat, size: Word)
    requires Isolated(sys) && Active(sys, pid)
    requires Serveable(sys.ph.heap, size) && Blocks(size) >= 1
    ensures var (next, ptr) := MallocStep(sys, pid, size);
            && Isolated(next) && OthersUntouched(sys, next, pid) && |next.ph.heap| == |sys.ph.heap|
            && (ptr == 0 <==> !Fits(sys.ph.heap, Blocks(size)) || FindSlot(sys.procs[pid].value.allocs, 0, 0) < 0)
            && (ptr == 0 ==> next.ph.heap == sys.ph.heap && next.procs == sys.procs)
            && (ptr != 0 ==>
                  var slot := FindSlot(sys.procs[pid].value.allocs, 0, 0);
                  && next.procs[pid] == Some(WithSlot(sys.procs[pid].value, slot, Allocation(ptr, size)))
                  && Live(next.ph.heap) == Live(sys.ph.heap)[Pfn(ptr) - FIRST_FRAME := Blocks(size)]
                  && Pfn(ptr) - FIRST_FRAME !in Live(sys.ph.heap))
    ensures var c := sys.procs[pid].value.chunk;
            PartBlocks(MallocStep(sys, pid, size).0.ph.ram, c) == PartBlocks(sys.ph.ram, c)
  {
    hide WellFormed, Live, Mapped, PageEntry, Blocks, MapTo, OnlyTables, Separate, AlignUp, ZeroedAlloc, BlockOf,
      LenOf, Valid, Serveable, Fits, MarkFree, AddressBlock, PartFrame, PartBlocks;
    AllocKeepsIsolation(sys, size);
    AllocNull(sys.ph, size);
    var p := sys.procs[pid].value;
    var (r, ptr) := ZeroedAlloc(sys.ph, size);
    var slot, mid := FindSlot(p.allocs, 0, 0), WithPhys(sys, r);
    assert sys.procs[pid := Some(p)] == sys.procs;
    PartBlocksSame(sys.ph.ram, r.ram, p.chunk);
    if ptr != 0 {
      var b := Pfn(ptr) - FIRST_FRAME;
      if slot < 0 {
        BlockFrameAddress(Pfn(ptr));
        LiveBounds(r.heap, b);
        ReleaseKeepsIsolation(mid, b);
        AllocThenFree(sys.ph, size);
      } else {
        RecordKeepsIsolation(mid, pid, slot, ptr, size);
        var ram := MapTo(r.ram, DirFrame(r.ram, p.chunk), ptr, ptr, AlignUp(Wrap(ptr + size)), READ_WRITE).0;
        RemapUntouched(sys, r, pid, ram);
        IsolatedSeparate(mid, pid);
        PartBlocksKept(r.ram, ram, p.chunk);
      }
    }
  }

  lemma PartBlocksSame(a: Ram, b: Ram, c: FrameNo)
    requires SameParts(a, b, c)
    ensures PartBlocks(b, c) == PartBlocks(a, c)
  {
    hide PartFrame, PageEntry;
    SamePartsView(a, b, c);
    forall i: nat | i < PAGES_PER_TABLE + 2 ensures PartBlocks(b, c)[i] == PartBlocks(a, c)[i] {
      PartFrameIsPart(a, c, i);
      PartFrameIsPart(b, c, i);
    }
  }

  lemma AllocNull(ph: Phys, size: Word)
    requires KernelMap(ph.heap) && Serveable(ph.heap, size) && Blocks(size) >= 1
    ensures ZeroedAlloc(ph, size).1 == 0 <==> !Fits(ph.heap, Blocks(size))
  {
  }

  lemma AllocThenFree(ph: Phys, size: Word)
    requires KernelMap(ph.heap) && Serveable(ph.heap, size) && Blocks(size) >= 1
    ensures var (r, ptr) := ZeroedAlloc(ph, size);
            ptr != 0 ==> MarkFree(r.heap, AddressBlock(ptr)) == ph.heap
  {
    hide WellFormed, Live, Zeroed, MarkTaken, StartBlock;
    MallocOutcome(ph.heap, size);
    if Fits(ph.heap, Blocks(size)) {
      var s := StartBlock(ph.heap, Blocks(size));
      AddressBlockInverse(s, 0);
      TakeThenFreeRestores(ph.heap, s, Blocks(size));
    }
  }

  lemma RemapUntouched(sys: Sys, r: Phys, pid: nat, ram: Ram)
    requires Isolated(sys) && Isolated(WithPhys(sys, r)) && AllPartsSame(sys, r) && Active(sys, pid)
    requires OnlyTables(r.ram, ram, sys.procs[pid].value.chunk)
    ensures forall q: nat :: Active(sys, q) && q != pid ==> SameParts(sys.ph.ram, ram, sys.procs[q].value.chunk)
  {
    hide WellFormed, Live, Isolated, OnlyTables, PartFrame;
    forall q: nat | Active(sys, q) && q != pid ensures SameParts(sys.ph.ram, ram, sys.procs[q].value.chunk) {
      RemapOthers(WithPhys(sys, r), pid, ram, q);
      SamePartsView(sys.ph.ram, r.ram, sys.procs[q].value.chunk);
    }
  }

  /** Freeing a recorded allocation takes away exactly its chain and its pages. */
  lemma FreeKeepsIsolation(sys: Sys, pid: nat, slot: Slot)
    requires Isolated(sys) && Active(sys, pid) && sys.procs[pid].value.allocs[slot].ptr != 0
    ensures var p := sys.procs[pid].value;
            var a := p.allocs[slot];
            var next := FreeStep(sys, pid, a.ptr);
            && Isolated(next) && OthersUntouched(sys, next, pid)
            && next.procs[pid] == Some(WithSlot(p, slot, EMPTY_SLOT)) && |next.ph.heap| == |sys.ph.heap|
            && Live(next.ph.heap) == Live(sys.ph.heap) - {Pfn(a.ptr) - FIRST_FRAME}
            && Pfn(a.ptr) - FIRST_FRAME in Live(sys.ph.heap)
            && PartBlocks(next.ph.ram, p.chunk) == PartBlocks(sys.ph.ram, p.chunk)
            && forall v: FrameNo :: PageEntry(next.ph.ram, p.chunk, v)
                 == if AllocPage(a, v) then IdentityEntry(v, 0) else PageEntry(sys.ph.ram, p.chunk, v)
  {
    hide WellFormed, Live, Mapped, PageEntry, Blocks, MapTo, OnlyTables, Separate, AlignUp, BlockOf, LenOf, Valid,
      MarkFree, AddressBlock, PartFrame, PartBlocks, Isolated, Unjoin, FindSlot;
    var p := sys.procs[pid].value;
    var a := p.allocs[slot];
    UnjoinIsOneSlot(sys, pid, slot);
    ForgetKeepsIsolation(sys, pid, slot);
    var ram := MapTo(sys.ph.ram, DirFrame(sys.ph.ram, p.chunk), a.ptr, a.ptr, AlignUp(Wrap(a.ptr + a.size)), 0).0;
    var mid := WithProc(sys, ram, pid, WithSlot(p, slot, EMPTY_SLOT));
    FreedBlock(sys, pid, slot);
    IsolatedSeparate(sys, pid);
    PartBlocksKept(sys.ph.ram, ram, p.chunk);
    ReleaseKeepsIsolation(mid, Pfn(a.ptr) - FIRST_FRAME);
    forall q: nat | Active(sys, q) && q != pid ensures SameParts(sys.ph.ram, ram, sys.procs[q].value.chunk) {
      RemapOthers(sys, pid, ram, q);
    }
  }

  lemma FreedBlock(sys: Sys, pid: nat, slot: Slot)
    requires Isolated(sys) && Active(sys, pid) && sys.procs[pid].value.allocs[slot].ptr != 0
    ensures var ptr := sys.procs[pid].value.allocs[slot].ptr;
            AddressBlock(ptr) == Pfn(ptr) - FIRST_FRAME && FIRST_FRAME <= Pfn(ptr)
  {
    hide WellFormed, Live, Mapped, AddressBlock;
    assert Valid(sys, AllocOf(pid, slot));
    AllocationPlace(sys, pid, slot);
    BlockFrameAddress(Pfn(sys.procs[pid].value.allocs[slot].ptr));
  }

  /** A pointer the process was not given is ignored. */
  lemma FreeIgnoresForeign(sys: Sys, pid: nat, ptr: Word)
    requires Active(sys, pid) && forall slot: Slot :: sys.procs[pid].value.allocs[slot].ptr != ptr
    ensures FreeStep(sys, pid, ptr) == sys
  {
  }

  /** process_malloc then process_free of the result: the heap map, the table and every
      other process are as before. */
  lemma MallocThenFree(sys: Sys, pid: nat, size: Word)
    requires Isolated(sys) && Active(sys, pid)
    requires Serveable(sys.ph.heap, size) && Blocks(size) >= 1
    requires FindSlot(sys.procs[pid].value.allocs, 0, 0) >= 0
    ensures var (mid, ptr) := MallocStep(sys, pid, size);
            ptr != 0 ==>
              var next := FreeStep(mid, pid, ptr);
              && next.ph.heap == sys.ph.heap && OthersUntouched(sys, next, pid)
              && next.procs[pid].Some? && next.procs[pid].value.chunk == sys.procs[pid].value.chunk
              && forall i: Slot :: next.procs[pid].value.allocs[i].ptr == sys.procs[pid].value.allocs[i].ptr
  {
    hide WellFormed, Live, Mapped, PageEntry, Blocks, MapTo, Isolated, MallocStep, FreeStep, Serveable, Fits,
      PartFrame, SameParts;
    MallocKeepsIsolation(sys, pid, size);
    var (mid, ptr) := MallocStep(sys, pid, size);
    if ptr != 0 {
      FreeKeepsIsolation(mid, pid, FindSlot(sys.procs[pid].value.allocs, 0, 0));
      var next := FreeStep(mid, pid, ptr);
      UntouchedChain(sys, mid, next, pid);
      assert Live(next.ph.heap) == Live(sys.ph.heap);
      SameLiveSameHeap(sys, next);
    }
  }

  lemma SameLiveSameHeap(a: Sys, c: Sys)
    requires Isolated(a) && Isolated(c) && |c.ph.heap| == |a.ph.heap| && Live(a.ph.heap) == Live(c.ph.heap)
    ensures a.ph.heap == c.ph.heap
  {
    ChainsDetermineMap(a.ph.heap, c.ph.heap);
  }

  // ------------------------------------------------------------ termination

  /** The blocks at which the allocations in slots i and up start. */
  ghost function AllocBlocks(t: Table, i: nat): set<int> {
    set j | i <= j < MAX_ALLOCATIONS && t[j].ptr != 0 :: Pfn(t[j].ptr) - FIRST_FRAME
  }

  ghost predicate InAllocsFrom(t: Table, i: nat, v: FrameNo) {
    exists j: Slot :: i <= j && AllocPage(t[j], v)
  }

  /** next is sys after process pid has freed everything in slots i and up. */
  ghost predicate Emptied(sys: Sys, next: Sys, pid: nat, i: nat)
    requires Active(sys, pid)
  {
    && Isolated(next) && OthersUntouched(sys, next, pid) && Active(next, pid) && |next.ph.heap| == |sys.ph.heap|
    && Live(next.ph.heap) == Live(sys.ph.heap) - AllocBlocks(sys.procs[pid].value.allocs, i)
    && var p, p' := sys.procs[pid].value, next.procs[pid].value;
    && p'.chunk == p.chunk && p'.regions == p.regions
    && PartBlocks(next.ph.ram, p.chunk) == PartBlocks(sys.ph.ram, p.chunk)
    && (forall j: Slot :: if j < i then p'.allocs[j] == p.allocs[j] else p'.allocs[j].ptr == 0)
    && (forall v: FrameNo :: PageEntry(next.ph.ram, p.chunk, v)
          == if InAllocsFrom(p.allocs, i, v) then IdentityEntry(v, 0) else PageEntry(sys.ph.ram, p.chunk, v))
  }

  lemma {:induction false} TerminateEmpties(sys: Sys, pid: nat, i: nat)
    requires Isolated(sys) && Active(sys, pid)
    ensures var (ph, p) := Terminate(sys.ph, sys.procs[pid].value, i); Emptied(sys, Installed(sys, pid, ph, p), pid, i)
    decreases MAX_ALLOCATIONS - i
  {
    hide WellFormed, Live, PageEntry, Isolated, ProcFree, PartFrame, PartBlocks, Emptied;
    var p := sys.procs[pid].value;
    if i >= MAX_ALLOCATIONS {
      EmptiedNothing(sys, pid, i);
    } else if p.allocs[i].ptr == 0 {
      TerminateEmpties(sys, pid, i + 1);
      var (ph, p') := Terminate(sys.ph, p, i + 1);
      EmptiedSkip(sys, Installed(sys, pid, ph, p'), pid, i);
    } else {
      FreeKeepsIsolation(sys, pid, i);
      var mid := FreeStep(sys, pid, p.allocs[i].ptr);
      TerminateEmpties(mid, pid, i + 1);
      var (ph, p') := Terminate(mid.ph, mid.procs[pid].value, i + 1);
      assert Installed(mid, pid, ph, p') == Installed(sys, pid, ph, p') by {
        assert mid.procs == sys.procs[pid := mid.procs[pid]];
      }
      EmptiedFree(sys, mid, Installed(sys, pid, ph, p'), pid, i);
    }
  }

  lemma EmptiedNothing(sys: Sys, pid: nat, i: nat)
    requires Isolated(sys) && Active(sys, pid) && i >= MAX_ALLOCATIONS
    ensures Emptied(sys, Installed(sys, pid, sys.ph, sys.procs[pid].value), pid, i)
  {
    hide WellFormed, Live, PageEntry, Isolated, PartFrame, PartBlocks;
    assert sys.procs[pid := sys.procs[pid]] == sys.procs;
    assert AllocBlocks(sys.procs[pid].value.allocs, i) == {};
    assert Live(sys.ph.heap) - {} == Live(sys.ph.heap);
  }

  lemma EmptiedSkip(sys: Sys, next: Sys, pid: nat, i: nat)
    requires Active(sys, pid) && i < MAX_ALLOCATIONS && sys.procs[pid].value.allocs[i].ptr == 0
    requires Emptied(sys, next, pid, i + 1)
    ensures Emptied(sys, next, pid, i)
  {
  }

  lemma EmptiedFree(sys: Sys, mid: Sys, next: Sys, pid: nat, i: nat)
    requires Active(sys, pid) && i < MAX_ALLOCATIONS && sys.procs[pid].value.allocs[i].ptr != 0
    requires var p := sys.procs[pid].value;
             && OthersUntouched(sys, mid, pid) && |mid.ph.heap| == |sys.ph.heap|
             && mid.procs[pid] == Some(WithSlot(p, i, EMPTY_SLOT))
             && PartBlocks(mid.ph.ram, p.chunk) == PartBlocks(sys.ph.ram, p.chunk)
             && Live(mid.ph.heap) == Live(sys.ph.heap) - {Pfn(p.allocs[i].ptr) - FIRST_FRAME}
             && forall v: FrameNo :: PageEntry(mid.ph.ram, p.chunk, v)
                  == if AllocPage(p.allocs[i], v) then IdentityEntry(v, 0) else PageEntry(sys.ph.ram, p.chunk, v)
    requires Emptied(mid, next, pid, i + 1)
    ensures Emptied(sys, next, pid, i)
  {
    hide WellFormed, Live, PageEntry, Isolated, OthersUntouched, AllocPage, PartBlocks;
    UntouchedChain(sys, mid, next, pid);
    UntouchedCount(sys, mid, pid);
    var t, t' := sys.procs[pid].value.allocs, mid.procs[pid].value.allocs;
    assert AllocBlocks(t, i) == AllocBlocks(t', i + 1) + {Pfn(t[i].ptr) - FIRST_FRAME} by {
      assert forall j | i + 1 <= j < MAX_ALLOCATIONS :: t'[j] == t[j];
    }
    forall v: FrameNo ensures InAllocsFrom(t, i, v) <==> AllocPage(t[i], v) || InAllocsFrom(t', i + 1, v) {
      assert forall j: Slot :: i + 1 <= j ==> t'[j] == t[j];
    }
    UntouchedCount(sys, next, pid);
  }

  lemma UntouchedCount(a: Sys, b: Sys, pid: nat)
    requires OthersUntouched(a, b, pid)
    ensures |b.procs| == |a.procs|
  {
  }

  /** process_terminate_allocations gives back exactly the chains in the table, unmaps
      exactly their pages, empties the table, and touches no other process. */
  lemma TerminateConserves(sys: Sys, pid: nat)
    requires Isolated(sys) && Active(sys, pid)
    ensures Emptied(sys, TerminateStep(sys, pid), pid, 0)
    ensures forall v: FrameNo ::
              InAllocsFrom(sys.procs[pid].value.allocs, 0, v) <==> InAllocs(sys.procs[pid].value.allocs, v)
  {
    hide WellFormed, Live, PageEntry, Isolated, Emptied, Terminate, AllocPage;
    TerminateEmpties(sys, pid, 0);
    var t := sys.procs[pid].value.allocs;
    forall v: FrameNo ensures InAllocsFrom(t, 0, v) <==> InAllocs(t, v) {
      if InAllocs(t, v) {
        var j: Slot :| AllocPage(t[j], v);
        assert 0 <= j;
      }
    }
  }
}
