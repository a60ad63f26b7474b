/** What memory keeps: stores of user code through its page tables, and that no step for one
    process writes a frame of another one, of the kernel, or outside the heap. */
module Contents {
  import opened Machine
  import opened Bytes
  import opened Heap
  import opened Paging
  import opened Directory
  import opened ElfMap
  import opened Isolation
  import opened Steps
  import opened Process
  import opened System

  /** Frame f belongs to the chain that u holds. */
  ghost predicate InUse(sys: Sys, u: Use, f: FrameNo) {
    Valid(sys, u) && BlockOf(sys, u) <= f - FIRST_FRAME < BlockOf(sys, u) + LenOf(sys, u)
  }

  predicate Outside(m: Map, f: FrameNo) {
    f - FIRST_FRAME < 0 || f - FIRST_FRAME >= |m|
  }

  /** Frame f is neither free nor held by pid: it is outside the heap, or in a live chain b
      that belongs to another process or to the kernel. */
  ghost predicate Apart(sys: Sys, pid: nat, b: int, f: FrameNo) {
    Outside(sys.ph.heap, f) || (Covers(sys.ph.heap, b, f - FIRST_FRAME) && !OwnedBy(sys, pid, b))
  }

  /** f is outside the heap, or in a live chain b that no process holds: the kernel's own. */
  ghost predicate KernelHolds(sys: Sys, b: int, f: FrameNo) {
    Outside(sys.ph.heap, f) || (Covers(sys.ph.heap, b, f - FIRST_FRAME) && Unowned(sys, b))
  }

  lemma OwnChainElsewhere(sys: Sys, u: Use, b: int, f: FrameNo)
    requires Isolated(sys) && Valid(sys, u) && Apart(sys, u.pid, b, f)
    ensures !InUse(sys, u, f)
  {
    hide WellFormed, Live, BlockOf, LenOf, Valid;
    LiveBounds(sys.ph.heap, BlockOf(sys, u));
    if !Outside(sys.ph.heap, f) {
      LiveBounds(sys.ph.heap, b);
      ChainsApart(sys.ph.heap, b, Live(sys.ph.heap)[b], BlockOf(sys, u), LenOf(sys, u));
    }
  }

  /** What one process holds is apart from every other. */
  lemma HeldIsApart(sys: Sys, pid: nat, u: Use, f: FrameNo)
    requires Isolated(sys) && InUse(sys, u, f) && u.pid != pid
    ensures Apart(sys, pid, BlockOf(sys, u), f)
  {
    hide WellFormed, Live, BlockOf, LenOf, Valid, Mapped;
  }

  lemma HeldInHeap(sys: Sys, u: Use, f: FrameNo)
    requires Isolated(sys) && InUse(sys, u, f)
    ensures FIRST_FRAME <= f < FIRST_FRAME + HEAP_BLOCKS
  {
    hide WellFormed, Live, BlockOf, LenOf, Valid, Mapped;
    LiveBounds(sys.ph.heap, BlockOf(sys, u));
  }

  /** What the kernel holds is apart from every process. */
  lemma UnownedIsApart(sys: Sys, pid: nat, b: int, f: FrameNo)
    requires KernelHolds(sys, b, f)
    ensures Apart(sys, pid, b, f)
  {
    hide Outside, Live, BlockOf, Valid;
  }

  /** Nothing of the kernel's can be written by any process. */
  lemma KernelMemoryProtected(sys: Sys, pid: nat, v: FrameNo, b: int)
    requires Isolated(sys) && Active(sys, pid) && Writeable(PageEntry(sys.ph.ram, sys.procs[pid].value.chunk, v))
    ensures !KernelHolds(sys, b, Pfn(PageEntry(sys.ph.ram, sys.procs[pid].value.chunk, v)))
  {
    hide Isolated, PageEntry, KernelHolds, Apart, Valid, BlockOf, LenOf;
    var f := Pfn(PageEntry(sys.ph.ram, sys.procs[pid].value.chunk, v));
    if KernelHolds(sys, b, f) {
      var t := WriteableFrame(sys, pid, v);
      UnownedIsApart(sys, pid, b, f);
      OwnChainElsewhere(sys, t, b, f);
    }
  }

  // ------------------------------------------------------------ user stores

  /** User code stores w at the aligned address v. */
  function Store(ram: Ram, c: FrameNo, v: Word, w: Word): Ram {
    var f := Pfn(PageEntry(ram, c, Pfn(v)));
    ram[f := ram[f][v % PAGE_SIZE / 4 := w]]
  }

  ghost predicate MayStore(sys: Sys, pid: nat, v: Word) {
    Active(sys, pid) && v % 4 == 0 && CanWrite(sys.ph.ram, sys.procs[pid].value.chunk, Pfn(v))
  }

  /** A store changes the four bytes at the place its address translates to, and no other. */
  lemma StoreExact(ram: Ram, c: FrameNo, v: Word, w: Word, x: Word)
    requires v % 4 == 0
    ensures var p := Translate(ram, DirFrame(ram, c), v);
            GetByte(Store(ram, c, v, w), x) == if p <= x < p + 4 then ByteOf(w, x - p) else GetByte(ram, x)
  {
    hide PageEntry, Translate, ByteOf, GetByte, FrameAddress;
    GetIsPageEntry(ram, c, v);
    var f, j := Pfn(PageEntry(ram, c, Pfn(v))), v % PAGE_SIZE / 4;
    hide Pfn;
    AlignedWord(v);
    BytesOfWord(f, j, x);
    OneWord(ram, f, j, w, x);
  }

  lemma AlignedWord(v: Word)
    requires v % 4 == 0
    ensures v % PAGE_SIZE == 4 * (v % PAGE_SIZE / 4)
  {
  }

  lemma OneWord(ram: Ram, f: FrameNo, j: Slot, w: Word, x: Word)
    ensures GetByte(ram[f := ram[f][j := w]], x)
         == if Pfn(x) == f && x % PAGE_SIZE / 4 == j then ByteOf(w, x % 4) else GetByte(ram, x)
  {
    hide ByteOf;
  }

  /** The addresses of the bytes of word j in frame f. */
  lemma BytesOfWord(f: FrameNo, j: Slot, x: Word)
    ensures FrameAddress(f) + 4 * j <= x < FrameAddress(f) + 4 * j + 4
            <==> Pfn(x) == f && x % PAGE_SIZE / 4 == j
    ensures Pfn(x) == f && x % PAGE_SIZE / 4 == j ==> x % 4 == x - (FrameAddress(f) + 4 * j)
  {
    AddressParts(x);
  }

  ghost function StoreStep(sys: Sys, pid: nat, v: Word, w: Word): Sys
    requires MayStore(sys, pid, v)
  {
    WithPhys(sys, Phys(sys.ph.heap, Store(sys.ph.ram, sys.procs[pid].value.chunk, v, w)))
  }

  /** A store through any page the processor lets it write keeps everybody isolated, and changes no page table
      and no frame of another process, of the kernel or outside the heap. */
  lemma StoreKeepsIsolation(sys: Sys, pid: nat, v: Word, w: Word)
    requires Isolated(sys) && MayStore(sys, pid, v)
    ensures var next := StoreStep(sys, pid, v, w);
            && Isolated(next) && AllPartsSame(sys, next.ph)
            && forall b: int, f: FrameNo :: Apart(sys, pid, b, f) ==> next.ph.ram[f] == sys.ph.ram[f]
  {
    hide WellFormed, Live, PageEntry, PartFrame, BlockOf, LenOf, Valid, Mapped, Apart, CanRead, CanWrite;
    var next := StoreStep(sys, pid, v, w);
    CanWriteIsWriteable(sys.ph.ram, sys.procs[pid].value.chunk, Pfn(v));
    var g := Pfn(PageEntry(sys.ph.ram, sys.procs[pid].value.chunk, Pfn(v)));
    var t := WriteableFrame(sys, pid, Pfn(v));
    forall q: nat, i: nat | Active(sys, q) && i < PAGES_PER_TABLE + 2
      ensures PartFrame(sys.ph.ram, sys.procs[q].value.chunk, i) != g {
      ValidPart(sys, q, i);
      PageTablesProtected(sys, pid, Pfn(v), q, i);
    }
    TransferIsolated(sys, next.ph);
    forall b: int, f: FrameNo | Apart(sys, pid, b, f) ensures f != g {
      OwnChainElsewhere(sys, t, b, f);
    }
  }

  lemma ValidPart(sys: Sys, q: nat, i: nat)
    requires Active(sys, q) && i < PAGES_PER_TABLE + 2
    ensures Valid(sys, PartOf(q, i)) && LenOf(sys, PartOf(q, i)) == 1
    ensures BlockOf(sys, PartOf(q, i)) == PartFrame(sys.ph.ram, sys.procs[q].value.chunk, i) - FIRST_FRAME
  {
  }

  // ------------------------------------------------------------ what steps leave alone

  lemma TableNotApart(sys: Sys, pid: nat, b: int, f: FrameNo)
    requires Isolated(sys) && Active(sys, pid) && Apart(sys, pid, b, f)
    ensures !IsTable(sys.ph.ram, sys.procs[pid].value.chunk, f)
  {
    hide WellFormed, Live, Mapped, BlockOf, LenOf, Valid, Apart;
    var c := sys.procs[pid].value.chunk;
    forall i: Slot ensures TableFrame(sys.ph.ram, c, i) != f {
      ValidPart(sys, pid, i);
      assert PartFrame(sys.ph.ram, c, i) == TableFrame(sys.ph.ram, c, i);
      OwnChainElsewhere(sys, PartOf(pid, i), b, f);
    }
  }

  /** Remapping in pid's own tables. */
  lemma RemapKeeps(sys: Sys, pid: nat, virt: Word, phys: Word, end: Word, flags: Flags, b: int, f: FrameNo)
    requires Isolated(sys) && Active(sys, pid) && Apart(sys, pid, b, f)
    ensures var c := sys.procs[pid].value.chunk;
            MapTo(sys.ph.ram, DirFrame(sys.ph.ram, c), virt, phys, end, flags).0[f] == sys.ph.ram[f]
  {
    hide Isolated, MapTo, PageEntry, IsTable, Apart, Separate, OwnsParts;
    IsolatedSeparate(sys, pid);
    MapToExact(sys.ph.ram, sys.procs[pid].value.chunk, virt, phys, end, flags);
    TableNotApart(sys, pid, b, f);
  }

  lemma OwnersSame(sys: Sys, ph: Phys, pid: nat, b: int)
    requires AllPartsSame(sys, ph)
    ensures OwnedBy(WithPhys(sys, ph), pid, b) <==> OwnedBy(sys, pid, b)
  {
    hide AllPartsSame, BlockOf, LenOf, Valid;
    var next := WithPhys(sys, ph);
    if OwnedBy(sys, pid, b) {
      var u: Use :| Valid(sys, u) && u.pid == pid && BlockOf(sys, u) == b;
      SameUses(sys, ph, u);
    }
    if OwnedBy(next, pid, b) {
      var u: Use :| Valid(next, u) && u.pid == pid && BlockOf(next, u) == b;
      SameUses(sys, ph, u);
    }
  }

  lemma AllocOutside(ph: Phys, size: Word, f: FrameNo)
    requires KernelMap(ph.heap) && Serveable(ph.heap, size) && Blocks(size) >= 1
    requires Outside(ph.heap, f)
    ensures ZeroedAlloc(ph, size).0.ram[f] == ph.ram[f]
  {
    hide WellFormed, Live, Zeroed, MarkTaken, StartBlock;
    MallocOutcome(ph.heap, size);
    BlocksIsCeiling(size);
    if Fits(ph.heap, Blocks(size)) {
      var s := StartBlock(ph.heap, Blocks(size));
      assert BlockAddress(s) / PAGE_SIZE == BlockFrame(s);
      ZeroedOutside(ph.ram, BlockFrame(s), size, f);
    }
  }

  /** An allocation keeps what lies apart, and keeps it apart. */
  lemma AllocKeepsApart(sys: Sys, pid: nat, size: Word, b: int, f: FrameNo)
    requires Isolated(sys) && Serveable(sys.ph.heap, size) && Blocks(size) >= 1 && Apart(sys, pid, b, f)
    ensures var r := ZeroedAlloc(sys.ph, size).0;
            && Isolated(WithPhys(sys, r)) && Apart(WithPhys(sys, r), pid, b, f)
            && AllPartsSame(sys, r) && r.ram[f] == sys.ph.ram[f]
  {
    hide WellFormed, Live, Serveable, ZeroedAlloc, BlockOf, LenOf, Valid, Mapped, Blocks, AllPartsSame, OwnedBy;
    AllocKeepsIsolation(sys, size);
    OwnersSame(sys, ZeroedAlloc(sys.ph, size).0, pid, b);
    if Outside(sys.ph.heap, f) {
      AllocOutside(sys.ph, size, f);
    } else {
      AllocKeepsChains(sys.ph, size, b);
    }
  }

  lemma MallocKeepsApart(sys: Sys, pid: nat, size: Word, b: int, f: FrameNo)
    requires Isolated(sys) && Active(sys, pid) && Serveable(sys.ph.heap, size) && Blocks(size) >= 1
    requires Apart(sys, pid, b, f)
    ensures MallocStep(sys, pid, size).0.ph.ram[f] == sys.ph.ram[f]
  {
    hide Isolated, MapTo, Apart, ZeroedAlloc, Serveable, MarkFree, AddressBlock, Blocks, FindSlot, AlignUp;
    AllocKeepsApart(sys, pid, size, b, f);
    var (r, ptr) := ZeroedAlloc(sys.ph, size);
    var address := Wrap(ptr);
    RemapKeeps(WithPhys(sys, r), pid, address, address, AlignUp(Wrap(address + size)), READ_WRITE, b, f);
  }

  /** What process_malloc returns: a run of bytes that are all zero, that the process finds at
      the same addresses and may write; outside it and the page tables no byte changes. */
  lemma MallocClears(sys: Sys, pid: nat, size: Word, x: Word)
    requires Isolated(sys) && Active(sys, pid) && Serveable(sys.ph.heap, size) && Blocks(size) >= 1
    ensures var (next, ptr) := MallocStep(sys, pid, size);
            var c := sys.procs[pid].value.chunk;
            ptr != 0 ==>
              if ptr <= x < ptr + size then
                && GetByte(next.ph.ram, x) == 0
                && Translate(next.ph.ram, DirFrame(next.ph.ram, c), x) == x && CanWrite(next.ph.ram, c, Pfn(x))
              else IsTable(sys.ph.ram, c, Pfn(x)) || GetByte(next.ph.ram, x) == GetByte(sys.ph.ram, x)
  {
    hide Isolated, Live, WellFormed, MapTo, Apart, ZeroedAlloc, Serveable, MarkFree, AddressBlock, Blocks, AlignUp,
      GetByte, PageEntry, Translate, CanWrite, AllPartsSame, Unowned, FindSlot, IsTable, Separate, Fits, MallocStep,
      OthersUntouched, PartBlocks, OnlyTables;
    MallocKeepsIsolation(sys, pid, size);
    AllocKeepsIsolation(sys, size);
    AllocatedBytesOf(sys, size, x);
    var (next, ptr) := MallocStep(sys, pid, size);
    var c, r := sys.procs[pid].value.chunk, ZeroedAlloc(sys.ph, size).0;
    if ptr != 0 {
      MallocRam(sys, pid, size);
      if ptr <= x < ptr + size {
        InNewChain(sys, size, x);
        UnownedIsApart(WithPhys(sys, r), pid, Pfn(ptr) - FIRST_FRAME, Pfn(x));
        RemapKeeps(WithPhys(sys, r), pid, ptr, ptr, AlignUp(Wrap(ptr + size)), READ_WRITE,
          Pfn(ptr) - FIRST_FRAME, Pfn(x));
        SameFrameByte(r.ram, next.ph.ram, x);
        UntouchedCount(sys, next, pid);
        NewSlotBytes(next, pid, FindSlot(sys.procs[pid].value.allocs, 0, 0), x);
      } else if !IsTable(sys.ph.ram, c, Pfn(x)) {
        TableUnchanged(sys, r, pid, Pfn(x));
        IsolatedSeparate(WithPhys(sys, r), pid);
        MapToExact(r.ram, c, ptr, ptr, AlignUp(Wrap(ptr + size)), READ_WRITE);
        NotTableSame(r.ram, next.ph.ram, c, Pfn(x));
        SameFrameByte(r.ram, next.ph.ram, x);
      }
    }
  }

  lemma AllocatedBytesOf(sys: Sys, size: Word, x: Word)
    requires Isolated(sys) && Serveable(sys.ph.heap, size) && Blocks(size) >= 1
    ensures var (r, ptr) := ZeroedAlloc(sys.ph, size);
            ptr != 0 ==> GetByte(r.ram, x) == if ptr <= x < ptr + size then 0 else GetByte(sys.ph.ram, x)
  {
    hide WellFormed, Live, UsesLive, UsesApart, Mapped, Serveable, GetByte, ZeroedAlloc;
    AllocatedBytes(sys.ph, size, x);
  }

  /** A malloc that succeeds maps its allocation and does nothing else to memory. */
  lemma MallocRam(sys: Sys, pid: nat, size: Word)
    requires Active(sys, pid) && MallocStep(sys, pid, size).1 != 0
    ensures var (next, ptr) := MallocStep(sys, pid, size);
            var r := ZeroedAlloc(sys.ph, size);
            && FindSlot(sys.procs[pid].value.allocs, 0, 0) >= 0 && ptr == Wrap(r.1) && r.1 != 0
            && next.ph.ram == MapTo(r.0.ram, DirFrame(r.0.ram, sys.procs[pid].value.chunk), ptr, ptr,
                                    AlignUp(Wrap(ptr + size)), READ_WRITE).0
  {
    hide MapTo, ZeroedAlloc, MarkFree, AddressBlock, AlignUp, FindSlot;
  }

  lemma InNewChain(sys: Sys, size: Word, x: Word)
    requires Isolated(sys) && Serveable(sys.ph.heap, size) && Blocks(size) >= 1
    requires var (r, ptr) := ZeroedAlloc(sys.ph, size); ptr != 0 && ptr <= x < ptr + size
    ensures var (r, ptr) := ZeroedAlloc(sys.ph, size);
            0 < ptr < TWO32 && KernelHolds(WithPhys(sys, r), Pfn(ptr) - FIRST_FRAME, Pfn(x))
  {
    hide Isolated, Live, WellFormed, Serveable, ZeroedAlloc, Blocks, AllPartsSame, Unowned;
    AllocKeepsIsolation(sys, size);
    BlocksIsCeiling(size);
  }

  lemma NewSlotBytes(sys: Sys, pid: nat, slot: Slot, x: Word)
    requires Isolated(sys) && Active(sys, pid)
    requires var a := sys.procs[pid].value.allocs[slot]; a.ptr != 0 && a.ptr <= x < a.ptr + a.size
    ensures var c := sys.procs[pid].value.chunk;
            Translate(sys.ph.ram, DirFrame(sys.ph.ram, c), x) == x && CanWrite(sys.ph.ram, c, Pfn(x))
  {
    hide Isolated, Translate, CanWrite, PageEntry, PartFrame, Blocks;
    assert Valid(sys, AllocOf(pid, slot));
    AllocationBytes(sys, pid, slot, x);
  }

  lemma TableUnchanged(sys: Sys, r: Phys, pid: nat, f: FrameNo)
    requires AllPartsSame(sys, r) && Active(sys, pid)
    ensures IsTable(r.ram, sys.procs[pid].value.chunk, f) <==> IsTable(sys.ph.ram, sys.procs[pid].value.chunk, f)
  {
    hide SameParts;
    var c := sys.procs[pid].value.chunk;
    SamePartsView(sys.ph.ram, r.ram, c);
    forall i: Slot ensures TableFrame(r.ram, c, i) == TableFrame(sys.ph.ram, c, i) {
      assert TableFrame(r.ram, c, i) == PartFrame(r.ram, c, i) == PartFrame(sys.ph.ram, c, i);
    }
  }

  lemma NotTableSame(a: Ram, b: Ram, c: FrameNo, f: FrameNo)
    requires OnlyTables(a, b, c) && !IsTable(a, c, f)
    ensures a[f] == b[f]
  {
  }

  lemma SameFrameByte(a: Ram, b: Ram, x: Word)
    requires a[Pfn(x)] == b[Pfn(x)]
    ensures GetByte(a, x) == GetByte(b, x)
  {
  }

  lemma FreeKeepsApart(sys: Sys, pid: nat, ptr: Word, b: int, f: FrameNo)
    requires Isolated(sys) && Active(sys, pid) && Apart(sys, pid, b, f)
    ensures FreeStep(sys, pid, ptr).ph.ram[f] == sys.ph.ram[f]
  {
    hide Isolated, MapTo, Apart, MarkFree, AddressBlock, Unjoin, AlignUp;
    var p := sys.procs[pid].value;
    var slot := FindSlot(p.allocs, ptr, 0);
    if slot >= 0 {
      var a := p.allocs[slot];
      RemapKeeps(sys, pid, a.ptr, a.ptr, AlignUp(Wrap(a.ptr + a.size)), 0, b, f);
    }
  }

  /** What was apart before a free is so afterwards. */
  lemma ApartAfterFree(sys: Sys, pid: nat, slot: Slot, b: int, f: FrameNo)
    requires Isolated(sys) && Active(sys, pid) && sys.procs[pid].value.allocs[slot].ptr != 0
    requires Apart(sys, pid, b, f)
    ensures Apart(FreeStep(sys, pid, sys.procs[pid].value.allocs[slot].ptr), pid, b, f)
  {
    hide WellFormed, Live, Isolated, FreeStep, PageEntry, PartBlocks, OthersUntouched, OwnedBy;
    FreeKeepsIsolation(sys, pid, slot);
    SlotOwned(sys, pid, slot);
    UntouchedCount(sys, FreeStep(sys, pid, sys.procs[pid].value.allocs[slot].ptr), pid);
    OwnsNoMore(sys, FreeStep(sys, pid, sys.procs[pid].value.allocs[slot].ptr), pid, b);
  }

  lemma SlotOwned(sys: Sys, pid: nat, slot: Slot)
    requires Active(sys, pid) && sys.procs[pid].value.allocs[slot].ptr != 0
    ensures OwnedBy(sys, pid, Pfn(sys.procs[pid].value.allocs[slot].ptr) - FIRST_FRAME)
  {
    hide Blocks, PartFrame;
    assert Valid(sys, AllocOf(pid, slot));
  }

  lemma {:induction false} TerminateKeepsApart(sys: Sys, pid: nat, i: nat, b: int, f: FrameNo)
    requires Isolated(sys) && Active(sys, pid) && Apart(sys, pid, b, f)
    ensures Terminate(sys.ph, sys.procs[pid].value, i).0.ram[f] == sys.ph.ram[f]
    decreases MAX_ALLOCATIONS - i
  {
    hide WellFormed, Live, Isolated, ProcFree, Apart, PageEntry, PartBlocks, OthersUntouched;
    var p := sys.procs[pid].value;
    if i < MAX_ALLOCATIONS && p.allocs[i].ptr == 0 {
      TerminateKeepsApart(sys, pid, i + 1, b, f);
    } else if i < MAX_ALLOCATIONS {
      FreeKeepsIsolation(sys, pid, i);
      FreeKeepsApart(sys, pid, p.allocs[i].ptr, b, f);
      ApartAfterFree(sys, pid, i, b, f);
      TerminateKeepsApart(FreeStep(sys, pid, p.allocs[i].ptr), pid, i + 1, b, f);
    }
  }

  lemma ExitKeepsApart(sys: Sys, pid: nat, b: int, f: FrameNo)
    requires Isolated(sys) && Active(sys, pid) && Apart(sys, pid, b, f)
    ensures ExitStep(sys, pid).ph.ram[f] == sys.ph.ram[f]
  {
    hide Isolated, Terminate, Apart, FreeBlocks, FreeDirectory;
    TerminateKeepsApart(sys, pid, 0, b, f);
  }

  /** A new page directory and the mapping of an image into it. */
  lemma SpaceKeepsApart(ph: Phys, r: Phys, c: FrameNo, image: Word, hs: seq<Phdr>, stack: Word, b: int, f: FrameNo)
    requires NewSpace(ph, r, c, READ_ONLY) && (Outside(ph.heap, f) || Covers(ph.heap, b, f - FIRST_FRAME))
    ensures r.ram[f] == ph.ram[f]
    ensures MapMemory(r.ram, DirFrame(r.ram, c), image, hs, stack).0[f] == ph.ram[f]
  {
    hide WellFormed, Live, PageEntry, MapTo, MapSections, PartBlocks, Separate, LastEntry, HeaderOk;
    NotNewPart(ph, r, c, b, f);
    var (s, res) := MapSections(r.ram, DirFrame(r.ram, c), image, hs);
    MapSectionsExact(r.ram, c, image, hs);
    assert !IsTable(r.ram, c, f);
    var end := AlignUp(Wrap(stack + STACK_SIZE));
    MapToExact(s, c, STACK_BASE, stack, end, READ_WRITE);
    OnlyTablesChain(r.ram, s, MapTo(s, DirFrame(s, c), STACK_BASE, stack, end, READ_WRITE).0, c);
  }

  lemma NotNewPart(ph: Phys, r: Phys, c: FrameNo, b: int, f: FrameNo)
    requires NewSpace(ph, r, c, READ_ONLY) && (Outside(ph.heap, f) || Covers(ph.heap, b, f - FIRST_FRAME))
    ensures f - FIRST_FRAME !in PartBlocks(r.ram, c) && !IsTable(r.ram, c, f)
  {
    hide WellFormed, Live, PageEntry, PartBlocks, Separate;
    var parts := PartBlocks(r.ram, c);
    forall g | g in parts ensures g != f - FIRST_FRAME {
      assert g in Ones(parts) && g in Live(r.heap) && Live(r.heap)[g] == 1;
      LiveBounds(r.heap, g);
      if Covers(ph.heap, b, f - FIRST_FRAME) {
        assert b in Live(r.heap) && g != b;
        LiveBounds(r.heap, b);
        ChainsApart(r.heap, b, Live(r.heap)[b], g, 1);
      }
    }
    forall i: Slot ensures TableFrame(r.ram, c, i) != f {
      PartFrameIsPart(r.ram, c, i);
      PartBlocksLength(r.ram, c);
      assert PartFrame(r.ram, c, i) == TableFrame(r.ram, c, i) && parts[i] in parts;
    }
  }

  /** Reading a file to its place writes only there. */
  lemma ElfLoadKeepsApart(sys: Sys, pid: nat, file: File, b: int, f: FrameNo)
    requires Isolated(sys) && Serveable(sys.ph.heap, |file|) && Blocks(|file|) >= 1
    requires Fits(sys.ph.heap, Blocks(|file|)) || |file| <= HEAP_MAP_BASE
    requires Apart(sys, pid, b, f) && (Fits(sys.ph.heap, Blocks(|file|)) || f > Pfn(HEAP_MAP_BASE))
    ensures var r := ElfLoad(sys.ph, file).0;
            Isolated(WithPhys(sys, r)) && Apart(WithPhys(sys, r), pid, b, f) && r.ram[f] == sys.ph.ram[f]
  {
    hide WellFormed, Live, Serveable, ZeroedAlloc, ReadFile, Fits, Blocks, AllPartsSame, OwnedBy, Unowned, Isolated;
    AllocKeepsApart(sys, pid, |file|, b, f);
    AllocKeepsIsolation(sys, |file|);
    NullIffFull(sys, |file|);
    var (s, ptr) := ZeroedAlloc(sys.ph, |file|);
    var mid := WithPhys(sys, s);
    ReadKeepsIsolation(mid, Wrap(ptr), file);
    OwnersSame(mid, ReadFile(s, Wrap(ptr), file), pid, b);
    NotReached(sys, mid, Wrap(ptr), file, b, f);
    ReadFrames(mid, Wrap(ptr), file, f);
  }

  lemma NotReached(sys: Sys, mid: Sys, base: Word, file: File, b: int, f: FrameNo)
    requires Placed(mid, base, file) && (base == 0 ==> f > Pfn(HEAP_MAP_BASE))
    requires |mid.ph.heap| == |sys.ph.heap| && (Outside(sys.ph.heap, f) || Covers(sys.ph.heap, b, f - FIRST_FRAME))
    requires base != 0 ==> Pfn(base) - FIRST_FRAME !in Live(sys.ph.heap)
                           && Live(mid.ph.heap) == Live(sys.ph.heap)[Pfn(base) - FIRST_FRAME := Blocks(|file|)]
    ensures !Reaches(base, file, f)
  {
    hide Live, Blocks, Unowned;
    if base != 0 {
      var n := Pfn(base) - FIRST_FRAME;
      LiveBounds(mid.ph.heap, n);
      if !Outside(sys.ph.heap, f) {
        LiveBounds(mid.ph.heap, b);
        ChainsApart(mid.ph.heap, b, Live(mid.ph.heap)[b], n, Blocks(|file|));
      }
    }
  }

  /** Loading a process writes no frame that is neither free nor new, except that an image
      without a place is read over the first 32 KB. */
  lemma LoadKeepsApart(sys: Sys, pid: nat, file: File, hs: seq<Phdr>, b: int, f: FrameNo)
    requires Isolated(sys) && LoadRoom(sys, pid, file) && Apart(sys, pid, b, f)
    requires Fits(sys.ph.heap, Blocks(|file|)) || f > Pfn(HEAP_MAP_BASE)
    ensures LoadStep(sys, pid, file, hs).ph.ram[f] == sys.ph.ram[f]
  {
    hide Isolated, Live, ZeroedAlloc, ElfLoad, NewDirectory, Serveable, NewSpace, MapMemory, FreeDirectory, Blocks,
      FreeSet, PartBlocks, AllPartsSame, Unowned, OwnedBy, Fits;
    ElfLoadKeepsApart(sys, pid, file, b, f);
    var image := ElfLoad(sys.ph, file);
    var s1 := WithPhys(sys, image.0);
    assert Blocks(STACK_SIZE) >= 1 by { BlocksIsCeiling(STACK_SIZE); }
    AllocKeepsApart(s1, pid, STACK_SIZE, b, f);
    var stack := ZeroedAlloc(image.0, STACK_SIZE);
    if stack.1 != 0 {
      DirectoryKeepsIsolation(WithPhys(s1, stack.0), READ_ONLY);
      var d := NewDirectory(stack.0, READ_ONLY);
      SpaceKeepsApart(stack.0, d.0, d.1, image.1, hs, Wrap(stack.1), b, f);
    }
  }
}
