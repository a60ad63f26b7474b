/** Every run of kernel and process steps, and where isolation ends. */
module Runs {
  import opened Machine
  import opened Bytes
  import opened Heap
  import opened Paging
  import opened Directory
  import opened ElfMap
  import opened Isolation
  import opened Steps
  import opened Process
  import opened System
  import opened Contents

  datatype Action =
    | KernelAlloc(size: Word)                         // kernel_zeroed_alloc for the kernel's own use
    | KernelFree(block: nat)                          // kernel_free_alloc of such a block
    | LoadProcess(pid: nat, file: File, hs: seq<Phdr>)
    | ProcessMalloc(pid: nat, size: Word)
    | ProcessFree(pid: nat, ptr: Word)
    | ExitProcess(pid: nat)
    | UserStore(pid: nat, v: Word, w: Word)           // user code writes a word of its memory

  ghost predicate Legal(sys: Sys, a: Action) {
    match a
    case KernelAlloc(size) => Blocks(size) >= 1 && Serveable(sys.ph.heap, size)
    case KernelFree(block) => block in Live(sys.ph.heap) && Unowned(sys, block)
    case LoadProcess(pid, file, hs) => LoadLegal(sys, pid, file, hs)
    case ProcessMalloc(pid, size) => Active(sys, pid) && Blocks(size) >= 1 && Serveable(sys.ph.heap, size)
    case ProcessFree(pid, ptr) => Active(sys, pid) && ptr != 0
    case ExitProcess(pid) => Active(sys, pid)
    case UserStore(pid, v, w) => MayStore(sys, pid, v)
  }

  ghost function Step(sys: Sys, a: Action): Sys
    requires Legal(sys, a)
  {
    match a
    case KernelAlloc(size) => WithPhys(sys, ZeroedAlloc(sys.ph, size).0)
    case KernelFree(block) => WithPhys(sys, Phys(MarkFree(sys.ph.heap, block), sys.ph.ram))
    case LoadProcess(pid, file, hs) => LoadStep(sys, pid, file, hs)
    case ProcessMalloc(pid, size) => MallocStep(sys, pid, size).0
    case ProcessFree(pid, ptr) => FreeStep(sys, pid, ptr)
    case ExitProcess(pid) => ExitStep(sys, pid)
    case UserStore(pid, v, w) => StoreStep(sys, pid, v, w)
  }

  /** The process an action is for. */
  ghost predicate ActsFor(a: Action, pid: nat) {
    match a
    case KernelAlloc(_) => false
    case KernelFree(_) => false
    case LoadProcess(p, _, _) => p == pid
    case ProcessMalloc(p, _) => p == pid
    case ProcessFree(p, _) => p == pid
    case ExitProcess(p) => p == pid
    case UserStore(p, _, _) => p == pid
  }

  ghost predicate LegalRun(sys: Sys, run: seq<Action>)
    decreases |run|
  {
    run != [] ==> Legal(sys, run[0]) && LegalRun(Step(sys, run[0]), run[1..])
  }

  ghost function After(sys: Sys, run: seq<Action>): Sys
    requires LegalRun(sys, run)
    decreases |run|
  {
    if run == [] then sys else After(Step(sys, run[0]), run[1..])
  }

  /** The heap as kernel_heap_init leaves it, and no process. */
  lemma BootIsolated(sys: Sys)
    requires |sys.ph.heap| <= HEAP_BLOCKS && forall j | 0 <= j < |sys.ph.heap| :: sys.ph.heap[j] == FREE
    requires forall p | p in sys.procs :: p.None?
    ensures Isolated(sys)
  {
    assert forall pid: nat | pid < |sys.procs| :: sys.procs[pid] in sys.procs;
    assert forall pid: nat :: !Active(sys, pid);
  }

  lemma StepIsolated(sys: Sys, a: Action)
    requires Isolated(sys) && Legal(sys, a)
    ensures Isolated(Step(sys, a))
    ensures forall q: nat :: !ActsFor(a, q) ==> Untouched(sys, Step(sys, a), q)
  {
    hide WellFormed, Live, PageEntry, Mapped, Blocks, Isolated, ZeroedAlloc, Serveable, PartFrame, SameParts,
      LoadStep, LoadRoom, LoadSafe, MallocStep, FreeStep, ExitStep, MarkFree;
    match a
    case KernelAlloc(size) =>
      AllocKeepsIsolation(sys, size);
    case KernelFree(block) =>
      ReleaseKeepsIsolation(sys, block);
    case LoadProcess(pid, file, hs) =>
      LoadIsolationIff(sys, pid, file, hs);
    case ProcessMalloc(pid, size) =>
      MallocKeepsIsolation(sys, pid, size);
    case ProcessFree(pid, ptr) =>
      if slot: Slot :| sys.procs[pid].value.allocs[slot].ptr == ptr {
        FreeKeepsIsolation(sys, pid, slot);
      } else {
        FreeIgnoresForeign(sys, pid, ptr);
        AgreeUntouched(sys, sys.ph, pid);
      }
    case ExitProcess(pid) =>
      ExitConserves(sys, pid);
    case UserStore(pid, v, w) =>
      StoreKeepsIsolation(sys, pid, v, w);
  }

  /** A step for pid, or for the kernel, writes no frame that is neither free nor pid's. */
  lemma StepKeepsApart(sys: Sys, a: Action, pid: nat, b: int, f: FrameNo)
    requires Isolated(sys) && Legal(sys, a) && Apart(sys, pid, b, f) && f > Pfn(HEAP_MAP_BASE)
    requires forall q: nat :: ActsFor(a, q) ==> q == pid
    ensures Step(sys, a).ph.ram[f] == sys.ph.ram[f]
  {
    hide WellFormed, Live, PageEntry, Mapped, Blocks, Isolated, ZeroedAlloc, Serveable, PartFrame, SameParts, Apart,
      LoadStep, LoadRoom, LoadSafe, MallocStep, FreeStep, ExitStep, StoreStep, MarkFree, MayStore;
    match a
    case KernelAlloc(size) => AllocKeepsApart(sys, pid, size, b, f);
    case KernelFree(block) =>
    case LoadProcess(p, file, hs) =>
      assert ActsFor(a, p);
      LoadKeepsApart(sys, pid, file, hs, b, f);
    case ProcessMalloc(p, size) =>
      assert ActsFor(a, p);
      MallocKeepsApart(sys, pid, size, b, f);
    case ProcessFree(p, ptr) =>
      assert ActsFor(a, p);
      FreeKeepsApart(sys, pid, ptr, b, f);
    case ExitProcess(p) =>
      assert ActsFor(a, p);
      ExitKeepsApart(sys, pid, b, f);
    case UserStore(p, v, w) =>
      assert ActsFor(a, p);
      StoreKeepsIsolation(sys, pid, v, w);
  }

  /** The process an action is for; any one for the kernel's own actions. */
  function Actor(a: Action): (pid: nat)
    ensures forall q: nat :: ActsFor(a, q) ==> q == pid
  {
    if a.KernelAlloc? || a.KernelFree? then 0 else a.pid
  }

  /** No step for another process, or for the kernel, writes a frame that u holds. */
  lemma StepKeepsHeld(sys: Sys, a: Action, u: Use, f: FrameNo)
    requires Isolated(sys) && Legal(sys, a) && !ActsFor(a, u.pid) && InUse(sys, u, f)
    ensures Step(sys, a).ph.ram[f] == sys.ph.ram[f] && InUse(Step(sys, a), u, f)
  {
    hide Isolated, Legal, Step, Valid, BlockOf, LenOf, Apart, Untouched;
    var pid := if a.KernelAlloc? || a.KernelFree? then u.pid + 1 else Actor(a);
    HeldIsApart(sys, pid, u, f);
    HeldInHeap(sys, u, f);
    StepKeepsApart(sys, a, pid, BlockOf(sys, u), f);
    StepIsolated(sys, a);
    UseUntouched(sys, Step(sys, a), u, f);
  }

  lemma UseUntouched(a: Sys, b: Sys, u: Use, f: FrameNo)
    requires InUse(a, u, f) && Untouched(a, b, u.pid)
    ensures InUse(b, u, f)
  {
    hide PartFrame, SameParts;
    SamePartsView(a.ph.ram, b.ph.ram, a.procs[u.pid].value.chunk);
  }

  /** Process q, if there is one, has the same record and the same page tables. */
  ghost predicate Untouched(a: Sys, b: Sys, q: nat) {
    Active(a, q) ==> Active(b, q) && b.procs[q] == a.procs[q] && SameParts(a.ph.ram, b.ph.ram, a.procs[q].value.chunk)
  }

  /** Isolation holds in every state of every run. */
  lemma {:induction false} RunIsolated(sys: Sys, run: seq<Action>)
    requires Isolated(sys) && LegalRun(sys, run)
    ensures Isolated(After(sys, run))
    decreases |run|
  {
    hide Isolated, Step, Legal;
    if run != [] {
      StepIsolated(sys, run[0]);
      RunIsolated(Step(sys, run[0]), run[1..]);
    }
  }

  /** However long the others run, a process keeps its record, and every address
      translates for it as before. */
  lemma {:induction false} RunLeavesAlone(sys: Sys, run: seq<Action>, q: nat, v: Word)
    requires Isolated(sys) && LegalRun(sys, run) && Active(sys, q)
    requires forall a | a in run :: !ActsFor(a, q)
    ensures var next, c := After(sys, run), sys.procs[q].value.chunk;
            && Active(next, q) && next.procs[q] == sys.procs[q]
            && Translate(next.ph.ram, DirFrame(next.ph.ram, c), v) == Translate(sys.ph.ram, DirFrame(sys.ph.ram, c), v)
    decreases |run|
  {
    hide Isolated, Step, Legal, PageEntry, Translate, PartFrame, SameParts;
    if run != [] {
      StepIsolated(sys, run[0]);
      assert !ActsFor(run[0], q);
      assert Untouched(sys, Step(sys, run[0]), q);
      var next, c := Step(sys, run[0]), sys.procs[q].value.chunk;
      SamePartsView(sys.ph.ram, next.ph.ram, c);
      GetIsPageEntry(sys.ph.ram, c, v);
      GetIsPageEntry(next.ph.ram, c, v);
      RunLeavesAlone(next, run[1..], q, v);
    }
  }

  /** However long the others run and write, every frame that a process holds (its
      allocations, image, stack and page tables) keeps its contents. */
  lemma {:induction false} RunKeepsContents(sys: Sys, run: seq<Action>, u: Use, f: FrameNo)
    requires Isolated(sys) && LegalRun(sys, run) && InUse(sys, u, f)
    requires forall a | a in run :: !ActsFor(a, u.pid)
    ensures After(sys, run).ph.ram[f] == sys.ph.ram[f] && InUse(After(sys, run), u, f)
    decreases |run|
  {
    hide Isolated, Step, Legal, InUse;
    if run != [] {
      assert !ActsFor(run[0], u.pid);
      StepIsolated(sys, run[0]);
      StepKeepsHeld(sys, run[0], u, f);
      RunKeepsContents(Step(sys, run[0]), run[1..], u, f);
    }
  }

  // ------------------------------------------------ what the kernel holds

  /** A chain that nobody holds after a step for pid: the others hold what they held. */
  lemma UnownedAfter(sys: Sys, next: Sys, pid: nat, b: int)
    requires OthersUntouched(sys, next, pid) && Unowned(sys, b) && !OwnedBy(next, pid, b)
    ensures Unowned(next, b)
  {
    hide PartFrame, SameParts;
    forall u: Use | Valid(next, u) && u.pid != pid ensures BlockOf(next, u) != b {
      SamePartsView(sys.ph.ram, next.ph.ram, sys.procs[u.pid].value.chunk);
      assert Valid(sys, u) && BlockOf(next, u) == BlockOf(sys, u);
    }
  }

  /** b is a chain nobody holds in next too, as long as before. */
  ghost predicate ChainStays(sys: Sys, next: Sys, b: int) {
    && |next.ph.heap| == |sys.ph.heap|
    && (b in Live(sys.ph.heap) && Unowned(sys, b) ==>
          b in Live(next.ph.heap) && Live(next.ph.heap)[b] == Live(sys.ph.heap)[b] && Unowned(next, b))
  }

  lemma AllocKeepsChain(sys: Sys, size: Word, b: int)
    requires Isolated(sys) && Serveable(sys.ph.heap, size) && Blocks(size) >= 1
    ensures ChainStays(sys, WithPhys(sys, ZeroedAlloc(sys.ph, size).0), b)
  {
    hide WellFormed, Live, Isolated, ZeroedAlloc, Serveable, Blocks, AllPartsSame, Unowned;
    AllocKeepsIsolation(sys, size);
    if Unowned(sys, b) {
      UnownedStays(sys, ZeroedAlloc(sys.ph, size).0, b);
    }
  }

  lemma MallocKeepsChain(sys: Sys, pid: nat, size: Word, b: int)
    requires Isolated(sys) && Active(sys, pid) && Serveable(sys.ph.heap, size) && Blocks(size) >= 1
    ensures ChainStays(sys, MallocStep(sys, pid, size).0, b)
  {
    hide WellFormed, Live, Isolated, MallocStep, Serveable, Blocks, PartBlocks, OthersUntouched, FindSlot, Fits;
    MallocKeepsIsolation(sys, pid, size);
    var next := MallocStep(sys, pid, size).0;
    if b in Live(sys.ph.heap) && Unowned(sys, b) {
      UntouchedCount(sys, next, pid);
      OwnsNoMore(sys, next, pid, b);
      UnownedAfter(sys, next, pid, b);
    }
  }

  lemma FreeKeepsChain(sys: Sys, pid: nat, ptr: Word, b: int)
    requires Isolated(sys) && Active(sys, pid) && ptr != 0
    ensures ChainStays(sys, FreeStep(sys, pid, ptr), b)
  {
    hide WellFormed, Live, Isolated, FreeStep, PageEntry, PartBlocks, OthersUntouched;
    if slot: Slot :| sys.procs[pid].value.allocs[slot].ptr == ptr {
      FreeKeepsIsolation(sys, pid, slot);
      var next := FreeStep(sys, pid, ptr);
      SlotOwned(sys, pid, slot);
      if Unowned(sys, b) {
        UntouchedCount(sys, next, pid);
        OwnsNoMore(sys, next, pid, b);
        UnownedAfter(sys, next, pid, b);
      }
    } else {
      FreeIgnoresForeign(sys, pid, ptr);
    }
  }

  lemma ExitKeepsChain(sys: Sys, pid: nat, b: int)
    requires Isolated(sys) && Active(sys, pid)
    ensures ChainStays(sys, ExitStep(sys, pid), b)
  {
    hide WellFormed, Live, Isolated, ExitStep, OthersUntouched;
    ExitConserves(sys, pid);
    if Unowned(sys, b) {
      UnownedAfter(sys, ExitStep(sys, pid), pid, b);
    }
  }

  lemma MapLoadedKeepsChain(m: Map, sys: Sys, pid: nat, c: FrameNo, image: Word, size: Word, hs: seq<Phdr>,
      stack: Word, b: int)
    requires Fresh(sys, c, image, size, stack) && LoadedHeap(m, sys.ph, c, image, size, stack)
    requires pid < |sys.procs| && sys.procs[pid].None? && stack != 0
    ensures var next := MapLoaded(sys, pid, c, image, size, hs, stack);
            && |next.ph.heap| == |m|
            && (b in Live(m) && Unowned(sys, b) ==>
                  b in Live(next.ph.heap) && Live(next.ph.heap)[b] == Live(m)[b] && Unowned(next, b))
  {
    hide WellFormed, Live, PageEntry, Mapped, Blocks, Isolated, PartFrame, PartBlocks, MapMemory, Fresh, SameParts,
      Unowned, OwnedBy, OthersUntouched, ChainsAt, MapLoaded;
    var next := MapLoaded(sys, pid, c, image, size, hs, stack);
    MapLoadedIff(sys, pid, c, image, size, hs, stack);
    UntouchedCount(sys, next, pid);
    if next.procs[pid].Some? {
      MapLoadedProc(sys, pid, c, image, size, hs, stack);
      LoadedOwns(next, pid, c, image, size, stack, b);
      if b in Live(m) && Unowned(sys, b) {
        UnownedAfter(sys, next, pid, b);
      }
    } else {
      FailedMapping(sys, pid, c, image, size, hs, stack);
      MapLoadedFails(sys, pid, c, image, size, hs, stack);
      if Unowned(sys, b) {
        UnownedStays(sys, next.ph, b);
      }
    }
  }

  lemma ElfLoadKeepsChain(sys: Sys, file: File, b: int)
    requires Isolated(sys) && Serveable(sys.ph.heap, |file|) && Blocks(|file|) >= 1
    requires Fits(sys.ph.heap, Blocks(|file|)) || |file| <= HEAP_MAP_BASE
    ensures ChainStays(sys, WithPhys(sys, ElfLoad(sys.ph, file).0), b)
  {
    hide WellFormed, Live, Isolated, ElfLoad, Serveable, Fits, Blocks, AllPartsSame, Unowned;
    ElfLoadKeepsIsolation(sys, file);
    if Unowned(sys, b) {
      UnownedStays(sys, ElfLoad(sys.ph, file).0, b);
    }
  }

  lemma LoadKeepsChain(sys: Sys, pid: nat, file: File, hs: seq<Phdr>, b: int)
    requires Isolated(sys) && LoadRoom(sys, pid, file)
    ensures ChainStays(sys, LoadStep(sys, pid, file, hs), b)
  {
    hide WellFormed, Live, PageEntry, Mapped, Blocks, Isolated, ZeroedAlloc, ElfLoad, NewDirectory, Serveable,
      PartFrame, PartBlocks, HasRoom, MapLoaded, MapMemory, Fresh, SameParts, Unowned, OwnedBy,
      OthersUntouched, ChainsAt;
    LoadPrepares(sys, pid, file);
    LoadIsolationIff(sys, pid, file, hs);
    ElfLoadKeepsChain(sys, file, b);
    var image := ElfLoad(sys.ph, file);
    var stack := ZeroedAlloc(image.0, STACK_SIZE);
    if stack.1 != 0 {
      var d := NewDirectory(stack.0, READ_ONLY);
      var s3 := WithPhys(sys, d.0);
      if Unowned(sys, b) {
        UnownedStays(sys, d.0, b);
      }
      MapLoadedKeepsChain(sys.ph.heap, s3, pid, d.1, image.1, |file|, hs, stack.1, b);
    }
  }

  lemma StepKeepsChain(sys: Sys, a: Action, b: int)
    requires Isolated(sys) && Legal(sys, a) && !(a.KernelFree? && a.block == b)
    ensures ChainStays(sys, Step(sys, a), b)
  {
    hide WellFormed, Live, Blocks, Isolated, ZeroedAlloc, Serveable, LoadStep, LoadRoom, LoadSafe, MallocStep,
      FreeStep, ExitStep, StoreStep, MarkFree, MayStore, Unowned, AllPartsSame, Apart;
    match a
    case KernelAlloc(size) => AllocKeepsChain(sys, size, b);
    case KernelFree(block) =>
      ReleaseKeepsIsolation(sys, block);
      if Unowned(sys, b) {
        UnownedStays(sys, Phys(MarkFree(sys.ph.heap, block), sys.ph.ram), b);
      }
    case LoadProcess(pid, file, hs) => LoadKeepsChain(sys, pid, file, hs, b);
    case ProcessMalloc(pid, size) => MallocKeepsChain(sys, pid, size, b);
    case ProcessFree(pid, ptr) => FreeKeepsChain(sys, pid, ptr, b);
    case ExitProcess(pid) => ExitKeepsChain(sys, pid, b);
    case UserStore(pid, v, w) => StoreKeepsChain(sys, pid, v, w, b);
  }

  lemma StoreKeepsChain(sys: Sys, pid: nat, v: Word, w: Word, b: int)
    requires Isolated(sys) && MayStore(sys, pid, v)
    ensures ChainStays(sys, StoreStep(sys, pid, v, w), b)
  {
    hide Isolated, Live, Unowned, AllPartsSame, MayStore, Store, Apart;
    StoreKeepsIsolation(sys, pid, v, w);
    if Unowned(sys, b) {
      UnownedStays(sys, StoreStep(sys, pid, v, w).ph, b);
    }
  }

  /** However processes come, allocate, store and go: what the kernel holds and does not free
      itself stays its own, byte for byte. */
  lemma {:induction false} RunKeepsKernel(sys: Sys, run: seq<Action>, b: int, f: FrameNo)
    requires Isolated(sys) && LegalRun(sys, run) && KernelHolds(sys, b, f) && f > Pfn(HEAP_MAP_BASE)
    requires forall a | a in run :: !(a.KernelFree? && a.block == b)
    ensures After(sys, run).ph.ram[f] == sys.ph.ram[f] && KernelHolds(After(sys, run), b, f)
    decreases |run|
  {
    hide Isolated, Step, Legal, Live, Apart;
    if run != [] {
      var next := Step(sys, run[0]);
      StepIsolated(sys, run[0]);
      UnownedIsApart(sys, Actor(run[0]), b, f);
      StepKeepsApart(sys, run[0], Actor(run[0]), b, f);
      StepKeepsChain(sys, run[0], b);
      RunKeepsKernel(next, run[1..], b, f);
    }
  }

  // ------------------------------------------------- where isolation ends

  /** A request for no block (size 0, or above 0xFFFFF000) reserves nothing, yet a pointer
      to a free block is returned, or null if the last block is taken; the size bytes from
      there on are cleared all the same. */
  lemma ZeroSizeAlloc(ph: Phys, size: Word)
    requires KernelMap(ph.heap) && Blocks(size) == 0
    ensures var (r, ptr) := ZeroedAlloc(ph, size);
            && r.heap == ph.heap && (ptr == 0 <==> LastTaken(ph.heap)) && (ptr == 0 || size == 0 ==> r == ph)
            && (ptr != 0 ==>
                  var b := TailStart(ph.heap, |ph.heap|);
                  && ptr == BlockAddress(b) && b < |ph.heap| && IsFree(ph.heap[b]) && 0 < ptr < TWO32
                  && r.ram == Zeroed(ph.ram, BlockFrame(b), size))
  {
    hide WellFormed;
    var m := ph.heap;
    assert !Fits(m, 0);
    FirstFit(m, 0);
    if !LastTaken(m) {
      var b := TailStart(m, |m|);
      assert MarkTaken(m, b, 0) == m;
      assert BlockAddress(b) / PAGE_SIZE == BlockFrame(b);
      if size == 0 {
        assert Zeroed(ph.ram, BlockFrame(b), 0) == ph.ram;
      }
    }
  }

  lemma FreeBlockNotLive(m: Map, b: nat)
    requires WellFormed(m) && b < |m| && IsFree(m[b])
    ensures b !in Live(m) && MarkFree(m, b) == m
  {
    FreeIsZero(m, b);
    if b in Live(m) {
      LiveBounds(m, b);
    }
    assert m[b] == FREE && Extent(m, b) == 1;
    var r := MarkFree(m, b);
    assert forall j | 0 <= j < |m| :: r[j] == m[j];
  }

  /** The page range of such a request is empty: its end rounds up to its start. */
  lemma ZeroSizeMap(ram: Ram, directory: FrameNo, ptr: Word, size: Word)
    requires ptr % PAGE_SIZE == 0 && ptr >= PAGE_SIZE && Blocks(size) == 0
    ensures MapTo(ram, directory, ptr, ptr, AlignUp(Wrap(ptr + size)), READ_WRITE) == (ram, 0)
  {
    ZeroSizeEnd(ptr, size);
  }

  lemma ZeroSizeEnd(ptr: Word, size: Word)
    requires ptr % PAGE_SIZE == 0 && ptr >= PAGE_SIZE && Blocks(size) == 0
    ensures AlignUp(Wrap(ptr + size)) == ptr
  {
    BlocksIsCeiling(size);
    assert size > 0 ==> Wrap(ptr + size) == ptr + size - TWO32;
  }

  /** Clearing more than 0xFFFFF000 bytes from a heap block on clears every other frame but
      the one below, and with them the page directory of every process. */
  lemma HugeClearBreaks(sys: Sys, next: Sys, pid: nat, f: FrameNo, size: Word)
    requires Active(sys, pid) && Active(next, pid) && f >= FIRST_FRAME && size > 0xFFFF_F000
    requires next.ph.ram == Zeroed(sys.ph.ram, f, size)
    requires next.procs[pid].value.chunk == sys.procs[pid].value.chunk
    ensures !Isolated(next)
  {
    hide KernelMap, Mapped;
    var r, c := next.ph.ram, next.procs[pid].value.chunk;
    forall g: FrameNo, i: Slot | g != f - 1 ensures r[g][i] == 0 {
      assert BytesInto(f, g, size) >= PAGE_SIZE;
    }
    var d := DirFrame(r, c);
    var i, j := if c == f - 1 == d then PAGES_PER_TABLE else 0, if c == f - 1 == d then PAGES_PER_TABLE + 1 else 1;
    assert Pfn(0) == 0 && forall i: Slot :: r[0][i] == 0;
    assert PartFrame(r, c, i) == PartFrame(r, c, j);
    assert Valid(next, PartOf(pid, i)) && Valid(next, PartOf(pid, j));
    assert BlockOf(next, PartOf(pid, i)) == BlockOf(next, PartOf(pid, j));
  }

  /** process_malloc keeps isolation exactly when it is asked for at least one block, or the
      last heap block is taken (so that null is returned), or it is asked for nothing with
      a full table. Otherwise the process holds a block that is free, or, above 0xFFFFF000,
      all page directories have been cleared. */
  lemma MallocIsolationIff(sys: Sys, pid: nat, size: Word)
    requires Isolated(sys) && Active(sys, pid) && Serveable(sys.ph.heap, size)
    ensures Isolated(MallocStep(sys, pid, size).0)
            <==> || 1 <= size <= 0xFFFF_F000
                 || LastTaken(sys.ph.heap)
                 || (size == 0 && FindSlot(sys.procs[pid].value.allocs, 0, 0) < 0)
  {
    hide WellFormed, Live, PageEntry, Mapped, Blocks, MapTo, AlignUp, ZeroedAlloc, MarkFree, AddressBlock, TailStart,
      Serveable, Zeroed;
    BlocksIsCeiling(size);
    if 1 <= size <= 0xFFFF_F000 {
      MallocKeepsIsolation(sys, pid, size);
    } else {
      ZeroSizeAlloc(sys.ph, size);
      var p := sys.procs[pid].value;
      var (r, ptr) := ZeroedAlloc(sys.ph, size);
      var slot := FindSlot(p.allocs, 0, 0);
      assert sys.procs[pid := Some(p)] == sys.procs;
      if ptr != 0 {
        var b := TailStart(sys.ph.heap, |sys.ph.heap|);
        FreeBlockNotLive(sys.ph.heap, b);
        AddressBlockInverse(b, 0);
        ZeroSizeMap(r.ram, DirFrame(r.ram, p.chunk), ptr, size);
        var next := MallocStep(sys, pid, size).0;
        if size > 0 {
          HugeClearBreaks(sys, next, pid, BlockFrame(b), size);
        } else if slot >= 0 {
          assert Valid(next, AllocOf(pid, slot)) && BlockOf(next, AllocOf(pid, slot)) == b;
        }
      }
    }
  }

  /** Where a page of a loaded process leads: a page outside the stack whose last header is
      writeable is writeable, and its frame is the one that header names; if that frame is
      in neither the image nor the stack, the process writes memory it was not given. */
  lemma OverrunIsWriteable(ram: Ram, c: FrameNo, image: Word, size: Word, hs: seq<Phdr>, stack: Word, q: FrameNo)
    requires Separate(ram, c) && OpenDirectory(ram, c)
    requires forall v: FrameNo :: PageEntry(ram, c, v) == IdentityEntry(v, READ_ONLY)
    requires stack % PAGE_SIZE == 0
    requires FIRST_FRAME <= Pfn(stack) && Pfn(stack) + Blocks(STACK_SIZE) <= FIRST_FRAME + HEAP_BLOCKS
    requires !InStack(q) && LastHeader(image, hs, q).Some? && forall h | h in hs :: HeaderOk(image, h)
    ensures var (r, res) := MapMemory(ram, DirFrame(ram, c), image, hs, stack);
            var h := LastHeader(image, hs, q).value;
            && res == 0 && CanRead(r, c, q) && (CanWrite(r, c, q) <==> h.writeable)
            && Pfn(PageEntry(r, c, q)) == HeaderTarget(image, h, q)
            && (h.writeable && !InRegions(HomeRegions(image, size, stack), HeaderTarget(image, h, q)) ==>
                  !Mapped(r, Loaded(c, image, size, stack)))
  {
    hide PageEntry, Separate, OnlyTables, MapTo, MapSections, InHeader, HeaderTarget, HeaderOk, LastHeader, LastEntry,
      Mapped, Blocks, Loaded;
    MapSectionsExact(ram, c, image, hs);
    assert stack + STACK_SIZE <= 0xFFFF_F000;
    StackExact(MapSections(ram, DirFrame(ram, c), image, hs).0, c, stack);
    LoadedMappedIff(ram, c, image, size, hs, stack);
    LoadedPage(ram, MapMemory(ram, DirFrame(ram, c), image, hs, stack).0, c, image, size, hs, stack, q);
    LoadedAccess(ram, c, image, size, hs, stack, q);
  }
}
