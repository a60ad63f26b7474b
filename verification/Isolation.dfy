/** The memory of all processes together: who owns which heap chain, what each page table
    lets its process write, and the steps that keep the owners apart
    (src/process/Process.c over src/malloc/Heap.c and src/paging/Paging.c). */
module Isolation {
  import opened Machine
  import opened Bytes
  import opened Heap
  import opened Paging
  import opened Directory
  import opened ElfMap

  const MAX_ALLOCATIONS := 1024 // MAX_PROGRAM_ALLOCATIONS

  /** struct ProcessAllocation; a slot with ptr 0 is empty. */
  datatype Allocation = Allocation(ptr: Word, size: Word)

  const EMPTY_SLOT := Allocation(0, 0)
  const EMPTY_TABLE: seq<Allocation> := seq(MAX_ALLOCATIONS, _ => EMPTY_SLOT)
  type Table = s: seq<Allocation> | |s| == MAX_ALLOCATIONS witness EMPTY_TABLE

  /** The table of a new process. */
  function EmptyTable(): (t: Table)
    ensures forall i: Slot :: t[i] == EMPTY_SLOT
  {
    seq(MAX_ALLOCATIONS, _ => EMPTY_SLOT)
  }

  /** The first slot from i on whose pointer is ptr, or -1: process_find_free_allocation_index
      (with ptr 0) and process_get_allocation_by_addr. */
  function FindSlot(t: Table, ptr: Word, i: nat): (r: int)
    ensures r == -1 || (i <= r < MAX_ALLOCATIONS && t[r].ptr == ptr)
    ensures forall j: Slot :: i <= j && t[j].ptr == ptr ==> 0 <= r <= j
    decreases MAX_ALLOCATIONS - i
  {
    if i >= MAX_ALLOCATIONS then -1 else if t[i].ptr == ptr then i else FindSlot(t, ptr, i + 1)
  }

  /** process_allocation_unjoin empties every slot that holds ptr. */
  function Unjoin(t: Table, ptr: Word): Table {
    seq(MAX_ALLOCATIONS, i requires 0 <= i < MAX_ALLOCATIONS => if t[i].ptr == ptr then EMPTY_SLOT else t[i])
  }

  /** A heap chain a process owns from load to exit: its image, its stack. */
  datatype Region = Region(block: int, blocks: int)

  datatype Proc = Proc(chunk: FrameNo, allocs: Table, regions: seq<Region>)

  /** Physical memory and PROCESS_BUFFER_. */
  datatype Sys = Sys(ph: Phys, procs: seq<Option<Proc>>)

  // ------------------------------------------------------------ ownership

  /** One reason to hold a heap chain. */
  datatype Use =
    | PartOf(pid: nat, part: nat)
    | AllocOf(pid: nat, slot: nat)
    | RegionOf(pid: nat, region: nat)

  ghost predicate Active(sys: Sys, pid: nat) {
    pid < |sys.procs| && sys.procs[pid].Some?
  }

  ghost predicate Valid(sys: Sys, u: Use) {
    Active(sys, u.pid) &&
    var p := sys.procs[u.pid].value;
    match u
    case PartOf(_, part) => part < PAGES_PER_TABLE + 2
    case AllocOf(_, slot) => slot < MAX_ALLOCATIONS && p.allocs[slot].ptr != 0
    case RegionOf(_, region) => region < |p.regions|
  }

  ghost function BlockOf(sys: Sys, u: Use): int
    requires Valid(sys, u)
  {
    var p := sys.procs[u.pid].value;
    match u
    case PartOf(_, part) => PartFrame(sys.ph.ram, p.chunk, part) - FIRST_FRAME
    case AllocOf(_, slot) => Pfn(p.allocs[slot].ptr) - FIRST_FRAME
    case RegionOf(_, region) => p.regions[region].block
  }

  ghost function LenOf(sys: Sys, u: Use): int
    requires Valid(sys, u)
  {
    var p := sys.procs[u.pid].value;
    match u
    case PartOf(_, part) => 1
    case AllocOf(_, slot) => Blocks(p.allocs[slot].size)
    case RegionOf(_, region) => p.regions[region].blocks
  }

  // ------------------------------------------------- what a process may touch

  predicate Writeable(entry: Word) {
    entry / IS_WRITEABLE % 2 == 1
  }

  lemma CanWriteIsWriteable(ram: Ram, c: FrameNo, p: FrameNo)
    requires CanWrite(ram, c, p)
    ensures Writeable(PageEntry(ram, c, p))
  {
    hide PageEntry, DirEntry;
  }

  ghost predicate AllocPage(a: Allocation, v: FrameNo) {
    a.ptr != 0 && Pfn(a.ptr) <= v < Pfn(a.ptr) + Blocks(a.size)
  }

  ghost predicate InAllocs(t: Table, v: FrameNo) {
    exists slot: Slot :: AllocPage(t[slot], v)
  }

  ghost predicate InRegion(r: Region, f: FrameNo) {
    r.block <= f - FIRST_FRAME < r.block + r.blocks
  }

  ghost predicate InRegions(rs: seq<Region>, f: FrameNo) {
    exists i :: 0 <= i < |rs| && InRegion(rs[i], f)
  }

  /** The pages of p's allocations translate to themselves, present, writeable and open
      to user code; every other writeable page leads into p's own image or stack; the
      directory permits what the pages permit. */
  ghost predicate Mapped(ram: Ram, p: Proc) {
    && OpenDirectory(ram, p.chunk)
    && (forall v: FrameNo :: InAllocs(p.allocs, v) ==> PageEntry(ram, p.chunk, v) == IdentityEntry(v, READ_WRITE))
    && (forall v: FrameNo :: Writeable(PageEntry(ram, p.chunk, v)) ==>
          InAllocs(p.allocs, v) || InRegions(p.regions, Pfn(PageEntry(ram, p.chunk, v))))
  }

  ghost predicate WellPlaced(p: Proc) {
    forall slot: Slot :: p.allocs[slot].ptr != 0 ==> p.allocs[slot].ptr % PAGE_SIZE == 0
  }

  ghost predicate UsesLive(sys: Sys) {
    forall u: Use :: Valid(sys, u) ==>
      BlockOf(sys, u) in Live(sys.ph.heap) && Live(sys.ph.heap)[BlockOf(sys, u)] == LenOf(sys, u)
  }

  ghost predicate UsesApart(sys: Sys) {
    forall u: Use, w: Use :: Valid(sys, u) && Valid(sys, w) && BlockOf(sys, u) == BlockOf(sys, w) ==> u == w
  }

  /** The isolation invariant. */
  ghost predicate Isolated(sys: Sys) {
    && KernelMap(sys.ph.heap)
    && UsesLive(sys) && UsesApart(sys)
    && (forall pid: nat :: Active(sys, pid) ==>
          WellPlaced(sys.procs[pid].value) && Mapped(sys.ph.ram, sys.procs[pid].value))
  }

  ghost predicate Unowned(sys: Sys, b: int) {
    forall u: Use :: Valid(sys, u) ==> BlockOf(sys, u) != b
  }

  // --------------------------------------------- what the invariant gives

  /** Two different holders never share a heap block. */
  lemma UsesDisjoint(sys: Sys, u: Use, w: Use)
    requires Isolated(sys) && Valid(sys, u) && Valid(sys, w) && u != w
    ensures BlockOf(sys, u) + LenOf(sys, u) <= BlockOf(sys, w) || BlockOf(sys, w) + LenOf(sys, w) <= BlockOf(sys, u)
  {
    hide WellFormed, Live, BlockOf, LenOf, Valid;
    LiveBounds(sys.ph.heap, BlockOf(sys, u));
    LiveBounds(sys.ph.heap, BlockOf(sys, w));
    ChainsApart(sys.ph.heap, BlockOf(sys, u), LenOf(sys, u), BlockOf(sys, w), LenOf(sys, w));
  }

  /** The allocation a process was given overlaps no other allocation of any process. */
  lemma AllocationsDisjoint(sys: Sys, p: nat, i: nat, q: nat, j: nat)
    requires Isolated(sys) && Valid(sys, AllocOf(p, i)) && Valid(sys, AllocOf(q, j)) && (p, i) != (q, j)
    ensures var a, b := sys.procs[p].value.allocs[i], sys.procs[q].value.allocs[j];
            a.ptr + a.size <= b.ptr || b.ptr + b.size <= a.ptr
  {
    var a, b := sys.procs[p].value.allocs[i], sys.procs[q].value.allocs[j];
    UsesDisjoint(sys, AllocOf(p, i), AllocOf(q, j));
    AllocationPlace(sys, p, i);
    AllocationPlace(sys, q, j);
  }

  lemma AllocationPlace(sys: Sys, p: nat, i: nat)
    requires Isolated(sys) && Valid(sys, AllocOf(p, i))
    ensures var a := sys.procs[p].value.allocs[i];
            && a.ptr == FrameAddress(Pfn(a.ptr)) && a.size <= Blocks(a.size) * PAGE_SIZE
            && FIRST_FRAME <= Pfn(a.ptr) && Pfn(a.ptr) + Blocks(a.size) <= FIRST_FRAME + HEAP_BLOCKS
            && Blocks(a.size) >= 1 && a.size <= 0xFFFF_F000
  {
    var a := sys.procs[p].value.allocs[i];
    LiveBounds(sys.ph.heap, BlockOf(sys, AllocOf(p, i)));
    BlocksIsCeiling(a.size);
  }

  /** Every byte of an allocation translates to itself for its owner, on a page that the
      processor lets user code write. */
  lemma AllocationBytes(sys: Sys, p: nat, i: nat, v: Word)
    requires Isolated(sys) && Valid(sys, AllocOf(p, i))
    requires var a := sys.procs[p].value.allocs[i]; a.ptr <= v < a.ptr + a.size
    ensures var c := sys.procs[p].value.chunk;
            && Translate(sys.ph.ram, DirFrame(sys.ph.ram, c), v) == v
            && PageEntry(sys.ph.ram, c, Pfn(v)) == IdentityEntry(Pfn(v), READ_WRITE)
            && CanWrite(sys.ph.ram, c, Pfn(v))
  {
    hide WellFormed, Live, PageEntry, Blocks, Translate, CanRead, CanWrite, OpenDirectory;
    AllocationPlace(sys, p, i);
    var proc := sys.procs[p].value;
    assert AllocPage(proc.allocs[i], Pfn(v)) && InAllocs(proc.allocs, Pfn(v));
    assert Mapped(sys.ph.ram, proc);
    GetIsPageEntry(sys.ph.ram, proc.chunk, v);
    OpenPermits(sys.ph.ram, proc.chunk, Pfn(v));
    FlagBits(Pfn(v));
  }

  /** The frame behind a writeable page belongs to a chain its own process holds. */
  lemma WriteableFrame(sys: Sys, pid: nat, v: FrameNo) returns (u: Use)
    requires Isolated(sys) && Active(sys, pid)
    requires Writeable(PageEntry(sys.ph.ram, sys.procs[pid].value.chunk, v))
    ensures u.pid == pid && !u.PartOf? && Valid(sys, u)
    ensures var f := Pfn(PageEntry(sys.ph.ram, sys.procs[pid].value.chunk, v));
            BlockOf(sys, u) <= f - FIRST_FRAME < BlockOf(sys, u) + LenOf(sys, u)
  {
    hide PageEntry, WellFormed, Live;
    var p := sys.procs[pid].value;
    var f := Pfn(PageEntry(sys.ph.ram, p.chunk, v));
    if InAllocs(p.allocs, v) {
      var slot: Slot :| AllocPage(p.allocs[slot], v);
      u := AllocOf(pid, slot);
    } else {
      var i :| 0 <= i < |p.regions| && InRegion(p.regions[i], f);
      u := RegionOf(pid, i);
    }
  }

  /** No frame can be written by two processes. */
  lemma NoSharedWrites(sys: Sys, p: nat, v: FrameNo, q: nat, w: FrameNo)
    requires Isolated(sys) && Active(sys, p) && Active(sys, q) && p != q
    requires Writeable(PageEntry(sys.ph.ram, sys.procs[p].value.chunk, v))
    requires Writeable(PageEntry(sys.ph.ram, sys.procs[q].value.chunk, w))
    ensures Pfn(PageEntry(sys.ph.ram, sys.procs[p].value.chunk, v))
         != Pfn(PageEntry(sys.ph.ram, sys.procs[q].value.chunk, w))
  {
    hide PageEntry, WellFormed, Live, Isolated;
    var t := WriteableFrame(sys, p, v);
    var u := WriteableFrame(sys, q, w);
    UsesDisjoint(sys, t, u);
  }

  /** No process can write a frame of any page directory, its own included. */
  lemma PageTablesProtected(sys: Sys, p: nat, v: FrameNo, q: nat, part: nat)
    requires Isolated(sys) && Active(sys, p) && Valid(sys, PartOf(q, part))
    requires Writeable(PageEntry(sys.ph.ram, sys.procs[p].value.chunk, v))
    ensures Pfn(PageEntry(sys.ph.ram, sys.procs[p].value.chunk, v))
         != PartFrame(sys.ph.ram, sys.procs[q].value.chunk, part)
  {
    hide PageEntry, WellFormed, Live, Isolated, PartFrame;
    var t := WriteableFrame(sys, p, v);
    UsesDisjoint(sys, t, PartOf(q, part));
  }

  /** No process can write a free heap block. */
  lemma FreeBlocksProtected(sys: Sys, p: nat, v: FrameNo, b: int)
    requires Isolated(sys) && Active(sys, p) && b in FreeSet(sys.ph.heap)
    requires Writeable(PageEntry(sys.ph.ram, sys.procs[p].value.chunk, v))
    ensures Pfn(PageEntry(sys.ph.ram, sys.procs[p].value.chunk, v)) != BlockFrame(b)
  {
    hide PageEntry, WellFormed, Live;
    var t := WriteableFrame(sys, p, v);
    LiveBounds(sys.ph.heap, BlockOf(sys, t));
    FreeIsZero(sys.ph.heap, b);
    assert !Covers(sys.ph.heap, BlockOf(sys, t), b);
  }
}
