/** src/process/Process.c as it changes a process's table and the kernel's memory in place. */
module ProcessCode {
  import opened Machine
  import opened Heap
  import opened Paging
  import opened Directory
  import opened Kernel
  import opened ElfMap
  import opened Isolation
  import opened Steps
  import opened Process
  import Runs

  /** Every recorded pointer lies at or above the heap base. */
  ghost predicate HeapPointers(t: seq<Allocation>) {
    forall a | a in t :: a.ptr != 0 ==> AddressBlock(a.ptr) >= 0
  }

  /** Allocating leaves the page directories that live in the heap alone. */
  lemma AllocKeepsSeparate(ph: Phys, size: Word, c: FrameNo)
    requires KernelMap(ph.heap) && Serveable(ph.heap, size)
    requires Separate(ph.ram, c) && OwnsParts(ph.heap, ph.ram, c)
    ensures var (r, ptr) := ZeroedAlloc(ph, size);
            Separate(r.ram, c) || (ptr != 0 && AlignUp(Wrap(ptr + size)) == ptr)
  {
    hide WellFormed, Live, Serveable, ZeroedAlloc, Blocks, PartBlocks, PageEntry, PartFrame, Separate;
    var (r, ptr) := ZeroedAlloc(ph, size);
    BlocksIsCeiling(size);
    if Blocks(size) == 0 {
      Runs.ZeroSizeAlloc(ph, size);
      if ptr != 0 { Runs.ZeroSizeEnd(ptr, size); }
    } else {
      forall i: nat | i < PAGES_PER_TABLE + 2
        ensures r.ram[PartFrame(ph.ram, c, i)] == ph.ram[PartFrame(ph.ram, c, i)] {
        PartFrameIsPart(ph.ram, c, i);
        AllocKeepsChains(ph, size, PartFrame(ph.ram, c, i) - FIRST_FRAME);
      }
      SamePartsSeparate(ph.ram, r.ram, c);
    }
  }

  lemma SamePartsSeparate(a: Ram, b: Ram, c: FrameNo)
    requires SameParts(a, b, c) && Separate(a, c)
    ensures Separate(b, c)
  {
    SamePartsView(a, b, c);
    forall i: Slot ensures TableFrame(b, c, i) == TableFrame(a, c, i) {
      assert PartFrame(b, c, i) == PartFrame(a, c, i);
    }
    assert PartFrame(b, c, PAGES_PER_TABLE) == PartFrame(a, c, PAGES_PER_TABLE);
  }

  lemma NewPointerInHeap(ph: Phys, size: Word)
    requires KernelMap(ph.heap) && Serveable(ph.heap, size)
    ensures var (r, ptr) := ZeroedAlloc(ph, size);
            && (ptr == 0 ==> r == ph)
            && (ptr != 0 ==> HEAP_BASE <= ptr < TWO32 && AddressBlock(ptr) >= 0)
  {
  }

  class UserProcess {
    const chunk: FrameNo
    const allocations: array<Allocation>
    ghost const regions: seq<Region>

    constructor (chunk: FrameNo, ghost regions: seq<Region>)
      ensures this.chunk == chunk && this.regions == regions
      ensures fresh(allocations) && Ready() && Record() == Proc(chunk, EmptyTable(), regions)
    {
      this.chunk := chunk;
      this.regions := regions;
      this.allocations := new Allocation[MAX_ALLOCATIONS](_ => EMPTY_SLOT);
      new;
      assert allocations[..] == EmptyTable();
    }

    ghost predicate Ready() {
      allocations.Length == MAX_ALLOCATIONS
    }

    ghost function Record(): Proc
      requires Ready()
      reads allocations
    {
      Proc(chunk, allocations[..], regions)
    }

    /** process_find_free_allocation_index. */
    method FindFreeIndex() returns (res: int)
      requires Ready()
      ensures var slot := FindSlot(allocations[..], 0, 0); res == if slot < 0 then -ENOMEM else slot
    {
      var i := GetAllocation(0);
      res := if i < 0 then -ENOMEM else i;
    }

    /** process_get_allocation_by_addr, as an index. */
    method GetAllocation(ptr: Word) returns (res: int)
      requires Ready()
      ensures res == FindSlot(allocations[..], ptr, 0)
    {
      var i := 0;
      while i < MAX_ALLOCATIONS
        invariant 0 <= i <= MAX_ALLOCATIONS
        invariant FindSlot(allocations[..], ptr, 0) == FindSlot(allocations[..], ptr, i)
      {
        if allocations[i].ptr == ptr {
          return i;
        }
        i := i + 1;
      }
      res := -1;
    }

    /** process_allocation_unjoin. */
    method UnjoinAllocation(ptr: Word)
      requires Ready()
      modifies allocations
      ensures allocations[..] == Unjoin(old(allocations[..]), ptr)
    {
      ghost var t := allocations[..];
      var i := 0;
      while i < MAX_ALLOCATIONS
        invariant 0 <= i <= MAX_ALLOCATIONS
        invariant forall j: Slot :: allocations[j] == if j < i && t[j].ptr == ptr then EMPTY_SLOT else t[j]
      {
        if allocations[i].ptr == ptr {
          allocations[i] := EMPTY_SLOT;
        }
        i := i + 1;
      }
    }

    /** process_malloc. */
    method Malloc(k: KernelMemory, size: Word) returns (ptr: Word)
      requires Ready() && allocations as object != k.heap.entries
      requires KernelMap(k.heap.entries[..]) && Serveable(k.heap.entries[..], size)
      requires Separate(k.ram, chunk) && OwnsParts(k.heap.entries[..], k.ram, chunk)
      modifies k`ram, k.heap.entries, allocations
      ensures (k.State(), Record(), ptr) == ProcMalloc(old(k.State()), old(Record()), size)
    {
      hide WellFormed, Live, ZeroedAlloc, MapTo, MarkFree, AddressBlock, PageEntry, OwnsParts, FindSlot, Serveable,
        Separate, Blocks;
      AllocKeepsSeparate(k.State(), size, chunk);
      NewPointerInHeap(k.State(), size);
      var address := k.ZeroedAllocate(size);
      if address == 0 {
        return 0;
      }
      var index := FindFreeIndex();
      if index < 0 {
        k.heap.Free(address);
        return 0;
      }
      var res := k.PagingMapTo(chunk, address, address, AlignUp(Wrap(address + size)), READ_WRITE);
      if res < 0 {
        k.heap.Free(address);
        return 0;
      }
      allocations[index] := Allocation(address, size);
      ptr := address;
    }

    /** process_free of a pointer other than null. */
    method Free(k: KernelMemory, ptr: Word)
      requires Ready() && allocations as object != k.heap.entries
      requires ptr != 0 && HeapPointers(allocations[..])
      requires Separate(k.ram, chunk)
      modifies k`ram, k.heap.entries, allocations
      ensures (k.State(), Record()) == ProcFree(old(k.State()), old(Record()), ptr)
      ensures Separate(k.ram, chunk) && HeapPointers(allocations[..])
    {
      hide MapTo, MarkFree, AddressBlock, PageEntry, Separate, FindSlot, OnlyTables;
      var slot := GetAllocation(ptr);
      if slot < 0 {
        return;
      }
      var a := allocations[slot];
      assert a in allocations[..];
      ghost var ram := k.ram;
      var res := k.PagingMapTo(chunk, a.ptr, a.ptr, AlignUp(Wrap(a.ptr + a.size)), 0);
      MapToExact(ram, chunk, a.ptr, a.ptr, AlignUp(Wrap(a.ptr + a.size)), 0);
      if res < 0 {
        return;
      }
      UnjoinAllocation(ptr);
      k.heap.Free(ptr);
    }

    /** process_terminate_allocations, with empty slots skipped. */
    method TerminateAllocations(k: KernelMemory)
      requires Ready() && allocations as object != k.heap.entries
      requires HeapPointers(allocations[..]) && Separate(k.ram, chunk)
      modifies k`ram, k.heap.entries, allocations
      ensures (k.State(), Record()) == Terminate(old(k.State()), old(Record()), 0)
    {
      hide ProcFree, Separate, HeapPointers;
      var i := 0;
      while i < MAX_ALLOCATIONS
        invariant 0 <= i <= MAX_ALLOCATIONS
        invariant HeapPointers(allocations[..]) && Separate(k.ram, chunk)
        invariant Terminate(k.State(), Record(), i) == Terminate(old(k.State()), old(Record()), 0)
      {
        if allocations[i].ptr != 0 {
          Free(k, allocations[i].ptr);
        }
        i := i + 1;
      }
    }

    /** process_map_loadable_elf_sections. */
    method MapLoadableSections(k: KernelMemory, mem: Word, headers: seq<Phdr>) returns (res: int)
      requires Separate(k.ram, chunk)
      modifies k`ram
      ensures (k.ram, res) == MapSections(old(k.ram), DirFrame(old(k.ram), chunk), mem, headers)
      ensures Separate(k.ram, chunk) && DirFrame(k.ram, chunk) == DirFrame(old(k.ram), chunk)
    {
      hide Separate, MapTo, PageEntry, OnlyTables, InHeader, HeaderEntry, HeaderOk;
      ghost var d := DirFrame(k.ram, chunk);
      res := 0;
      var i := 0;
      while i < |headers|
        invariant 0 <= i <= |headers| && res == 0
        invariant Separate(k.ram, chunk) && DirFrame(k.ram, chunk) == d
        invariant MapSections(old(k.ram), d, mem, headers) == MapSections(k.ram, d, mem, headers[i..])
      {
        var h := headers[i];
        var phys := Wrap(mem + h.offset);
        var flags: Flags := IS_PRESENT + ACCESS_FROM_ALL;
        if h.writeable {
          flags := flags + IS_WRITEABLE;
        }
        MapHeaderExact(k.ram, chunk, mem, h);
        res := k.PagingMapTo(chunk, LowerPage(h.vaddr), LowerPage(phys), AlignUp(Wrap(phys + h.memsz)), flags);
        assert headers[i..][1..] == headers[i + 1..];
        if res < 0 {
          break;
        }
        i := i + 1;
      }
    }

    /** process_map_memory for an ELF file. */
    method MapProcessMemory(k: KernelMemory, mem: Word, headers: seq<Phdr>, stack: Word) returns (res: int)
      requires Separate(k.ram, chunk)
      modifies k`ram
      ensures (k.ram, res) == MapMemory(old(k.ram), DirFrame(old(k.ram), chunk), mem, headers, stack)
    {
      hide Separate, MapTo, MapSections;
      res := MapLoadableSections(k, mem, headers);
      if res < 0 {
        return;
      }
      var stackRes := k.PagingMapTo(chunk, STACK_BASE, stack, AlignUp(Wrap(stack + STACK_SIZE)), READ_WRITE);
    }
  }
}
