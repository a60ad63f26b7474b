/** The kernel's memory as the code changes it in place: the heap map is overwritten by
    KernelHeap, page tables are written through ram. */
module Kernel {
  import opened Machine
  import opened Bytes
  import opened Heap
  import opened Paging
  import opened Directory

  /** A single-block request never leaves the map. */
  lemma SmallRequestServeable(m: Map, size: Word)
    requires 1 <= size <= PAGE_SIZE
    ensures Serveable(m, size)
  {
    if !LastTaken(m) {
      assert RunAt(m, |m| - 1, 1);
    }
  }

  lemma NextAddress(v: Word)
    requires v % PAGE_SIZE == 0
    ensures Wrap(v + PAGE_SIZE) % PAGE_SIZE == 0 && Pfn(Wrap(v + PAGE_SIZE)) == NextPage(Pfn(v))
    ensures FrameAddress(Pfn(v)) == v
  {
  }

  class KernelMemory {
    const heap: KernelHeap
    var ram: Ram

    constructor (heap: KernelHeap, ram: Ram)
      ensures this.heap == heap && this.ram == ram
    {
      this.heap := heap;
      this.ram := ram;
    }

    ghost function State(): Phys
      reads this, heap.entries
    {
      Phys(heap.entries[..], ram)
    }

    /** paging_get. */
    method PagingGet(directory: FrameNo, virt: Word) returns (entry: Word)
      ensures entry == Get(ram, directory, virt)
    {
      var d, t := 0, 0;
      if virt % PAGE_SIZE == 0 {
        d := virt / (PAGES_PER_TABLE * PAGE_SIZE);
        t := virt % (PAGES_PER_TABLE * PAGE_SIZE) / PAGE_SIZE;
      }
      entry := ram[Pfn(ram[directory][d])][t];
    }

    /** paging_set. */
    method PagingSet(directory: FrameNo, virt: Word, val: Word) returns (res: int)
      modifies this`ram
      ensures virt % PAGE_SIZE != 0 ==> res == -EINVARG && ram == old(ram)
      ensures virt % PAGE_SIZE == 0 ==> res == 0 && ram == SetEntry(old(ram), directory, Pfn(virt), val)
    {
      if virt % PAGE_SIZE != 0 {
        return -EINVARG;
      }
      IndexesBijective(virt);
      var d := virt / (PAGES_PER_TABLE * PAGE_SIZE);
      var t := virt % (PAGES_PER_TABLE * PAGE_SIZE) / PAGE_SIZE;
      var table := Pfn(ram[directory][d]);
      ram := ram[table := ram[table][t := val]];
      res := 0;
    }

    /** map_virtual_address_to_physical_address; chunk is the frame of the struct PageDirectory. */
    method MapPage(chunk: FrameNo, virt: Word, phys: Word, flags: Flags) returns (res: int)
      modifies this`ram
      ensures virt % PAGE_SIZE != 0 || phys % PAGE_SIZE != 0 ==> res == -EINVARG && ram == old(ram)
      ensures virt % PAGE_SIZE == 0 && phys % PAGE_SIZE == 0 ==>
                res == 0 && ram == SetEntry(old(ram), DirFrame(old(ram), chunk), Pfn(virt), phys + flags)
    {
      if virt % PAGE_SIZE != 0 || phys % PAGE_SIZE != 0 {
        return -EINVARG;
      }
      res := PagingSet(Pfn(ram[chunk][0]), virt, phys + flags);
    }

    /** paging_map_range. */
    method PagingMapRange(chunk: FrameNo, virt: Word, phys: Word, count: int, flags: Flags) returns (res: int)
      modifies this`ram
      ensures (ram, res) == MapRangeVia(old(ram), chunk, virt, phys, count, flags)
      ensures count <= 0 || Separate(old(ram), chunk) ==>
                (ram, res) == MapRange(old(ram), DirFrame(old(ram), chunk), virt, phys, count, flags)
    {
      hide SetEntry, Separate, NextPage, Wrap, Pfn, FrameAddress, MapPages;
      res := 0;
      var v: Word, p: Word := virt, phys;
      ghost var ok := virt % PAGE_SIZE == 0 && phys % PAGE_SIZE == 0;
      var i := 0;
      while i < count
        invariant 0 <= i && (count <= 0 ==> i == 0) && (count > 0 ==> i <= count)
        invariant res == 0 && (i == 0 ==> ram == old(ram) && v == virt && p == phys)
        invariant i > 0 ==> ok
        invariant ok ==> v % PAGE_SIZE == 0 && p % PAGE_SIZE == 0
        invariant ok && count >= 0 ==>
          MapPagesVia(old(ram), chunk, Pfn(virt), Pfn(phys), count, flags)
          == MapPagesVia(ram, chunk, Pfn(v), Pfn(p), count - i, flags)
      {
        res := MapPage(chunk, v, p, flags);
        if res < 0 {
          break;
        }
        NextAddress(v);
        NextAddress(p);
        v := Wrap(v + PAGE_SIZE);
        p := Wrap(p + PAGE_SIZE);
        i := i + 1;
      }
      if Separate(old(ram), chunk) {
        ViaIsDirect(old(ram), chunk, virt, phys, count, 0, flags);
      }
    }

    /** paging_map_to. */
    method PagingMapTo(chunk: FrameNo, virt: Word, phys: Word, end: Word, flags: Flags) returns (res: int)
      modifies this`ram
      ensures (ram, res) == MapToVia(old(ram), chunk, virt, phys, end, flags)
      ensures end - phys < PAGE_SIZE || Separate(old(ram), chunk) ==>
                (ram, res) == MapTo(old(ram), DirFrame(old(ram), chunk), virt, phys, end, flags)
    {
      hide Separate, MapRangeVia, MapRange;
      if virt % PAGE_SIZE != 0 {
        return -EINVARG;
      }
      if phys % PAGE_SIZE != 0 {
        return -EINVARG;
      }
      if end % PAGE_SIZE != 0 {
        return -EINVARG;
      }
      if end < phys {
        return -EINVARG;
      }
      var total := end - phys;
      res := PagingMapRange(chunk, virt, phys, total / PAGE_SIZE, flags);
    }

    /** kernel_zeroed_alloc. */
    method ZeroedAllocate(size: Word) returns (ptr: int)
      requires heap.entries.Length <= HEAP_BLOCKS && Serveable(heap.entries[..], size)
      modifies this`ram, heap.entries
      ensures (State(), ptr) == ZeroedAlloc(old(State()), size)
    {
      ptr := heap.Malloc(size);
      if ptr == 0 {
        return;
      }
      ram := Zeroed(ram, ptr / PAGE_SIZE, size);
    }

    /** new_page_directory_allocation; the result is the frame of the struct PageDirectory. */
    method NewPageDirectory(flags: Flags) returns (chunk: FrameNo)
      requires heap.entries.Length <= HEAP_BLOCKS && flags < 0x100
      modifies this`ram, heap.entries
      ensures (State(), chunk) == NewDirectory(old(State()), flags)
    {
      hide AfterMalloc, Zeroed, ZeroedAlloc, InstallTable, IdentityTable;
      SmallRequestServeable(heap.entries[..], PAGE_SIZE);
      var directory := ZeroedAllocate(PAGE_SIZE);
      var d := Pfn(Wrap(directory));
      ghost var p1 := State();
      var k := 0;
      while k < PAGES_PER_TABLE
        invariant 0 <= k <= PAGES_PER_TABLE
        invariant NewTables(State(), d, k, flags) == NewTables(p1, d, 0, flags)
      {
        SmallRequestServeable(heap.entries[..], PAGE_SIZE);
        var table := ZeroedAllocate(PAGE_SIZE);
        FillTable(d, k, Pfn(Wrap(table)), flags);
        k := k + 1;
      }
      SmallRequestServeable(heap.entries[..], 4);
      var c := ZeroedAllocate(4);
      chunk := Pfn(Wrap(c));
      ram := ram[chunk := ram[chunk][0 := FrameAddress(d)]];
    }

    /** The body of the outer loop: identity entries for table k, then the directory entry. */
    method FillTable(d: FrameNo, k: Slot, t: FrameNo, flags: Flags)
      requires flags < 0x100
      modifies this`ram
      ensures ram == InstallTable(old(ram), d, k, t, flags)
    {
      var offset := k * PAGES_PER_TABLE * PAGE_SIZE;
      var j := 0;
      while j < PAGES_PER_TABLE
        invariant 0 <= j <= PAGES_PER_TABLE
        invariant forall g: FrameNo :: g != t ==> ram[g] == old(ram)[g]
        invariant forall i: Slot :: i < j ==> ram[t][i] == IdentityWord(k, i, flags)
      {
        ram := ram[t := ram[t][j := offset + j * PAGE_SIZE + flags]];
        j := j + 1;
      }
      assert ram[t] == IdentityTable(k, flags);
      assert ram == old(ram)[t := IdentityTable(k, flags)];
      ram := ram[d := ram[d][k := FrameAddress(t) + WithWriteable(flags)]];
    }

    /** paging_free_4gb. */
    method FreePageDirectory(chunk: FrameNo)
      requires heap.entries.Length <= HEAP_BLOCKS
      requires forall b | b in PartBlocks(ram, chunk) :: 0 <= b < HEAP_BLOCKS
      modifies heap.entries
      ensures heap.entries[..] == FreeDirectory(old(heap.entries[..]), ram, chunk)
    {
      hide MarkFree;
      ghost var m, parts := heap.entries[..], PartBlocks(ram, chunk);
      var i := 0;
      while i < PAGES_PER_TABLE
        invariant 0 <= i <= PAGES_PER_TABLE
        invariant heap.entries[..] == FreeBlocks(m, parts[..i])
      {
        FreePart(chunk, i, m);
        i := i + 1;
      }
      FreePart(chunk, i, m);
      FreePart(chunk, i + 1, m);
      assert parts[..PAGES_PER_TABLE + 2] == parts;
    }

    /** kernel_free_alloc on part i of an address space. */
    method FreePart(chunk: FrameNo, i: nat, ghost m: Map)
      requires i < PAGES_PER_TABLE + 2
      requires forall b | b in PartBlocks(ram, chunk) :: 0 <= b < HEAP_BLOCKS
      requires heap.entries[..] == FreeBlocks(m, PartBlocks(ram, chunk)[..i])
      modifies heap.entries
      ensures heap.entries[..] == FreeBlocks(m, PartBlocks(ram, chunk)[..i + 1])
    {
      hide PartBlocks, FreeBlocks, MarkFree, AddressBlock, BlockAddress;
      PartFrameIsPart(ram, chunk, i);
      ghost var parts := PartBlocks(ram, chunk);
      var f := PartFrame(ram, chunk, i);
      BlockFrameAddress(f);
      heap.Free(FrameAddress(f));
      FreeBlocksSnoc(m, parts[..i], parts[i]);
    }
  }
}
