/** Processes coming, allocating and going: the isolation invariant over every run. */
module System {
  import opened Machine
  import opened Bytes
  import opened Heap
  import opened Paging
  import opened Directory
  import opened ElfMap
  import opened Isolation
  import opened Steps
  import opened Process

  // --------------------------------------------------------- address spaces

  /** Building a page directory disturbs no process; its blocks belong to nobody yet. */
  lemma DirectoryKeepsIsolation(sys: Sys, flags: Flags)
    requires Isolated(sys) && flags < 0x100 && |FreeSet(sys.ph.heap)| >= PAGES_PER_TABLE + 2
    ensures var (r, c) := NewDirectory(sys.ph, flags);
            && NewSpace(sys.ph, r, c, flags)
            && Isolated(WithPhys(sys, r)) && AllPartsSame(sys, r)
            && forall b | b in PartBlocks(r.ram, c) :: Unowned(WithPhys(sys, r), b)
  {
    hide WellFormed, Live, PartBlocks, NewDirectory, FreeSet, PageEntry, PartFrame, BlockOf, LenOf, Valid, Separate;
    NewDirectoryOutcome(sys.ph, flags);
    var (r, c) := NewDirectory(sys.ph, flags);
    SpaceKeepsParts(sys, r, c, flags);
    forall u: Use | Valid(sys, u)
      ensures BlockOf(sys, u) in Live(r.heap) && Live(r.heap)[BlockOf(sys, u)] == LenOf(sys, u) {
      assert BlockOf(sys, u) in Live(sys.ph.heap);
    }
    TransferIsolated(sys, r);
    forall u: Use
      ensures Valid(WithPhys(sys, r), u) <==> Valid(sys, u)
      ensures Valid(sys, u) ==> BlockOf(WithPhys(sys, r), u) == BlockOf(sys, u) {
      SameUses(sys, r, u);
    }
  }

  lemma SpaceKeepsParts(sys: Sys, r: Phys, c: FrameNo, flags: Flags)
    requires Isolated(sys) && NewSpace(sys.ph, r, c, flags)
    ensures AllPartsSame(sys, r)
  {
    hide WellFormed, Live, PartBlocks, PageEntry, PartFrame, Mapped, Separate;
    forall pid: nat, i: nat | Active(sys, pid) && i < PAGES_PER_TABLE + 2
      ensures var f := PartFrame(sys.ph.ram, sys.procs[pid].value.chunk, i); r.ram[f] == sys.ph.ram[f] {
      assert Valid(sys, PartOf(pid, i));
      assert BlockOf(sys, PartOf(pid, i)) in Live(sys.ph.heap);
    }
  }

  ghost predicate AllUnowned(sys: Sys, ts: seq<int>) {
    forall b | b in ts :: Unowned(sys, b)
  }

  /** Freeing chains that nobody holds. */
  lemma ReleaseManyKeepsIsolation(sys: Sys, ts: seq<int>)
    requires Isolated(sys) && Distinct(ts) && AllUnowned(sys, ts)
    requires forall b | b in ts :: b in Live(sys.ph.heap)
    ensures var r := Phys(FreeBlocks(sys.ph.heap, ts), sys.ph.ram);
            && Isolated(WithPhys(sys, r)) && AllPartsSame(sys, r) && |r.heap| == |sys.ph.heap|
            && Live(r.heap) == Live(sys.ph.heap) - (set b | b in ts)
  {
    hide WellFormed, Live, BlockOf, LenOf, Valid, Distinct;
    FreeBlocksExact(sys.ph.heap, ts);
    TransferIsolated(sys, Phys(FreeBlocks(sys.ph.heap, ts), sys.ph.ram));
  }

  /** Rewriting the tables of an address space nobody holds yet. */
  lemma RemapUnowned(sys: Sys, c: FrameNo, ram: Ram)
    requires Isolated(sys) && OnlyTables(sys.ph.ram, ram, c)
    requires AllUnowned(sys, PartBlocks(sys.ph.ram, c))
    ensures var r := Phys(sys.ph.heap, ram); Isolated(WithPhys(sys, r)) && AllPartsSame(sys, r)
  {
    hide WellFormed, Live, PageEntry, Mapped;
    var a, r := sys.ph.ram, Phys(sys.ph.heap, ram);
    forall pid: nat, i: nat | Active(sys, pid) && i < PAGES_PER_TABLE + 2
      ensures var f := PartFrame(a, sys.procs[pid].value.chunk, i); ram[f] == a[f] {
      var f := PartFrame(a, sys.procs[pid].value.chunk, i);
      assert Valid(sys, PartOf(pid, i)) && BlockOf(sys, PartOf(pid, i)) == f - FIRST_FRAME;
      forall j: Slot ensures TableFrame(a, c, j) != f {
        PartFrameIsPart(a, c, j);
        assert PartFrame(a, c, j) - FIRST_FRAME in PartBlocks(a, c);
      }
    }
    TransferIsolated(sys, r);
  }

  // ------------------------------------------------- adding and dropping

  ghost predicate Holdable(sys: Sys, c: FrameNo, r: Region) {
    && r.block in Live(sys.ph.heap) && Live(sys.ph.heap)[r.block] == r.blocks && Unowned(sys, r.block)
    && forall j: nat :: j < PAGES_PER_TABLE + 2 ==> PartFrame(sys.ph.ram, c, j) - FIRST_FRAME != r.block
  }

  /** p holds nothing but a page directory and regions nobody else holds. */
  ghost predicate Addable(sys: Sys, p: Proc) {
    && (forall i: Slot :: p.allocs[i].ptr == 0)
    && (forall i: nat :: i < PAGES_PER_TABLE + 2 ==>
          var b := PartFrame(sys.ph.ram, p.chunk, i) - FIRST_FRAME;
          b in Live(sys.ph.heap) && Live(sys.ph.heap)[b] == 1 && Unowned(sys, b))
    && (forall i: nat, j: nat | i < j < PAGES_PER_TABLE + 2 ::
          PartFrame(sys.ph.ram, p.chunk, i) != PartFrame(sys.ph.ram, p.chunk, j))
    && (forall r | r in p.regions :: Holdable(sys, p.chunk, r))
    && (forall i: nat, j: nat | i < j < |p.regions| :: p.regions[i].block != p.regions[j].block)
    && Mapped(sys.ph.ram, p)
  }

  function WithMember(sys: Sys, pid: nat, p: Option<Proc>): Sys
    requires pid < |sys.procs|
  {
    Sys(sys.ph, sys.procs[pid := p])
  }

  lemma AddKeepsIsolation(sys: Sys, pid: nat, p: Proc)
    requires Isolated(sys) && pid < |sys.procs| && sys.procs[pid].None? && Addable(sys, p)
    ensures Isolated(WithMember(sys, pid, Some(p)))
  {
    hide WellFormed, Live, PartFrame, Mapped, Blocks;
    var next := WithMember(sys, pid, Some(p));
    forall u: Use | u.pid != pid
      ensures Valid(next, u) <==> Valid(sys, u)
      ensures Valid(sys, u) ==> BlockOf(next, u) == BlockOf(sys, u) && LenOf(next, u) == LenOf(sys, u) {
    }
    forall u: Use | Valid(next, u) && u.pid == pid
      ensures !u.AllocOf? && Unowned(sys, BlockOf(next, u))
      ensures BlockOf(next, u) in Live(sys.ph.heap) && Live(sys.ph.heap)[BlockOf(next, u)] == LenOf(next, u) {
      AddedUse(sys, pid, p, u);
    }
    assert UsesLive(next);
    forall u: Use, w: Use | Valid(next, u) && Valid(next, w) && BlockOf(next, u) == BlockOf(next, w) ensures u == w {
      AddedUsesApart(sys, pid, p, u, w);
    }
    forall q: nat | Active(next, q)
      ensures WellPlaced(next.procs[q].value) && Mapped(next.ph.ram, next.procs[q].value) {
      assert q != pid ==> Active(sys, q);
    }
  }

  lemma AddedUse(sys: Sys, pid: nat, p: Proc, u: Use)
    requires pid < |sys.procs| && sys.procs[pid].None? && Addable(sys, p)
    requires u.pid == pid && Valid(WithMember(sys, pid, Some(p)), u)
    ensures var b := BlockOf(WithMember(sys, pid, Some(p)), u);
            && !u.AllocOf? && Unowned(sys, b)
            && b in Live(sys.ph.heap) && Live(sys.ph.heap)[b] == LenOf(WithMember(sys, pid, Some(p)), u)
  {
    hide WellFormed, Live, PartFrame, Mapped, Blocks;
    match u
    case PartOf(_, part) =>
    case AllocOf(_, slot) =>
    case RegionOf(_, region) => assert p.regions[region] in p.regions;
  }

  lemma AddedUsesApart(sys: Sys, pid: nat, p: Proc, u: Use, w: Use)
    requires Isolated(sys) && pid < |sys.procs| && sys.procs[pid].None? && Addable(sys, p)
    requires var next := WithMember(sys, pid, Some(p));
             Valid(next, u) && Valid(next, w) && BlockOf(next, u) == BlockOf(next, w)
    ensures u == w
  {
    hide WellFormed, Live, PartFrame, Mapped, Blocks, Unowned;
    var next := WithMember(sys, pid, Some(p));
    forall x: Use | Valid(next, x) && x.pid != pid ensures Valid(sys, x) && !Unowned(sys, BlockOf(next, x)) {
      assert BlockOf(sys, x) == BlockOf(next, x);
      OwnedByItself(sys, x);
    }
    forall x: Use | Valid(next, x) && x.pid == pid ensures Unowned(sys, BlockOf(next, x)) && !x.AllocOf? {
      AddedUse(sys, pid, p, x);
    }
    if u.pid == pid && w.pid == pid {
      forall x: Use | Valid(next, x) && x.RegionOf? && x.pid == pid ensures p.regions[x.region] in p.regions {
      }
    }
  }

  lemma OwnedByItself(sys: Sys, u: Use)
    requires Valid(sys, u)
    ensures !Unowned(sys, BlockOf(sys, u))
  {
  }

  /** Taking a process out leaves the others isolated and its chains to nobody. */
  lemma DropKeepsIsolation(sys: Sys, pid: nat)
    requires Isolated(sys) && Active(sys, pid)
    ensures var next := WithMember(sys, pid, None);
            && Isolated(next)
            && forall u: Use :: Valid(sys, u) && u.pid == pid ==> Unowned(next, BlockOf(sys, u))
  {
    hide WellFormed, Live, PartFrame, Mapped, Blocks;
    var next := WithMember(sys, pid, None);
    forall u: Use
      ensures Valid(next, u) <==> Valid(sys, u) && u.pid != pid
      ensures Valid(next, u) ==> BlockOf(next, u) == BlockOf(sys, u) && LenOf(next, u) == LenOf(sys, u) {
    }
    forall q: nat | Active(next, q)
      ensures WellPlaced(next.procs[q].value) && Mapped(next.ph.ram, next.procs[q].value) {
      assert Active(sys, q);
    }
  }

  // ---------------------------------------------------------------- loading

  /** A writeable header stays inside the blocks of its image. */
  ghost predicate WritesInside(size: Word, h: Phdr) {
    h.writeable ==> 0 <= h.offset && h.offset + h.memsz <= Blocks(size) * PAGE_SIZE
  }

  /** The blocks of an allocation. */
  function RegionAt(ptr: Word, size: Word): Region {
    Region(Pfn(ptr) - FIRST_FRAME, Blocks(size))
  }

  /** What a loaded process owns from the start: its stack and its image. When there was no
      room for the image, its address is 0 and no block goes with it. */
  function HomeRegions(image: Word, size: Word, stack: Word): seq<Region> {
    [RegionAt(stack, STACK_SIZE)] + if image == 0 then [] else [RegionAt(image, size)]
  }

  /** A page outside the stack whose last header is writeable. */
  ghost predicate OpenPage(image: Word, hs: seq<Phdr>, q: FrameNo) {
    !InStack(q) && LastHeader(image, hs, q).Some? && LastHeader(image, hs, q).value.writeable
  }

  /** Every such page leads into the image or the stack. */
  ghost predicate WritesHome(image: Word, size: Word, stack: Word, hs: seq<Phdr>) {
    forall q: FrameNo | OpenPage(image, hs, q) ::
      InRegions(HomeRegions(image, size, stack), HeaderTarget(image, LastHeader(image, hs, q).value, q))
  }

  /** The heap map once a file has been read to base: it lies in memory, at HEAP_MAP_BASE. */
  function MapAfterRead(m: Map, base: Word, file: File): Map {
    seq(|m|, j requires 0 <= j < |m| =>
      if base <= HEAP_MAP_BASE + j < base + |file| then file[HEAP_MAP_BASE + j - base] as bv8 else m[j])
  }

  /** fread of a whole file. */
  function ReadFile(ph: Phys, base: Word, file: File): Phys {
    Phys(MapAfterRead(ph.heap, base, file), Overlay(ph.ram, base, file))
  }

  /** elf_load allocates and reads, without a look at what the allocation returned. */
  ghost function ElfLoad(ph: Phys, file: File): (Phys, Word) {
    var (r, ptr) := ZeroedAlloc(ph, |file|);
    (ReadFile(r, Wrap(ptr), file), Wrap(ptr))
  }

  /** The memory part of process_load_for_slot for an ELF file: image, stack, page directory,
      mapping. */
  ghost function LoadStep(sys: Sys, pid: nat, file: File, hs: seq<Phdr>): Sys
    requires pid < |sys.procs|
  {
    var image := ElfLoad(sys.ph, file);
    var stack := ZeroedAlloc(image.0, STACK_SIZE);
    if stack.1 == 0 then WithPhys(sys, image.0)
    else
      var directory := NewDirectory(stack.0, READ_ONLY);
      MapLoaded(WithPhys(sys, directory.0), pid, directory.1, image.1, |file|, hs, Wrap(stack.1))
  }

  /** process_map_memory into the new directory c; if it fails, the task is freed again. */
  ghost function MapLoaded(sys: Sys, pid: nat, c: FrameNo, image: Word, size: Word, hs: seq<Phdr>, stack: Word): Sys
    requires pid < |sys.procs|
  {
    var mapped := MapMemory(sys.ph.ram, DirFrame(sys.ph.ram, c), image, hs, stack);
    if mapped.1 < 0 then WithPhys(sys, Phys(FreeDirectory(sys.ph.heap, mapped.0, c), mapped.0))
    else WithMember(WithPhys(sys, Phys(sys.ph.heap, mapped.0)), pid, Some(Loaded(c, image, size, stack)))
  }

  function Loaded(c: FrameNo, image: Word, size: Word, stack: Word): Proc {
    Proc(c, EmptyTable(), HomeRegions(image, size, stack))
  }

  /** What loading needs: a free slot and room; and an image that does not fit, which is read
      to address 0, must end in front of the heap map. */
  ghost predicate LoadRoom(sys: Sys, pid: nat, file: File) {
    && pid < |sys.procs| && sys.procs[pid].None?
    && Blocks(|file|) >= 1 && Serveable(sys.ph.heap, |file|)
    && (Fits(sys.ph.heap, Blocks(|file|)) || |file| <= HEAP_MAP_BASE)
    && HasRoom(ElfLoad(sys.ph, file))
  }

  /** Where loading gets as far as a process, its headers write into its image and stack. */
  ghost predicate LoadSafe(sys: Sys, file: File, hs: seq<Phdr>) {
    var image := ElfLoad(sys.ph, file);
    var stack := ZeroedAlloc(image.0, STACK_SIZE);
    stack.1 != 0 && (forall h | h in hs :: HeaderOk(image.1, h)) ==>
      WritesHome(image.1, |file|, Wrap(stack.1), hs)
  }

  ghost predicate LoadLegal(sys: Sys, pid: nat, file: File, hs: seq<Phdr>) {
    LoadRoom(sys, pid, file) && LoadSafe(sys, file, hs)
  }

  /** After the image: a stack can be asked for, and a directory fits after it. */
  ghost predicate HasRoom(image: (Phys, Word)) {
    && Serveable(image.0.heap, STACK_SIZE)
    && (ZeroedAlloc(image.0, STACK_SIZE).1 != 0 ==>
          |FreeSet(ZeroedAlloc(image.0, STACK_SIZE).0.heap)| >= PAGES_PER_TABLE + 2)
  }

  lemma EntryWriteable(f: FrameNo, flags: Flags)
    ensures Writeable(FrameAddress(f) + flags) <==> flags / IS_WRITEABLE % 2 == 1
    ensures Pfn(FrameAddress(f) + flags) == f
  {
  }

  /** Page k of a range inside n blocks from mem lies inside those blocks. */
  lemma SpanFrames(phys: Word, bytes: Word, k: FrameNo, mem: Word, n: nat)
    requires mem % PAGE_SIZE == 0 && mem <= phys && phys + bytes <= mem + n * PAGE_SIZE <= 0xFFFF_F000
    requires k < (AlignUp(phys + bytes) - LowerPage(phys)) / PAGE_SIZE
    ensures Pfn(mem) <= Pfn(phys) + k < Pfn(mem) + n && Pfn(phys) + k < TOTAL_PAGES
  {
  }

  /** Where a writeable page leads whose header stays inside the image. */
  lemma TargetInside(image: Word, size: Word, hs: seq<Phdr>, q: FrameNo)
    requires image % PAGE_SIZE == 0 && image + Blocks(size) * PAGE_SIZE <= 0xFFFF_F000
    requires (forall h | h in hs :: WritesInside(size, h)) && OpenPage(image, hs, q)
    ensures Pfn(image) <= HeaderTarget(image, LastHeader(image, hs, q).value, q) < Pfn(image) + Blocks(size)
  {
    hide Distance, Blocks, AlignUp, LowerPage, LastHeader;
    LastEntryIs(image, hs, q, 0);
    var h := LastHeader(image, hs, q).value;
    assert image == FrameAddress(Pfn(image)) && PhysicalAddress(image, h) == image + h.offset;
    SpanFrames(image + h.offset, h.memsz, Distance(Pfn(h.vaddr), q), image, Blocks(size));
  }

  /** Headers that stay inside their image write home, wherever image and stack are. */
  lemma InsideIsHome(image: Word, size: Word, stack: Word, hs: seq<Phdr>)
    requires image % PAGE_SIZE == 0 && image != 0
    requires FIRST_FRAME <= Pfn(image) && Pfn(image) + Blocks(size) <= FIRST_FRAME + HEAP_BLOCKS
    requires forall h | h in hs :: WritesInside(size, h)
    ensures WritesHome(image, size, stack, hs)
  {
    hide Blocks, LastHeader, HeaderTarget, WritesInside;
    var rs := HomeRegions(image, size, stack);
    forall q: FrameNo | OpenPage(image, hs, q)
      ensures InRegion(rs[1], HeaderTarget(image, LastHeader(image, hs, q).value, q)) {
      TargetInside(image, size, hs, q);
    }
  }

  /** For a header whose range does not wrap, leading into the image is a matter of its
      p_offset, its p_vaddr and the size of the image. */
  lemma HomeByOffset(image: Word, size: Word, h: Phdr, q: FrameNo)
    requires image % PAGE_SIZE == 0 && Loadable(image, h) && InHeader(image, h, q)
    ensures InRegion(RegionAt(image, size), HeaderTarget(image, h, q))
            <==> 0 <= h.offset - h.vaddr + FrameAddress(q) < Blocks(size) * PAGE_SIZE
  {
    hide Distance, Blocks, InHeader, HeaderTarget;
    HeaderFrame(image, h, q);
    TargetOfEntry(image, h, q);
  }

  lemma TargetOfEntry(mem: Word, h: Phdr, q: FrameNo)
    ensures Pfn(HeaderEntry(mem, h, q)) == HeaderTarget(mem, h, q)
  {
    EntryWriteable(HeaderTarget(mem, h, q), HeaderFlags(h));
  }

  /** After loading, the only writeable pages lead into the image and the stack, if and only
      if the headers write home. */
  lemma LoadedMappedIff(ram: Ram, c: FrameNo, image: Word, size: Word, hs: seq<Phdr>, stack: Word)
    requires Separate(ram, c) && OpenDirectory(ram, c)
    requires forall v: FrameNo :: PageEntry(ram, c, v) == IdentityEntry(v, READ_ONLY)
    requires stack % PAGE_SIZE == 0
    requires FIRST_FRAME <= Pfn(stack) && Pfn(stack) + Blocks(STACK_SIZE) <= FIRST_FRAME + HEAP_BLOCKS
    ensures var (r, res) := MapMemory(ram, DirFrame(ram, c), image, hs, stack);
            && OnlyTables(ram, r, c) && (res == 0 <==> forall h | h in hs :: HeaderOk(image, h))
            && (res == 0 ==> (Mapped(r, Loaded(c, image, size, stack)) <==> WritesHome(image, size, stack, hs)))
  {
    hide PageEntry, Separate, OnlyTables, MapTo, MapSections, InHeader, HeaderTarget, HeaderOk, Blocks,
      LastHeader, LastEntry;
    var (s, res) := MapSections(ram, DirFrame(ram, c), image, hs);
    MapSectionsExact(ram, c, image, hs);
    assert stack + STACK_SIZE <= 0xFFFF_F000;
    StackExact(s, c, stack);
    var r := MapMemory(ram, DirFrame(ram, c), image, hs, stack).0;
    if res == 0 {
      OnlyTablesChain(ram, s, r, c);
      OnlyTablesKeeps(ram, r, c);
      var p := Loaded(c, image, size, stack);
      forall v: FrameNo
        ensures Writeable(PageEntry(r, c, v)) && !InRegions(p.regions, Pfn(PageEntry(r, c, v)))
                <==> && !InStack(v) && LastHeader(image, hs, v).Some? && LastHeader(image, hs, v).value.writeable
                     && !InRegions(p.regions, HeaderTarget(image, LastHeader(image, hs, v).value, v)) {
        LoadedPage(ram, r, c, image, size, hs, stack, v);
      }
      assert forall v: FrameNo :: !InAllocs(p.allocs, v);
    }
  }

  lemma LoadedPage(ram: Ram, r: Ram, c: FrameNo, image: Word, size: Word, hs: seq<Phdr>, stack: Word, v: FrameNo)
    requires PageEntry(ram, c, v) == IdentityEntry(v, READ_ONLY)
    requires stack % PAGE_SIZE == 0
    requires FIRST_FRAME <= Pfn(stack) && Pfn(stack) + Blocks(STACK_SIZE) <= FIRST_FRAME + HEAP_BLOCKS
    requires PageEntry(r, c, v) == if InStack(v) then stack + FrameAddress(v) - STACK_BASE + READ_WRITE
                                   else LastEntry(image, hs, v, PageEntry(ram, c, v))
    ensures InStack(v) ==> InRegions(HomeRegions(image, size, stack), Pfn(PageEntry(r, c, v)))
    ensures !InStack(v) ==>
              match LastHeader(image, hs, v)
              case None => !Writeable(PageEntry(r, c, v))
              case Some(h) =>
                (Writeable(PageEntry(r, c, v)) <==> h.writeable)
                && Pfn(PageEntry(r, c, v)) == HeaderTarget(image, h, v)
    ensures PageEntry(r, c, v) % 8 == if InStack(v) || OpenPage(image, hs, v) then 7 else 5
  {
    hide PageEntry, InHeader, HeaderTarget, LastEntry, LastHeader;
    var rs, e := HomeRegions(image, size, stack), PageEntry(r, c, v);
    if InStack(v) {
      assert InRegion(rs[0], Pfn(e));
      assert e == IdentityEntry(Pfn(e), READ_WRITE);
      FlagBits(Pfn(e));
    } else {
      LastEntryIs(image, hs, v, PageEntry(ram, c, v));
      EntryWriteable(v, READ_ONLY);
      FlagBits(v);
      if LastHeader(image, hs, v).Some? {
        var h := LastHeader(image, hs, v).value;
        FlagBits(HeaderTarget(image, h, v));
        EntryWriteable(HeaderTarget(image, h, v), HeaderFlags(h));
      }
    }
  }

  /** What user code may do after loading: read every page, and write the stack pages and those
      whose last header is writeable. */
  lemma LoadedAccess(ram: Ram, c: FrameNo, image: Word, size: Word, hs: seq<Phdr>, stack: Word, v: FrameNo)
    requires Separate(ram, c) && OpenDirectory(ram, c)
    requires forall q: FrameNo :: PageEntry(ram, c, q) == IdentityEntry(q, READ_ONLY)
    requires stack % PAGE_SIZE == 0
    requires FIRST_FRAME <= Pfn(stack) && Pfn(stack) + Blocks(STACK_SIZE) <= FIRST_FRAME + HEAP_BLOCKS
    ensures var (r, res) := MapMemory(ram, DirFrame(ram, c), image, hs, stack);
            res == 0 ==> CanRead(r, c, v) && (CanWrite(r, c, v) <==> InStack(v) || OpenPage(image, hs, v))
  {
    hide PageEntry, Separate, OnlyTables, MapTo, MapSections, InHeader, HeaderTarget, HeaderOk, Blocks, LastHeader,
      LastEntry, DirEntry, CanRead, CanWrite, InStack, OpenPage;
    var (s, res) := MapSections(ram, DirFrame(ram, c), image, hs);
    MapSectionsExact(ram, c, image, hs);
    assert stack + STACK_SIZE <= 0xFFFF_F000;
    StackExact(s, c, stack);
    var r := MapMemory(ram, DirFrame(ram, c), image, hs, stack).0;
    if res == 0 {
      OnlyTablesChain(ram, s, r, c);
      OnlyTablesKeeps(ram, r, c);
      LoadedPage(ram, r, c, image, size, hs, stack, v);
      OpenPermits(r, c, v);
    }
  }

  lemma UnownedStays(sys: Sys, ph: Phys, b: int)
    requires AllPartsSame(sys, ph) && Unowned(sys, b)
    ensures Unowned(WithPhys(sys, ph), b)
  {
    hide PartFrame, SameParts, AllPartsSame, BlockOf;
    forall u: Use | Valid(WithPhys(sys, ph), u) ensures BlockOf(WithPhys(sys, ph), u) != b {
      SameUses(sys, ph, u);
    }
  }

  lemma PartsSameChain(sys: Sys, a: Phys, b: Phys)
    requires AllPartsSame(sys, a) && AllPartsSame(WithPhys(sys, a), b)
    ensures AllPartsSame(sys, b)
  {
    hide PartFrame;
    forall pid: nat | Active(sys, pid) ensures SameParts(sys.ph.ram, b.ram, sys.procs[pid].value.chunk) {
      assert Active(WithPhys(sys, a), pid);
      SamePartsView(sys.ph.ram, a.ram, sys.procs[pid].value.chunk);
    }
  }

  /** A block ready to become a region: allocated, held by nobody, no part of c. */
  ghost predicate Spare(sys: Sys, c: FrameNo, ptr: Word, size: Word) {
    && ptr % PAGE_SIZE == 0 && FIRST_FRAME <= Pfn(ptr)
    && Pfn(ptr) - FIRST_FRAME in Live(sys.ph.heap) && Live(sys.ph.heap)[Pfn(ptr) - FIRST_FRAME] == Blocks(size)
    && Unowned(sys, Pfn(ptr) - FIRST_FRAME) && Pfn(ptr) - FIRST_FRAME !in PartBlocks(sys.ph.ram, c)
  }

  /** A fresh directory nobody holds, spare blocks for the stack and, if it has any, for the
      image. */
  ghost predicate Fresh(sys: Sys, c: FrameNo, image: Word, size: Word, stack: Word) {
    && Isolated(sys) && Separate(sys.ph.ram, c) && OpenDirectory(sys.ph.ram, c)
    && Distinct(PartBlocks(sys.ph.ram, c))
    && (forall v: FrameNo :: PageEntry(sys.ph.ram, c, v) == IdentityEntry(v, READ_ONLY))
    && (forall b | b in PartBlocks(sys.ph.ram, c) :: b in Live(sys.ph.heap) && Live(sys.ph.heap)[b] == 1)
    && AllUnowned(sys, PartBlocks(sys.ph.ram, c))
    && Spare(sys, c, stack, STACK_SIZE)
    && (image != 0 ==> Spare(sys, c, image, size) && Pfn(image) != Pfn(stack))
  }

  lemma FreshBounds(sys: Sys, c: FrameNo, image: Word, size: Word, stack: Word)
    requires Fresh(sys, c, image, size, stack)
    ensures image != 0 ==> Pfn(image) + Blocks(size) <= FIRST_FRAME + HEAP_BLOCKS
    ensures Pfn(stack) + Blocks(STACK_SIZE) <= FIRST_FRAME + HEAP_BLOCKS
  {
    if image != 0 {
      LiveBounds(sys.ph.heap, Pfn(image) - FIRST_FRAME);
    }
    LiveBounds(sys.ph.heap, Pfn(stack) - FIRST_FRAME);
  }

  /** If a header wraps, the new directory is given back. */
  lemma MapLoadedFails(sys: Sys, pid: nat, c: FrameNo, image: Word, size: Word, hs: seq<Phdr>, stack: Word)
    requires Fresh(sys, c, image, size, stack) && pid < |sys.procs|
    requires MapMemory(sys.ph.ram, DirFrame(sys.ph.ram, c), image, hs, stack).1 < 0
    ensures var next := MapLoaded(sys, pid, c, image, size, hs, stack);
            && next.procs == sys.procs && Isolated(next) && AllPartsSame(sys, next.ph)
            && |next.ph.heap| == |sys.ph.heap|
            && Live(next.ph.heap) == Live(sys.ph.heap) - (set b | b in PartBlocks(sys.ph.ram, c))
  {
    hide WellFormed, Live, PartBlocks, PageEntry, PartFrame, Mapped, MapMemory, Separate, OnlyTables, Blocks,
      WritesHome, Isolated, FreeDirectory, FreeBlocks, Distinct, Unowned, HeaderOk;
    FreshBounds(sys, c, image, size, stack);
    LoadedMappedIff(sys.ph.ram, c, image, size, hs, stack);
    var mapped := MapMemory(sys.ph.ram, DirFrame(sys.ph.ram, c), image, hs, stack).0;
    RemapUnowned(sys, c, mapped);
    var mid := WithPhys(sys, Phys(sys.ph.heap, mapped));
    PartBlocksKept(sys.ph.ram, mapped, c);
    forall b | Unowned(sys, b) ensures Unowned(mid, b) {
      UnownedStays(sys, mid.ph, b);
    }
    ReleaseManyKeepsIsolation(mid, PartBlocks(mapped, c));
    FreeDirectoryIs(sys.ph.heap, mapped, c);
    PartsSameChain(sys, mid.ph, Phys(FreeDirectory(sys.ph.heap, mapped, c), mapped));
  }

  lemma MapLoadedIff(sys: Sys, pid: nat, c: FrameNo, image: Word, size: Word, hs: seq<Phdr>, stack: Word)
    requires Fresh(sys, c, image, size, stack) && pid < |sys.procs| && sys.procs[pid].None?
    ensures var next := MapLoaded(sys, pid, c, image, size, hs, stack);
            && OthersUntouched(sys, next, pid)
            && (Isolated(next) <==> ((forall h | h in hs :: HeaderOk(image, h)) ==> WritesHome(image, size, stack, hs)))
  {
    hide WellFormed, Live, PartBlocks, PageEntry, PartFrame, Mapped, MapMemory, Separate, OnlyTables, Blocks,
      WritesHome, Isolated, FreeDirectory, FreeBlocks, Distinct, Unowned, Loaded, HeaderOk;
    FreshBounds(sys, c, image, size, stack);
    LoadedMappedIff(sys.ph.ram, c, image, size, hs, stack);
    var mapped := MapMemory(sys.ph.ram, DirFrame(sys.ph.ram, c), image, hs, stack);
    RemapUnowned(sys, c, mapped.0);
    var mid := WithPhys(sys, Phys(sys.ph.heap, mapped.0));
    PartBlocksKept(sys.ph.ram, mapped.0, c);
    forall b | Unowned(sys, b) ensures Unowned(mid, b) {
      UnownedStays(sys, mid.ph, b);
    }
    MapResult(sys.ph.ram, c, image, hs, stack);
    if mapped.1 < 0 {
      MapLoadedFails(sys, pid, c, image, size, hs, stack);
    } else if WritesHome(image, size, stack, hs) {
      LoadedAddable(sys, mid, c, image, size, stack);
      AddKeepsIsolation(mid, pid, Loaded(c, image, size, stack));
    } else {
      NotMapped(WithMember(mid, pid, Some(Loaded(c, image, size, stack))), pid);
    }
  }

  lemma NotMapped(sys: Sys, pid: nat)
    requires Active(sys, pid) && !Mapped(sys.ph.ram, sys.procs[pid].value)
    ensures !Isolated(sys)
  {
  }

  lemma FreeDirectoryIs(m: Map, ram: Ram, c: FrameNo)
    ensures FreeDirectory(m, ram, c) == FreeBlocks(m, PartBlocks(ram, c))
  {
  }

  lemma MapResult(ram: Ram, c: FrameNo, mem: Word, hs: seq<Phdr>, stack: Word)
    requires Separate(ram, c)
    ensures var res := MapMemory(ram, DirFrame(ram, c), mem, hs, stack).1; res == 0 || res == -EINVARG
  {
    hide PageEntry, Separate, OnlyTables, MapTo, MapSections;
    MapSectionsExact(ram, c, mem, hs);
  }

  lemma LoadedAddable(sys: Sys, mid: Sys, c: FrameNo, image: Word, size: Word, stack: Word)
    requires Fresh(sys, c, image, size, stack)
    requires mid.ph.heap == sys.ph.heap && PartBlocks(mid.ph.ram, c) == PartBlocks(sys.ph.ram, c)
    requires forall b :: Unowned(sys, b) ==> Unowned(mid, b)
    requires Mapped(mid.ph.ram, Loaded(c, image, size, stack))
    ensures Addable(mid, Loaded(c, image, size, stack))
  {
    hide WellFormed, Live, PartBlocks, PageEntry, PartFrame, Mapped, Separate, Blocks, Isolated, Unowned;
    var p, parts := Loaded(c, image, size, stack), PartBlocks(mid.ph.ram, c);
    PartBlocksLength(mid.ph.ram, c);
    forall i: nat | i < PAGES_PER_TABLE + 2
      ensures parts[i] in parts && parts[i] == PartFrame(mid.ph.ram, c, i) - FIRST_FRAME {
      PartFrameIsPart(mid.ph.ram, c, i);
    }
  }

  /** The chains of an allocation that may have failed. */
  function ChainsAt(ptr: Word, size: Word): map<int, int> {
    if ptr == 0 then map[] else map[Pfn(ptr) - FIRST_FRAME := Blocks(size)]
  }

  /** r's heap is m plus an image chain (if any), a stack chain and the blocks of c. */
  ghost predicate LoadedHeap(m: Map, r: Phys, c: FrameNo, image: Word, size: Word, stack: Word) {
    var added := ChainsAt(image, size) + ChainsAt(stack, STACK_SIZE) + Ones(PartBlocks(r.ram, c));
    |r.heap| == |m| && Live(r.heap) == Live(m) + added && forall b | b in added :: b !in Live(m)
  }

  lemma NullIffFull(sys: Sys, size: Word)
    requires Isolated(sys) && Serveable(sys.ph.heap, size) && Blocks(size) >= 1
    ensures var (r, ptr) := ZeroedAlloc(sys.ph, size);
            (ptr == 0 <==> !Fits(sys.ph.heap, Blocks(size))) && (ptr == 0 ==> r == sys.ph)
  {
    hide WellFormed, Fits, Serveable;
    AllocNull(sys.ph, size);
  }

  /** Where the file lies in memory: in blocks of its own, or below the heap map. */
  ghost predicate Placed(sys: Sys, base: Word, file: File) {
    if base == 0 then |file| <= HEAP_MAP_BASE
    else
      && HEAP_BASE <= base && base % PAGE_SIZE == 0 && Blocks(|file|) >= 1
      && var b := Pfn(base) - FIRST_FRAME;
         b in Live(sys.ph.heap) && Live(sys.ph.heap)[b] == Blocks(|file|) && Unowned(sys, b)
  }

  /** The frames a file read there reaches. */
  predicate Reaches(base: Word, file: File, f: FrameNo) {
    if base == 0 then f <= Pfn(HEAP_MAP_BASE) else Pfn(base) <= f < Pfn(base) + Blocks(|file|)
  }

  lemma ReadFrames(sys: Sys, base: Word, file: File, f: FrameNo)
    requires Placed(sys, base, file) && !Reaches(base, file, f)
    ensures ReadFile(sys.ph, base, file).ram[f] == sys.ph.ram[f]
  {
    hide Live, Unowned, Blocks, Overlay, MapAfterRead;
    BlocksIsCeiling(|file|);
    OverlayOutside(sys.ph.ram, base, file, f);
  }

  lemma ReadKeepsMap(sys: Sys, base: Word, file: File)
    requires Isolated(sys) && Placed(sys, base, file)
    ensures ReadFile(sys.ph, base, file).heap == sys.ph.heap
  {
    hide Live, WellFormed, UsesLive, UsesApart, Mapped, Unowned, Blocks, Overlay;
    var m, r := sys.ph.heap, MapAfterRead(sys.ph.heap, base, file);
    assert forall j | 0 <= j < |m| :: r[j] == m[j];
  }

  /** Reading a file to its place disturbs no process. */
  lemma ReadKeepsIsolation(sys: Sys, base: Word, file: File)
    requires Isolated(sys) && Placed(sys, base, file)
    ensures var r := ReadFile(sys.ph, base, file);
            r.heap == sys.ph.heap && Isolated(WithPhys(sys, r)) && AllPartsSame(sys, r)
  {
    hide WellFormed, Live, Blocks, ReadFile, PartFrame, Mapped, BlockOf, LenOf, Valid;
    var r := ReadFile(sys.ph, base, file);
    ReadKeepsMap(sys, base, file);
    forall pid: nat, i: nat | Active(sys, pid) && i < PAGES_PER_TABLE + 2
      ensures var f := PartFrame(sys.ph.ram, sys.procs[pid].value.chunk, i); r.ram[f] == sys.ph.ram[f] {
      PartNotReached(sys, base, file, pid, i);
      ReadFrames(sys, base, file, PartFrame(sys.ph.ram, sys.procs[pid].value.chunk, i));
    }
    TransferIsolated(sys, r);
  }

  lemma PartNotReached(sys: Sys, base: Word, file: File, pid: nat, i: nat)
    requires Isolated(sys) && Placed(sys, base, file) && Active(sys, pid) && i < PAGES_PER_TABLE + 2
    ensures !Reaches(base, file, PartFrame(sys.ph.ram, sys.procs[pid].value.chunk, i))
  {
    hide WellFormed, Live, Blocks, PartFrame, Mapped;
    var u := PartOf(pid, i);
    assert Valid(sys, u) && LenOf(sys, u) == 1;
    var p := BlockOf(sys, u);
    LiveBounds(sys.ph.heap, p);
    if base != 0 {
      var b := Pfn(base) - FIRST_FRAME;
      LiveBounds(sys.ph.heap, b);
      ChainsApart(sys.ph.heap, b, Blocks(|file|), p, 1);
    }
  }

  /** Allocating the image and reading the file into it. */
  lemma ElfLoadKeepsIsolation(sys: Sys, file: File)
    requires Isolated(sys) && Serveable(sys.ph.heap, |file|) && Blocks(|file|) >= 1
    requires Fits(sys.ph.heap, Blocks(|file|)) || |file| <= HEAP_MAP_BASE
    ensures var (r, base) := ElfLoad(sys.ph, file);
            && Isolated(WithPhys(sys, r)) && AllPartsSame(sys, r) && |r.heap| == |sys.ph.heap|
            && (base == 0 <==> !Fits(sys.ph.heap, Blocks(|file|)))
            && (base == 0 ==> r.heap == sys.ph.heap)
            && (base != 0 ==>
                  && HEAP_BASE <= base && base % PAGE_SIZE == 0
                  && var b := Pfn(base) - FIRST_FRAME;
                  && b !in Live(sys.ph.heap) && Live(r.heap) == Live(sys.ph.heap)[b := Blocks(|file|)]
                  && Unowned(WithPhys(sys, r), b))
  {
    hide WellFormed, Live, Blocks, ReadFile, ZeroedAlloc, Serveable, Fits, Isolated, Unowned, AllPartsSame;
    AllocKeepsIsolation(sys, |file|);
    NullIffFull(sys, |file|);
    var (s, ptr) := ZeroedAlloc(sys.ph, |file|);
    var mid := WithPhys(sys, s);
    ReadKeepsIsolation(mid, Wrap(ptr), file);
    var r := ReadFile(s, Wrap(ptr), file);
    PartsSameChain(sys, s, r);
    if ptr != 0 {
      UnownedStays(mid, r, Pfn(ptr) - FIRST_FRAME);
    }
  }

  /** Allocating image, stack and directory in turn leads to a fresh directory. */
  lemma LoadPrepares(sys: Sys, pid: nat, file: File)
    requires Isolated(sys) && LoadRoom(sys, pid, file)
    ensures var image := ElfLoad(sys.ph, file);
            && Isolated(WithPhys(sys, image.0)) && AllPartsSame(sys, image.0)
            && var stack := ZeroedAlloc(image.0, STACK_SIZE);
            && (stack.1 == 0 ==> stack.0 == image.0)
            && (stack.1 != 0 ==>
                  var d := NewDirectory(stack.0, READ_ONLY);
                  && 0 < stack.1 < TWO32 && AllPartsSame(sys, d.0)
                  && Fresh(WithPhys(sys, d.0), d.1, image.1, |file|, stack.1)
                  && LoadedHeap(sys.ph.heap, d.0, d.1, image.1, |file|, stack.1))
  {
    hide WellFormed, Live, PartBlocks, PageEntry, PartFrame, Mapped, Separate, Blocks, Isolated, Unowned, ZeroedAlloc,
      ElfLoad, NewDirectory, Serveable, FreeSet, AllPartsSame, Distinct, OpenDirectory, DirEntry, DirectoryWord;
    ElfLoadKeepsIsolation(sys, file);
    var image := ElfLoad(sys.ph, file);
    var s1 := WithPhys(sys, image.0);
    assert Blocks(STACK_SIZE) >= 1 by { BlocksIsCeiling(STACK_SIZE); }
    AllocKeepsIsolation(s1, STACK_SIZE);
    var stack := ZeroedAlloc(image.0, STACK_SIZE);
    if stack.1 != 0 {
      var s2 := WithPhys(s1, stack.0);
      DirectoryKeepsIsolation(s2, READ_ONLY);
      var d := NewDirectory(stack.0, READ_ONLY);
      NewSpaceOpen(stack.0, d.0, d.1);
      PartsSameChain(sys, image.0, stack.0);
      PartsSameChain(sys, stack.0, d.0);
      UnownedStays(s2, d.0, Pfn(stack.1) - FIRST_FRAME);
      HeapPointer(stack.1);
      if image.1 != 0 {
        UnownedStays(s1, stack.0, Pfn(image.1) - FIRST_FRAME);
        UnownedStays(s2, d.0, Pfn(image.1) - FIRST_FRAME);
        HeapPointer(image.1);
      }
    }
  }

  /** A new directory for user pages permits everything its pages permit. */
  lemma NewSpaceOpen(ph: Phys, r: Phys, c: FrameNo)
    requires NewSpace(ph, r, c, READ_ONLY)
    ensures OpenDirectory(r.ram, c)
  {
    hide WellFormed, Live, PartBlocks, Separate, PageEntry, DirEntry;
    forall i: Slot ensures DirEntry(r.ram, c, i) % 8 == 7 {
      var w := DirEntry(r.ram, c, i);
      LowBits(w);
      LowTwelve(Pfn(w), w % PAGE_SIZE);
    }
  }

  lemma HeapPointer(ptr: Word)
    requires HEAP_BASE <= ptr
    ensures FIRST_FRAME <= Pfn(ptr)
  {
  }

  /** Loading a process keeps everybody isolated if and only if its headers write home. */
  lemma LoadIsolationIff(sys: Sys, pid: nat, file: File, hs: seq<Phdr>)
    requires Isolated(sys) && LoadRoom(sys, pid, file)
    ensures Isolated(LoadStep(sys, pid, file, hs)) <==> LoadSafe(sys, file, hs)
    ensures OthersUntouched(sys, LoadStep(sys, pid, file, hs), pid)
  {
    hide WellFormed, Live, PageEntry, Mapped, Blocks, Isolated, ZeroedAlloc, ElfLoad, NewDirectory, Serveable,
      PartFrame, HasRoom, WritesHome, HeaderOk, MapLoaded, Fresh, SameParts;
    LoadPrepares(sys, pid, file);
    var image := ElfLoad(sys.ph, file);
    var stack := ZeroedAlloc(image.0, STACK_SIZE);
    AgreeUntouched(sys, image.0, pid);
    if stack.1 != 0 {
      var d := NewDirectory(stack.0, READ_ONLY);
      var s3 := WithPhys(sys, d.0);
      MapLoadedIff(s3, pid, d.1, image.1, |file|, hs, stack.1);
      AgreeUntouched(sys, d.0, pid);
      UntouchedChain(sys, s3, MapLoaded(s3, pid, d.1, image.1, |file|, hs, stack.1), pid);
    }
  }

  /** A load that fails gives back its page directory, but neither image nor stack: their
      chains stay, and belong to nobody. */
  lemma FailedLoadLeaks(sys: Sys, pid: nat, file: File, hs: seq<Phdr>)
    requires Isolated(sys) && LoadRoom(sys, pid, file) && LoadStep(sys, pid, file, hs).procs[pid].None?
    ensures var image := ElfLoad(sys.ph, file);
            var left := ChainsAt(image.1, |file|) + ChainsAt(Wrap(ZeroedAlloc(image.0, STACK_SIZE).1), STACK_SIZE);
            && (forall b | b in left :: b !in Live(sys.ph.heap))
            && Live(LoadStep(sys, pid, file, hs).ph.heap) == Live(sys.ph.heap) + left
  {
    hide WellFormed, Live, PageEntry, Mapped, Blocks, Isolated, ZeroedAlloc, ElfLoad, NewDirectory, Serveable, PartFrame,
      HasRoom, MapLoaded, MapMemory, Fresh, SameParts, PartBlocks, ChainsAt;
    LoadPrepares(sys, pid, file);
    var image := ElfLoad(sys.ph, file);
    var stack := ZeroedAlloc(image.0, STACK_SIZE);
    if stack.1 != 0 {
      var d := NewDirectory(stack.0, READ_ONLY);
      var s3 := WithPhys(sys, d.0);
      FailedMapping(s3, pid, d.1, image.1, |file|, hs, stack.1);
      MapLoadedFails(s3, pid, d.1, image.1, |file|, hs, stack.1);
      PartsApartFromHome(s3, d.1, image.1, |file|, stack.1);
      PartsDropped(sys.ph.heap, d.0, d.1, image.1, |file|, stack.1);
    } else {
      ElfLoadKeepsIsolation(sys, file);
      NullChains(STACK_SIZE);
      NullChains(|file|);
      OneChain(image.1, |file|);
    }
  }

  lemma NullChains(size: Word)
    ensures ChainsAt(0, size) == map[]
  {
  }

  lemma OneChain(ptr: Word, size: Word)
    ensures ptr != 0 ==> ChainsAt(ptr, size) == map[Pfn(ptr) - FIRST_FRAME := Blocks(size)]
  {
    hide Blocks;
  }

  lemma PartsDropped(m: Map, r: Phys, c: FrameNo, image: Word, size: Word, stack: Word)
    requires LoadedHeap(m, r, c, image, size, stack)
    requires forall b | b in PartBlocks(r.ram, c) :: b !in ChainsAt(image, size) + ChainsAt(stack, STACK_SIZE)
    ensures var left := ChainsAt(image, size) + ChainsAt(stack, STACK_SIZE);
            && (forall b | b in left :: b !in Live(m))
            && Live(r.heap) - (set b | b in PartBlocks(r.ram, c)) == Live(m) + left
  {
    hide Live, PartBlocks, ChainsAt;
    var left := ChainsAt(image, size) + ChainsAt(stack, STACK_SIZE);
    var dropped, kept := Live(r.heap) - (set b | b in PartBlocks(r.ram, c)), Live(m) + left;
    var added := left + Ones(PartBlocks(r.ram, c));
    forall b | b in PartBlocks(r.ram, c) ensures b in added && b !in Live(m) {
    }
    forall b ensures b in dropped <==> b in kept
             ensures b in kept ==> dropped[b] == kept[b] {
    }
    assert dropped == kept;
  }

  lemma PartsApartFromHome(sys: Sys, c: FrameNo, image: Word, size: Word, stack: Word)
    requires Fresh(sys, c, image, size, stack)
    ensures forall b | b in PartBlocks(sys.ph.ram, c) :: b !in ChainsAt(image, size) + ChainsAt(stack, STACK_SIZE)
  {
    hide Live, WellFormed, PartBlocks, Mapped, Separate, PageEntry, Blocks;
  }

  lemma FailedMapping(sys: Sys, pid: nat, c: FrameNo, image: Word, size: Word, hs: seq<Phdr>, stack: Word)
    requires pid < |sys.procs| && MapLoaded(sys, pid, c, image, size, hs, stack).procs[pid].None?
    ensures MapMemory(sys.ph.ram, DirFrame(sys.ph.ram, c), image, hs, stack).1 < 0
  {
    hide MapMemory;
  }

  /** In particular loading a process whose image fits and whose writeable headers stay
      inside it. */
  lemma LoadKeepsIsolation(sys: Sys, pid: nat, file: File, hs: seq<Phdr>)
    requires Isolated(sys) && LoadRoom(sys, pid, file) && forall h | h in hs :: WritesInside(|file|, h)
    ensures var next := LoadStep(sys, pid, file, hs);
            OthersUntouched(sys, next, pid) && (Fits(sys.ph.heap, Blocks(|file|)) ==> Isolated(next))
  {
    hide WellFormed, Live, Isolated, ZeroedAlloc, ElfLoad, NewDirectory, Serveable, Fits, HasRoom, WritesHome,
      WritesInside, HeaderOk, LoadStep, SameParts, Blocks, Fresh;
    LoadIsolationIff(sys, pid, file, hs);
    LoadPrepares(sys, pid, file);
    ElfLoadKeepsIsolation(sys, file);
    var image := ElfLoad(sys.ph, file);
    var stack := ZeroedAlloc(image.0, STACK_SIZE);
    if image.1 != 0 && stack.1 != 0 {
      var d := NewDirectory(stack.0, READ_ONLY);
      FreshImage(WithPhys(sys, d.0), d.1, image.1, |file|, stack.1);
      InsideIsHome(image.1, |file|, stack.1, hs);
    }
  }

  lemma FreshImage(sys: Sys, c: FrameNo, image: Word, size: Word, stack: Word)
    requires Fresh(sys, c, image, size, stack)
    ensures image % PAGE_SIZE == 0 && Pfn(image) < FIRST_FRAME + HEAP_BLOCKS
    ensures image != 0 ==> FIRST_FRAME <= Pfn(image) && Pfn(image) + Blocks(size) <= FIRST_FRAME + HEAP_BLOCKS
  {
    if image != 0 {
      LiveBounds(sys.ph.heap, Pfn(image) - FIRST_FRAME);
    }
  }

  // ---------------------------------------------- a header that is too long

  /** A .bss of five pages behind a file of one page: p_filesz is 4096, p_memsz 24576. */
  const LARGE_BSS := Phdr(0, PROGRAM_BASE, 24576, true)

  /** Wherever heap blocks lie, six pages do not fit one image block and four stack blocks. */
  lemma BssLeavesHome(image: Word, stack: Word)
    requires image % PAGE_SIZE == 0 && Pfn(image) < FIRST_FRAME + HEAP_BLOCKS
    ensures HeaderOk(image, LARGE_BSS) && !WritesHome(image, PAGE_SIZE, stack, [LARGE_BSS])
  {
    hide WritesHome, LastHeader, HeaderTarget;
    var v := Pfn(PROGRAM_BASE);
    BssPage(image, v);
    BssPage(image, v + 1);
    BssPage(image, v + 5);
    if WritesHome(image, PAGE_SIZE, stack, [LARGE_BSS]) {
      HomeAt(image, stack, [LARGE_BSS], v + 1);
      HomeAt(image, stack, [LARGE_BSS], v + 5);
    }
  }

  lemma BssPage(image: Word, q: FrameNo)
    requires image % PAGE_SIZE == 0 && Pfn(image) < FIRST_FRAME + HEAP_BLOCKS
    requires Pfn(PROGRAM_BASE) <= q < Pfn(PROGRAM_BASE) + 6
    ensures HeaderOk(image, LARGE_BSS) && !InStack(q)
    ensures LastHeader(image, [LARGE_BSS], q) == Some(LARGE_BSS)
    ensures HeaderTarget(image, LARGE_BSS, q) == Pfn(image) + q - Pfn(PROGRAM_BASE)
  {
    hide AlignUp, LowerPage, HeaderTarget, HeaderOk, InHeader, HeaderEntry;
    assert Loadable(image, LARGE_BSS) && image == FrameAddress(Pfn(image));
    HeaderCovers(image, LARGE_BSS, FrameAddress(q));
    assert Pfn(FrameAddress(q)) == q && [LARGE_BSS][1..] == [];
    HeaderFrame(image, LARGE_BSS, q);
    TargetOfEntry(image, LARGE_BSS, q);
  }

  lemma HomeAt(image: Word, stack: Word, hs: seq<Phdr>, q: FrameNo)
    requires WritesHome(image, PAGE_SIZE, stack, hs) && !InStack(q)
    requires LastHeader(image, hs, q).Some? && LastHeader(image, hs, q).value.writeable
    ensures var f := HeaderTarget(image, LastHeader(image, hs, q).value, q);
            f == Pfn(image) || Pfn(stack) <= f < Pfn(stack) + 4
  {
    assert Blocks(PAGE_SIZE) == 1 && Blocks(STACK_SIZE) == 4;
  }

  /** Whatever the system and the file of one page, loading it, where it succeeds, breaks
      isolation. */
  lemma LargeBssBreaksIsolation(sys: Sys, pid: nat, file: File)
    requires |file| == PAGE_SIZE && Isolated(sys) && LoadRoom(sys, pid, file)
    ensures Isolated(LoadStep(sys, pid, file, [LARGE_BSS]))
            <==> LoadStep(sys, pid, file, [LARGE_BSS]).procs[pid].None?
  {
    hide WellFormed, Live, Isolated, ZeroedAlloc, NewDirectory, Serveable, HasRoom, WritesHome, HeaderOk, SameParts,
      Blocks, Fresh, MapMemory, Mapped, PageEntry, ElfLoad;
    LoadIsolationIff(sys, pid, file, [LARGE_BSS]);
    LoadPrepares(sys, pid, file);
    var image := ElfLoad(sys.ph, file);
    var stack := ZeroedAlloc(image.0, STACK_SIZE);
    if stack.1 != 0 {
      var d := NewDirectory(stack.0, READ_ONLY);
      FreshImage(WithPhys(sys, d.0), d.1, image.1, PAGE_SIZE, stack.1);
      BlocksIsCeiling(PAGE_SIZE);
      BssLeavesHome(image.1, stack.1);
      MappingSucceeds(WithPhys(sys, d.0), d.1, image.1, PAGE_SIZE, [LARGE_BSS], stack.1);
    }
  }

  lemma MappingSucceeds(sys: Sys, c: FrameNo, image: Word, size: Word, hs: seq<Phdr>, stack: Word)
    requires Fresh(sys, c, image, size, stack) && forall h | h in hs :: HeaderOk(image, h)
    ensures MapMemory(sys.ph.ram, DirFrame(sys.ph.ram, c), image, hs, stack).1 == 0
  {
    hide Live, WellFormed, MapMemory, HeaderOk, Separate, PageEntry, Mapped, OnlyTables;
    FreshBounds(sys, c, image, size, stack);
    LoadedMappedIff(sys.ph.ram, c, image, size, hs, stack);
  }

  lemma AgreeUntouched(sys: Sys, ph: Phys, pid: nat)
    requires AllPartsSame(sys, ph) || ph == sys.ph
    ensures OthersUntouched(sys, WithPhys(sys, ph), pid)
  {
  }

  // --------------------------------------------------------------- exiting

  function RegionBlocks(rs: seq<Region>): seq<int> {
    seq(|rs|, i requires 0 <= i < |rs| => rs[i].block)
  }

  /** The memory part of process_terminate: allocations, image, stack, page directory. */
  ghost function ExitStep(sys: Sys, pid: nat): Sys
    requires Active(sys, pid)
  {
    var t := TerminateStep(sys, pid);
    var p := t.procs[pid].value;
    var m := FreeBlocks(t.ph.heap, RegionBlocks(p.regions));
    WithMember(WithPhys(t, Phys(FreeDirectory(m, t.ph.ram, p.chunk), t.ph.ram)), pid, None)
  }

  ghost predicate OwnedBy(sys: Sys, pid: nat, b: int) {
    exists u: Use :: Valid(sys, u) && u.pid == pid && BlockOf(sys, u) == b
  }

  /** A process without allocations: dropping it and freeing its regions and directory. */
  lemma ReleaseProcess(sys: Sys, pid: nat)
    requires Isolated(sys) && Active(sys, pid) && forall i: Slot :: sys.procs[pid].value.allocs[i].ptr == 0
    ensures var p := sys.procs[pid].value;
            var ts := RegionBlocks(p.regions) + PartBlocks(sys.ph.ram, p.chunk);
            && Distinct(ts) && (forall b | b in ts :: b in Live(sys.ph.heap))
            && AllUnowned(WithMember(sys, pid, None), ts)
            && (forall b :: b in ts <==> OwnedBy(sys, pid, b))
  {
    hide WellFormed, Live, PartBlocks, PageEntry, PartFrame, Mapped, Blocks;
    DropKeepsIsolation(sys, pid);
    var p := sys.procs[pid].value;
    var rs, ps := RegionBlocks(p.regions), PartBlocks(sys.ph.ram, p.chunk);
    PartBlocksLength(sys.ph.ram, p.chunk);
    forall i | 0 <= i < |rs + ps|
      ensures Valid(sys, UseAt(pid, |rs|, i)) && BlockOf(sys, UseAt(pid, |rs|, i)) == (rs + ps)[i] {
      if i >= |rs| {
        PartFrameIsPart(sys.ph.ram, p.chunk, i - |rs|);
      }
    }
    forall b | OwnedBy(sys, pid, b) ensures b in rs + ps {
      var u: Use :| Valid(sys, u) && u.pid == pid && BlockOf(sys, u) == b;
      match u
      case PartOf(_, part) => PartFrameIsPart(sys.ph.ram, p.chunk, part);
      case RegionOf(_, region) => assert rs[region] == b;
      case AllocOf(_, slot) =>
    }
  }

  /** The i-th holder among k regions and then the parts. */
  function UseAt(pid: nat, k: nat, i: nat): Use {
    if i < k then RegionOf(pid, i) else PartOf(pid, i - k)
  }

  lemma {:induction false} FreeBlocksConcat(m: Map, a: seq<int>, b: seq<int>)
    ensures FreeBlocks(m, a + b) == FreeBlocks(FreeBlocks(m, a), b)
    decreases |a|
  {
    if a == [] {
      assert a + b == b;
    } else {
      assert (a + b)[1..] == a[1..] + b;
      FreeBlocksConcat(MarkFree(m, a[0]), a[1..], b);
    }
  }

  /** A process without new allocations, but for one at another block, holds nothing new. */
  lemma OwnsNoMore(sys: Sys, t: Sys, pid: nat, b: int)
    requires Active(sys, pid) && Active(t, pid)
    requires var p, q := sys.procs[pid].value, t.procs[pid].value;
             && q.chunk == p.chunk && q.regions == p.regions
             && PartBlocks(t.ph.ram, p.chunk) == PartBlocks(sys.ph.ram, p.chunk)
             && forall j: Slot ::
                  q.allocs[j] == p.allocs[j] || q.allocs[j].ptr == 0 || Pfn(q.allocs[j].ptr) - FIRST_FRAME != b
    ensures OwnedBy(t, pid, b) ==> OwnedBy(sys, pid, b)
  {
    hide PartBlocks, PageEntry, PartFrame;
    var c := sys.procs[pid].value.chunk;
    forall i: nat | i < PAGES_PER_TABLE + 2 ensures PartFrame(t.ph.ram, c, i) == PartFrame(sys.ph.ram, c, i) {
      PartFrameIsPart(t.ph.ram, c, i);
      PartFrameIsPart(sys.ph.ram, c, i);
    }
    if OwnedBy(t, pid, b) {
      var u: Use :| Valid(t, u) && u.pid == pid && BlockOf(t, u) == b;
      assert Valid(sys, u) && BlockOf(sys, u) == b;
    }
  }

  lemma OwnershipSplit(sys: Sys, t: Sys, pid: nat, b: int)
    requires Active(sys, pid) && Emptied(sys, t, pid, 0)
    ensures OwnedBy(sys, pid, b) <==> b in AllocBlocks(sys.procs[pid].value.allocs, 0) || OwnedBy(t, pid, b)
  {
    hide WellFormed, Live, PartBlocks, PageEntry, PartFrame, Isolated, OthersUntouched;
    var c := sys.procs[pid].value.chunk;
    forall i: nat | i < PAGES_PER_TABLE + 2 ensures PartFrame(t.ph.ram, c, i) == PartFrame(sys.ph.ram, c, i) {
      PartFrameIsPart(t.ph.ram, c, i);
      PartFrameIsPart(sys.ph.ram, c, i);
    }
    if OwnedBy(sys, pid, b) {
      var u: Use :| Valid(sys, u) && u.pid == pid && BlockOf(sys, u) == b;
      assert !u.AllocOf? ==> Valid(t, u) && BlockOf(t, u) == b;
    }
    OwnsNoMore(sys, t, pid, b);
    if b in AllocBlocks(sys.procs[pid].value.allocs, 0) {
      var j :| 0 <= j < MAX_ALLOCATIONS && sys.procs[pid].value.allocs[j].ptr != 0
               && Pfn(sys.procs[pid].value.allocs[j].ptr) - FIRST_FRAME == b;
      assert Valid(sys, AllocOf(pid, j)) && BlockOf(sys, AllocOf(pid, j)) == b;
    }
  }

  /** A terminating process gives back exactly the chains it held; nobody else is affected. */
  lemma ExitConserves(sys: Sys, pid: nat)
    requires Isolated(sys) && Active(sys, pid)
    ensures var next := ExitStep(sys, pid);
            && Isolated(next) && OthersUntouched(sys, next, pid) && next.procs[pid].None?
            && |next.ph.heap| == |sys.ph.heap|
            && (forall b :: b in Live(next.ph.heap) <==> b in Live(sys.ph.heap) && !OwnedBy(sys, pid, b))
            && (forall b :: b in Live(next.ph.heap) ==> Live(next.ph.heap)[b] == Live(sys.ph.heap)[b])
  {
    hide WellFormed, Live, PartBlocks, PageEntry, PartFrame, Isolated, SameParts, TerminateStep, FreeBlocks, OwnedBy,
      Unowned, Distinct, AllocBlocks;
    TerminateConserves(sys, pid);
    var t := TerminateStep(sys, pid);
    var p := t.procs[pid].value;
    ReleaseProcess(t, pid);
    var rs, ps := RegionBlocks(p.regions), PartBlocks(t.ph.ram, p.chunk);
    var dropped := WithMember(t, pid, None);
    DropKeepsIsolation(t, pid);
    ReleaseManyKeepsIsolation(dropped, rs + ps);
    FreeBlocksConcat(t.ph.heap, rs, ps);
    var next := ExitStep(sys, pid);
    assert next == WithPhys(dropped, Phys(FreeBlocks(t.ph.heap, rs + ps), t.ph.ram));
    AgreeUntouched(dropped, next.ph, pid);
    UntouchedChain(t, dropped, next, pid) by {
      DroppedUntouched(t, pid);
    }
    UntouchedChain(sys, t, next, pid);
    forall b ensures OwnedBy(sys, pid, b) <==> b in AllocBlocks(sys.procs[pid].value.allocs, 0) || OwnedBy(t, pid, b) {
      OwnershipSplit(sys, t, pid, b);
    }
  }

  lemma DroppedUntouched(t: Sys, pid: nat)
    requires Active(t, pid)
    ensures OthersUntouched(t, WithMember(t, pid, None), pid)
  {
  }

  // -------------------------------------------------- load, then terminate

  lemma MapLoadedProc(sys: Sys, pid: nat, c: FrameNo, image: Word, size: Word, hs: seq<Phdr>, stack: Word)
    requires Fresh(sys, c, image, size, stack) && pid < |sys.procs|
    ensures var next := MapLoaded(sys, pid, c, image, size, hs, stack);
            sys.procs[pid].None? && next.procs[pid].Some? ==>
              && next.ph.heap == sys.ph.heap && next.procs[pid] == Some(Loaded(c, image, size, stack))
              && PartBlocks(next.ph.ram, c) == PartBlocks(sys.ph.ram, c)
  {
    hide WellFormed, Live, PartBlocks, PageEntry, PartFrame, Mapped, MapMemory, Separate, OnlyTables, Blocks,
      Isolated, FreeDirectory, Distinct, Unowned, HeaderOk, WritesHome;
    FreshBounds(sys, c, image, size, stack);
    LoadedMappedIff(sys.ph.ram, c, image, size, hs, stack);
    PartBlocksKept(sys.ph.ram, MapMemory(sys.ph.ram, DirFrame(sys.ph.ram, c), image, hs, stack).0, c);
  }

  /** What a freshly loaded process holds. */
  lemma LoadedOwns(sys: Sys, pid: nat, c: FrameNo, image: Word, size: Word, stack: Word, b: int)
    requires pid < |sys.procs| && sys.procs[pid] == Some(Loaded(c, image, size, stack)) && stack != 0
    ensures OwnedBy(sys, pid, b) <==>
              b in ChainsAt(image, size) || b in ChainsAt(stack, STACK_SIZE) || b in PartBlocks(sys.ph.ram, c)
  {
    hide PartBlocks, PartFrame, Blocks;
    var parts := PartBlocks(sys.ph.ram, c);
    PartBlocksLength(sys.ph.ram, c);
    forall i: nat | i < PAGES_PER_TABLE + 2 ensures parts[i] == BlockOf(sys, PartOf(pid, i)) && parts[i] in parts {
      PartFrameIsPart(sys.ph.ram, c, i);
    }
    assert Valid(sys, RegionOf(pid, 0)) && BlockOf(sys, RegionOf(pid, 0)) == Pfn(stack) - FIRST_FRAME;
    assert image != 0 ==> Valid(sys, RegionOf(pid, 1)) && BlockOf(sys, RegionOf(pid, 1)) == Pfn(image) - FIRST_FRAME;
    if b in parts {
      var i :| 0 <= i < |parts| && parts[i] == b;
      assert Valid(sys, PartOf(pid, i));
    }
    if OwnedBy(sys, pid, b) {
      var u: Use :| Valid(sys, u) && u.pid == pid && BlockOf(sys, u) == b;
      if u.RegionOf? {
        assert u.region == 0 || u.region == 1;
      }
    }
  }

  /** Loading a process and terminating it restores the heap map byte for byte. */
  lemma LoadThenExit(sys: Sys, pid: nat, file: File, hs: seq<Phdr>)
    requires Isolated(sys) && LoadLegal(sys, pid, file, hs)
    ensures var next := LoadStep(sys, pid, file, hs);
            Active(next, pid) ==> ExitStep(next, pid).ph.heap == sys.ph.heap
  {
    hide WellFormed, Live, PageEntry, Mapped, Blocks, Isolated, ZeroedAlloc, ElfLoad, NewDirectory, Serveable,
      PartFrame, PartBlocks, HasRoom, LoadSafe, MapLoaded, Fresh, SameParts, ExitStep, OwnedBy, OthersUntouched;
    var next := LoadStep(sys, pid, file, hs);
    if Active(next, pid) {
      LoadPrepares(sys, pid, file);
      LoadIsolationIff(sys, pid, file, hs);
      var image := ElfLoad(sys.ph, file);
      var stack := ZeroedAlloc(image.0, STACK_SIZE);
      var d := NewDirectory(stack.0, READ_ONLY);
      MapLoadedProc(WithPhys(sys, d.0), pid, d.1, image.1, |file|, hs, stack.1);
      ExitConserves(next, pid);
      var added := ChainsAt(image.1, |file|) + ChainsAt(stack.1, STACK_SIZE) + Ones(PartBlocks(d.0.ram, d.1));
      forall b ensures OwnedBy(next, pid, b) <==> b in added {
        LoadedOwns(next, pid, d.1, image.1, |file|, stack.1, b);
      }
      SameLiveAfter(sys, d.0, d.1, image.1, |file|, stack.1, ExitStep(next, pid));
    }
  }

  lemma SameLiveAfter(sys: Sys, r: Phys, c: FrameNo, image: Word, size: Word, stack: Word, next: Sys)
    requires Isolated(sys) && Isolated(next) && |next.ph.heap| == |sys.ph.heap|
    requires LoadedHeap(sys.ph.heap, r, c, image, size, stack)
    requires var added := ChainsAt(image, size) + ChainsAt(stack, STACK_SIZE) + Ones(PartBlocks(r.ram, c));
             forall b :: b in Live(next.ph.heap) <==> b in Live(r.heap) && b !in added
    requires forall b :: b in Live(next.ph.heap) ==> Live(next.ph.heap)[b] == Live(r.heap)[b]
    ensures next.ph.heap == sys.ph.heap
  {
    hide WellFormed, Live, PartBlocks, Mapped, ChainsAt, Ones;
    var l, l' := Live(sys.ph.heap), Live(next.ph.heap);
    forall b ensures b in l' <==> b in l
             ensures b in l ==> l'[b] == l[b] {
      assert b in Live(r.heap) ==> b in l || b in Live(r.heap) - l.Keys;
    }
    assert l' == l;
    ChainsDetermineMap(next.ph.heap, sys.ph.heap);
  }
}
