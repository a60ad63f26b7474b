/** What a loaded process finds in memory: its file, at the addresses of its program headers
    (src/loader/Elfloader.c, src/process/Process.c). */
module LoadedFile {
  import opened Machine
  import opened Bytes
  import opened Heap
  import opened Paging
  import opened Directory
  import opened ElfMap
  import opened Isolation
  import opened Steps
  import opened Process
  import opened System
  import opened Contents

  // ---------------------------------------------------- the image in memory

  /** Image memory after elf_load: the file, and behind it what was there before. */
  lemma ImageBytes(sys: Sys, file: File, x: Word)
    requires Isolated(sys) && Serveable(sys.ph.heap, |file|) && Fits(sys.ph.heap, Blocks(|file|)) && Blocks(|file|) >= 1
    ensures var (r, base) := ElfLoad(sys.ph, file);
            GetByte(r.ram, x) == if base <= x < base + |file| then file[x - base] else GetByte(sys.ph.ram, x)
  {
    hide WellFormed, Live, Mapped, UsesLive, UsesApart, Fits, ZeroedAlloc, Serveable, Overlay, MapAfterRead,
      GetByte, Blocks;
    AllocatedBytes(sys.ph, |file|, x);
    NullIffFull(sys, |file|);
    AllocKeepsIsolation(sys, |file|);
    var (r, ptr) := ZeroedAlloc(sys.ph, |file|);
    OverlayExact(r.ram, Wrap(ptr), file, x);
  }

  /** Nothing that loading does after the read touches the frames of the image. */
  lemma ImageKept(sys: Sys, pid: nat, file: File, hs: seq<Phdr>, f: FrameNo)
    requires Isolated(sys) && LoadRoom(sys, pid, file) && Fits(sys.ph.heap, Blocks(|file|))
    requires var base := ElfLoad(sys.ph, file).1; Pfn(base) <= f < Pfn(base) + Blocks(|file|)
    ensures LoadStep(sys, pid, file, hs).ph.ram[f] == ElfLoad(sys.ph, file).0.ram[f]
  {
    hide WellFormed, Live, Isolated, ZeroedAlloc, ElfLoad, NewDirectory, Serveable, NewSpace, MapMemory,
      FreeDirectory, Blocks, FreeSet, PartBlocks, AllPartsSame, OwnedBy, Fits, Unowned;
    ElfLoadKeepsIsolation(sys, file);
    var image := ElfLoad(sys.ph, file);
    var s1, b := WithPhys(sys, image.0), Pfn(image.1) - FIRST_FRAME;
    UnownedIsApart(s1, pid, b, f);
    assert Blocks(STACK_SIZE) >= 1 by { BlocksIsCeiling(STACK_SIZE); }
    AllocKeepsApart(s1, pid, STACK_SIZE, b, f);
    var stack := ZeroedAlloc(image.0, STACK_SIZE);
    if stack.1 != 0 {
      DirectoryKeepsIsolation(WithPhys(s1, stack.0), READ_ONLY);
      var d := NewDirectory(stack.0, READ_ONLY);
      SpaceKeepsApart(stack.0, d.0, d.1, image.1, hs, Wrap(stack.1), b, f);
    }
  }

  // ------------------------------------------------ the file at its addresses

  /** Headers that lie in the blocks of the image and can all be translated: congruent,
      agreeing on shared pages, and with the stack on its pages. */
  ghost predicate WellPlacedHeaders(image: Word, size: Word, hs: seq<Phdr>, stack: Word) {
    && (forall h | h in hs :: Loadable(image, h) && 0 <= h.offset && h.offset + h.memsz <= Blocks(size) * PAGE_SIZE)
    && Compatible(image, hs) && AgreesWithStack(image, hs, stack)
  }

  /** With such headers loading succeeds if the stack fits; and where the addresses lead. */
  lemma LoadedTranslation(sys: Sys, pid: nat, file: File, hs: seq<Phdr>)
    requires Isolated(sys) && LoadRoom(sys, pid, file)
    requires var image := ElfLoad(sys.ph, file);
             WellPlacedHeaders(image.1, |file|, hs, Wrap(ZeroedAlloc(image.0, STACK_SIZE).1))
    ensures var next := LoadStep(sys, pid, file, hs);
            && (Active(next, pid) <==> ZeroedAlloc(ElfLoad(sys.ph, file).0, STACK_SIZE).1 != 0)
            && (Active(next, pid) ==>
                  Translated(next.ph.ram, next.procs[pid].value.chunk, ElfLoad(sys.ph, file).1, hs))
  {
    hide WellFormed, Live, Isolated, ZeroedAlloc, ElfLoad, NewDirectory, Serveable, FreeDirectory, Blocks, PartBlocks,
      AllPartsSame, OwnedBy, Fits, Unowned, Compatible, Loadable, AgreesWithStack, Translated, HasRoom, MapMemory,
      Separate, PageEntry, LoadedHeap, Mapped;
    LoadPrepares(sys, pid, file);
    var image := ElfLoad(sys.ph, file);
    var stack := ZeroedAlloc(image.0, STACK_SIZE);
    if stack.1 != 0 {
      var d := NewDirectory(stack.0, READ_ONLY);
      StackBelowTop(WithPhys(sys, d.0), d.1, image.1, |file|, stack.1);
      ImageTranslation(d.0.ram, d.1, image.1, hs, stack.1);
    }
  }

  lemma StackBelowTop(sys: Sys, c: FrameNo, image: Word, size: Word, stack: Word)
    requires Fresh(sys, c, image, size, stack)
    ensures Separate(sys.ph.ram, c) && image % PAGE_SIZE == 0
    ensures stack % PAGE_SIZE == 0 && stack + STACK_SIZE <= 0xFFFF_F000
  {
    hide Live, WellFormed, Mapped, Separate, PageEntry, PartBlocks;
    FreshBounds(sys, c, image, size, stack);
    assert Blocks(STACK_SIZE) == 4;
  }

  /** What a loaded process may do: read every page, and write its stack and the pages whose
      last header is writeable. */
  lemma AccessAfterLoad(sys: Sys, pid: nat, file: File, hs: seq<Phdr>, v: FrameNo)
    requires Isolated(sys) && LoadRoom(sys, pid, file)
    ensures var next := LoadStep(sys, pid, file, hs);
            Active(next, pid) ==>
              var c := next.procs[pid].value.chunk;
              && CanRead(next.ph.ram, c, v)
              && (CanWrite(next.ph.ram, c, v) <==> InStack(v) || OpenPage(ElfLoad(sys.ph, file).1, hs, v))
  {
    hide WellFormed, Live, Isolated, ZeroedAlloc, ElfLoad, NewDirectory, Serveable, FreeDirectory, Blocks, PartBlocks,
      AllPartsSame, OwnedBy, Fits, Unowned, HasRoom, MapMemory, Separate, PageEntry, LoadedHeap, Mapped, CanRead,
      CanWrite, InStack, OpenPage, DirEntry, OpenDirectory;
    LoadPrepares(sys, pid, file);
    var image := ElfLoad(sys.ph, file);
    var stack := ZeroedAlloc(image.0, STACK_SIZE);
    if stack.1 != 0 {
      var d := NewDirectory(stack.0, READ_ONLY);
      FreshBounds(WithPhys(sys, d.0), d.1, image.1, |file|, stack.1);
      LoadedAccess(d.0.ram, d.1, image.1, |file|, hs, stack.1, v);
      MapResult(d.0.ram, d.1, image.1, hs, stack.1);
    }
  }

  /** The stack of a loaded process is zero, all 16 KB of it. */
  lemma StackIsZero(sys: Sys, pid: nat, file: File, hs: seq<Phdr>, v: Word)
    requires Isolated(sys) && LoadRoom(sys, pid, file) && STACK_BASE <= v < STACK_BASE + STACK_SIZE
    ensures var next := LoadStep(sys, pid, file, hs);
            Active(next, pid) ==>
              GetByte(next.ph.ram, Translate(next.ph.ram, DirFrame(next.ph.ram, next.procs[pid].value.chunk), v)) == 0
  {
    hide WellFormed, Live, Isolated, ZeroedAlloc, ElfLoad, NewDirectory, Serveable, FreeDirectory, Blocks, PartBlocks,
      AllPartsSame, OwnedBy, Fits, Unowned, MapMemory, Separate, PageEntry, LoadedHeap, Mapped, Translate, GetByte,
      NewSpace, FreeSet;
    LoadPrepares(sys, pid, file);
    ElfLoadKeepsIsolation(sys, file);
    var image := ElfLoad(sys.ph, file);
    var s1 := WithPhys(sys, image.0);
    var stack := ZeroedAlloc(image.0, STACK_SIZE);
    if stack.1 != 0 {
      var d := NewDirectory(stack.0, READ_ONLY);
      StackBelowTop(WithPhys(sys, d.0), d.1, image.1, |file|, stack.1);
      var x: Word := stack.1 + (v - STACK_BASE);
      assert Blocks(STACK_SIZE) >= 1 by { BlocksIsCeiling(STACK_SIZE); }
      AllocatedBytesOf(s1, STACK_SIZE, x);
      InNewChain(s1, STACK_SIZE, x);
      AllocKeepsIsolation(s1, STACK_SIZE);
      DirectoryKeepsIsolation(WithPhys(s1, stack.0), READ_ONLY);
      SpaceKeepsApart(stack.0, d.0, d.1, image.1, hs, stack.1, Pfn(stack.1) - FIRST_FRAME, Pfn(x));
      StackTranslation(sys, d.0, d.1, image.1, |file|, hs, stack.1, v);
      MapResult(d.0.ram, d.1, image.1, hs, stack.1);
      SameFrameByte(stack.0.ram, MapMemory(d.0.ram, DirFrame(d.0.ram, d.1), image.1, hs, stack.1).0, x);
    }
  }

  lemma StackTranslation(sys: Sys, r: Phys, c: FrameNo, image: Word, size: Word, hs: seq<Phdr>, stack: Word, v: Word)
    requires Fresh(WithPhys(sys, r), c, image, size, stack) && STACK_BASE <= v < STACK_BASE + STACK_SIZE
    ensures var (m, res) := MapMemory(r.ram, DirFrame(r.ram, c), image, hs, stack);
            res == 0 ==> Translate(m, DirFrame(m, c), v) == stack + (v - STACK_BASE)
  {
    hide WellFormed, Live, Mapped, PageEntry, PartBlocks, Separate, MapMemory, Translate, HeaderOk;
    StackBelowTop(WithPhys(sys, r), c, image, size, stack);
    var (m, res) := MapMemory(r.ram, DirFrame(r.ram, c), image, hs, stack);
    FreshBounds(WithPhys(sys, r), c, image, size, stack);
    LoadedMappedIff(r.ram, c, image, size, hs, stack);
    if res == 0 {
      StackStays(r.ram, c, image, hs, stack);
      GetIsPageEntry(m, c, v);
    }
  }

  /** A loaded process finds, at every address of every header, the byte of its file that the
      header names; behind the end of the file (as in a .bss) nothing has been cleared: it
      finds what the heap block held before. */
  lemma FileAtItsAddresses(sys: Sys, pid: nat, file: File, hs: seq<Phdr>)
    requires Isolated(sys) && LoadRoom(sys, pid, file) && Fits(sys.ph.heap, Blocks(|file|))
    requires var image := ElfLoad(sys.ph, file);
             WellPlacedHeaders(image.1, |file|, hs, Wrap(ZeroedAlloc(image.0, STACK_SIZE).1))
    ensures Active(LoadStep(sys, pid, file, hs), pid) <==> ZeroedAlloc(ElfLoad(sys.ph, file).0, STACK_SIZE).1 != 0
    ensures var next := LoadStep(sys, pid, file, hs);
            Active(next, pid) ==>
              forall h, v: Word | h in hs && h.vaddr <= v < h.vaddr + h.memsz ::
                var directory := DirFrame(next.ph.ram, next.procs[pid].value.chunk);
                var k := h.offset + (v - h.vaddr);
                GetByte(next.ph.ram, Translate(next.ph.ram, directory, v))
                == if k < |file| then file[k] else GetByte(sys.ph.ram, Wrap(ElfLoad(sys.ph, file).1 + k))
  {
    hide WellFormed, Live, Isolated, ZeroedAlloc, ElfLoad, Serveable, Blocks, LoadStep, Fits, GetByte, Translate,
      Compatible, AgreesWithStack, HasRoom, AllPartsSame, Unowned;
    LoadedTranslation(sys, pid, file, hs);
    ElfLoadKeepsIsolation(sys, file);
    var next, base := LoadStep(sys, pid, file, hs), ElfLoad(sys.ph, file).1;
    if Active(next, pid) {
      forall h, v: Word | h in hs && h.vaddr <= v < h.vaddr + h.memsz
        ensures var x := base + h.offset + (v - h.vaddr);
                Translate(next.ph.ram, DirFrame(next.ph.ram, next.procs[pid].value.chunk), v) == x
                && GetByte(next.ph.ram, x)
                   == if x - base < |file| then file[x - base] else GetByte(sys.ph.ram, x) {
        var x: Word := base + h.offset + (v - h.vaddr);
        assert Pfn(base) <= Pfn(x) < Pfn(base) + Blocks(|file|);
        ImageKept(sys, pid, file, hs, Pfn(x));
        SameFrameByte(ElfLoad(sys.ph, file).0.ram, next.ph.ram, x);
        ImageBytes(sys, file, x);
      }
    }
  }
}
