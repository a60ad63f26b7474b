/** A load whose image does not fit: elf_load does not test the address it gets, so the file
    is taken to lie at physical address 0 (src/loader/Elfloader.c). */
module NullImage {
  import opened Machine
  import opened Bytes
  import opened Heap
  import opened Paging
  import opened Directory
  import opened ElfMap
  import opened Isolation
  import opened Steps
  import opened Process
  import opened System

  /** An image that does not fit is read to address 0. Where it ends in front of the heap map,
      loading keeps isolation if and only if there is no room for the stack either, a header
      wraps, or all writeable pages lead into the stack. */
  lemma NullImageIff(sys: Sys, pid: nat, file: File, hs: seq<Phdr>)
    requires Isolated(sys) && LoadRoom(sys, pid, file) && !Fits(sys.ph.heap, Blocks(|file|))
    ensures var stack := AfterMalloc(sys.ph.heap, STACK_SIZE).1;
            Isolated(LoadStep(sys, pid, file, hs)) <==>
              (Fits(sys.ph.heap, Blocks(STACK_SIZE)) && (forall h | h in hs :: HeaderOk(0, h)) ==>
                 forall q: FrameNo :: OpenPage(0, hs, q) ==>
                   InRegion(RegionAt(Wrap(stack), STACK_SIZE), HeaderTarget(0, LastHeader(0, hs, q).value, q)))
  {
    hide WellFormed, Live, Isolated, ElfLoad, Serveable, Fits, HeaderOk, LoadStep, Blocks, LastHeader, HeaderTarget,
      InStack, AfterMalloc, AllPartsSame, Zeroed;
    LoadIsolationIff(sys, pid, file, hs);
    ElfLoadKeepsIsolation(sys, file);
    assert Blocks(STACK_SIZE) >= 1 by { BlocksIsCeiling(STACK_SIZE); }
    NullIffFull(sys, STACK_SIZE);
    var stack := Wrap(AfterMalloc(sys.ph.heap, STACK_SIZE).1);
    assert forall f: FrameNo ::
        InRegions(HomeRegions(0, |file|, stack), f) <==> InRegion(RegionAt(stack, STACK_SIZE), f) by {
      assert HomeRegions(0, |file|, stack)[0] == RegionAt(stack, STACK_SIZE);
    }
  }

  /** If its headers stay inside such a file, a single writeable page outside the stack is one
      too many: it leads below the heap. */
  lemma NullImageInside(sys: Sys, pid: nat, file: File, hs: seq<Phdr>)
    requires Isolated(sys) && LoadRoom(sys, pid, file) && !Fits(sys.ph.heap, Blocks(|file|))
    requires forall h | h in hs :: WritesInside(|file|, h)
    ensures Isolated(LoadStep(sys, pid, file, hs)) <==>
              (Fits(sys.ph.heap, Blocks(STACK_SIZE)) && (forall h | h in hs :: HeaderOk(0, h)) ==>
                 forall q: FrameNo :: !OpenPage(0, hs, q))
  {
    hide WellFormed, Live, Isolated, ZeroedAlloc, Serveable, Fits, HeaderOk, LoadStep, Blocks, LastHeader,
      HeaderTarget, InStack, WritesInside, HasRoom, AfterMalloc;
    NullImageIff(sys, pid, file, hs);
    BlocksIsCeiling(|file|);
    if Fits(sys.ph.heap, Blocks(STACK_SIZE)) {
      var stack := Wrap(AfterMalloc(sys.ph.heap, STACK_SIZE).1);
      StackInHeap(sys);
      forall q: FrameNo | OpenPage(0, hs, q)
        ensures !InRegion(RegionAt(stack, STACK_SIZE), HeaderTarget(0, LastHeader(0, hs, q).value, q)) {
        TargetInside(0, |file|, hs, q);
      }
    }
  }

  lemma StackInHeap(sys: Sys)
    requires Isolated(sys) && Fits(sys.ph.heap, Blocks(STACK_SIZE))
    ensures FIRST_FRAME <= Pfn(Wrap(AfterMalloc(sys.ph.heap, STACK_SIZE).1))
  {
    hide WellFormed, Live, Fits, AfterMalloc, Mapped, UsesLive, UsesApart, StartBlock, MarkTaken;
    BlocksIsCeiling(STACK_SIZE);
    MallocOutcome(sys.ph.heap, STACK_SIZE);
    HeapPointer(AfterMalloc(sys.ph.heap, STACK_SIZE).1);
  }

  /** The heap map is part of memory: where it agreed with the bytes at 0x7E00 before a read, it
      does so afterwards, wherever the file goes. */
  lemma MapLiesInMemory(m: Map, ram: Ram, base: Word, file: File)
    requires |m| <= HEAP_BLOCKS && forall j | 0 <= j < |m| :: m[j] == GetByte(ram, 0x7E00 + j) as bv8
    ensures var r := MapAfterRead(m, base, file);
            |r| == |m| && forall j | 0 <= j < |m| :: r[j] == GetByte(Overlay(ram, base, file), 0x7E00 + j) as bv8
  {
    hide GetByte, Overlay;
    forall j | 0 <= j < |m|
      ensures MapAfterRead(m, base, file)[j] == GetByte(Overlay(ram, base, file), 0x7E00 + j) as bv8 {
      OverlayExact(ram, base, file, 0x7E00 + j);
    }
  }

  /** A longer file is read over the heap map: unless the byte it puts at the map's first entry
      has the low four bits of a free or a taken entry, the map is no list of chains any more. */
  lemma NullReadBreaksMap(m: Map, file: File)
    requires |m| > 0 && |file| > HEAP_MAP_BASE && file[HEAP_MAP_BASE] % 16 != 0 && file[HEAP_MAP_BASE] % 16 != 1
    ensures !WellFormed(MapAfterRead(m, 0, file))
  {
    var r := MapAfterRead(m, 0, file);
    var b := file[HEAP_MAP_BASE];
    assert r[0] == b as bv8;
    if WellFormed(r) {
      LowBits(b);
      assert r[0] != FREE;
      var s :| Covers(r, s, 0);
      LiveBounds(r, s);
    }
  }

  /** The low four bits of a byte as the map reads them. */
  lemma LowBits(b: Byte)
    requires b % 16 != 0 && b % 16 != 1
    ensures var e := b as bv8; e & 0x0F != FREE && e & 0x0F != TAKEN
  {
  }

  // ------------------------------------------------------------- an example

  /** A run of four free blocks, then taken and free ones in turn: room for a stack and a
      page directory, but not for five blocks in a row. */
  function CombedHeap(): (m: Map)
    ensures |m| == 2057
  {
    seq(2057, j => if j < 4 || j % 2 == 1 then FREE else ChainByte(0, 1))
  }

  /** The first page of a file of five pages, writeable. */
  const FIVE_PAGES: Word := 5 * PAGE_SIZE
  const ONE_PAGE := Phdr(0, PROGRAM_BASE, PAGE_SIZE, true)

  lemma CombedTaken(j: int)
    requires 4 <= j < 2057 && j % 2 == 0
    ensures !IsFree(CombedHeap()[j]) && Covers(CombedHeap(), j, j)
  {
    hide Live;
    var m := CombedHeap();
    assert m[j] == ChainByte(0, 1) && ChainAt(m, j, 1);
    LiveIsChains(m, j, 1);
  }

  lemma CombedMap()
    ensures KernelMap(CombedHeap()) && LastTaken(CombedHeap())
    ensures RunAt(CombedHeap(), 0, 4) && !Fits(CombedHeap(), 5)
  {
    hide Live, Covers;
    var m := CombedHeap();
    CombedTaken(2056);
    forall j | 0 <= j < |m| && m[j] != FREE ensures exists s :: Covers(m, s, j) {
      CombedTaken(j);
      assert Covers(m, j, j);
    }
    forall s ensures !RunAt(m, s, 5) {
      var j := if s < 4 then 4 else s + s % 2;
      if 0 <= s && s + 5 <= |m| {
        CombedTaken(j);
        assert s <= j < s + 5;
      }
    }
  }

  lemma CombedStart()
    ensures StartBlock(CombedHeap(), 4) == 0
  {
    hide CombedHeap, StartBlock;
    CombedMap();
    FirstFit(CombedHeap(), 4);
  }

  lemma CombedFree(j: int)
    ensures j in FreeSet(MarkTaken(CombedHeap(), 0, 4)) <==> 5 <= j < 2057 && j % 2 == 1
  {
    var m := MarkTaken(CombedHeap(), 0, 4);
    if 0 <= j < |m| {
      assert m[j] == if j < 4 then ChainByte(j, 4) else if j % 2 == 1 then FREE else ChainByte(0, 1);
    }
  }

  lemma {:induction false} OddCount(s: set<int>, a: int, n: nat)
    requires a % 2 == 1 && forall j :: j in s <==> a <= j < a + 2 * n && j % 2 == 1
    ensures |s| == n
    decreases n
  {
    if n == 0 {
      assert forall j :: j !in s;
      assert s == {};
    } else {
      OddCount(s - {a}, a + 2, n - 1);
      assert s == (s - {a}) + {a};
    }
  }

  lemma CombedStack(ram: Ram)
    ensures var r := ZeroedAlloc(Phys(CombedHeap(), ram), STACK_SIZE).0; |FreeSet(r.heap)| == PAGES_PER_TABLE + 2
  {
    hide Zeroed, Blocks, CombedHeap, StartBlock, MarkTaken, FreeSet;
    assert Blocks(STACK_SIZE) == 4 by { BlocksIsCeiling(STACK_SIZE); }
    CombedStart();
    var free := FreeSet(MarkTaken(CombedHeap(), 0, 4));
    forall j ensures j in free <==> 5 <= j < 5 + 2 * 1026 && j % 2 == 1 {
      CombedFree(j);
    }
    OddCount(free, 5, 1026);
  }

  lemma CombedRoom(ram: Ram, file: File)
    requires |file| == FIVE_PAGES
    ensures var sys := Sys(Phys(CombedHeap(), ram), [None]);
            && Isolated(sys) && LoadRoom(sys, 0, file)
            && !Fits(sys.ph.heap, Blocks(FIVE_PAGES)) && Fits(sys.ph.heap, Blocks(STACK_SIZE))
  {
    hide Blocks, Zeroed, WellFormed, CombedHeap, FreeSet, LastTaken, ElfLoad, AllPartsSame;
    var sys := Sys(Phys(CombedHeap(), ram), [None]);
    CombedMap();
    assert Blocks(STACK_SIZE) == 4 by { BlocksIsCeiling(STACK_SIZE); }
    assert Blocks(FIVE_PAGES) == 5 by { BlocksIsCeiling(FIVE_PAGES); }
    assert forall pid: nat :: !Active(sys, pid);
    assert Isolated(sys);
    ElfLoadKeepsIsolation(sys, file);
    CombedStack(ElfLoad(sys.ph, file).0.ram);
  }

  /** Whatever memory and file hold: a 20 KB file that does not fit, with one writeable page
      inside it, breaks isolation, although it would be harmless in a heap with room. */
  lemma NullImageExample(ram: Ram, file: File)
    requires |file| == FIVE_PAGES
    ensures var sys := Sys(Phys(CombedHeap(), ram), [None]);
            && Isolated(sys) && LoadRoom(sys, 0, file) && WritesInside(FIVE_PAGES, ONE_PAGE)
            && !Isolated(LoadStep(sys, 0, file, [ONE_PAGE]))
  {
    hide WellFormed, Live, Isolated, LoadStep, LoadRoom, Fits, AlignUp, LowerPage, InHeader, HeaderEntry, CombedHeap;
    var sys := Sys(Phys(CombedHeap(), ram), [None]);
    BlocksIsCeiling(FIVE_PAGES);
    CombedRoom(ram, file);
    NullImageInside(sys, 0, file, [ONE_PAGE]);
    HeaderCovers(0, ONE_PAGE, PROGRAM_BASE);
    assert [ONE_PAGE][1..] == [] && LastHeader(0, [ONE_PAGE], Pfn(PROGRAM_BASE)) == Some(ONE_PAGE);
    assert OpenPage(0, [ONE_PAGE], Pfn(PROGRAM_BASE));
  }
}
