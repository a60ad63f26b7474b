/** Page directories built from heap blocks: kernel_zeroed_alloc, new_page_directory_allocation
    and paging_free_4gb (src/malloc/Kheap.c, src/paging/Paging.c). */
module Directory {
  import opened Machine
  import opened Bytes
  import opened Heap
  import opened Paging

  /** The heap map together with the memory it manages. */
  datatype Phys = Phys(heap: Map, ram: Ram)

  const FIRST_FRAME := 4096 // HEAP_BASE / PAGE_SIZE

  function BlockFrame(b: int): int {
    FIRST_FRAME + b
  }

  lemma BlockFrameAddress(f: FrameNo)
    ensures BlockAddress(f - FIRST_FRAME) == FrameAddress(f)
    ensures FIRST_FRAME <= f < FIRST_FRAME + HEAP_BLOCKS ==> AddressBlock(FrameAddress(f)) == f - FIRST_FRAME
  {
  }

  // ------------------------------------------------------------ zeroed blocks

  /** kernel_zeroed_alloc: a heap block run set to zero, or null. */
  ghost function ZeroedAlloc(ph: Phys, size: Word): (Phys, int) {
    var (m, ptr) := AfterMalloc(ph.heap, size);
    if ptr == 0 then (ph, 0) else (Phys(m, Zeroed(ph.ram, ptr / PAGE_SIZE, size)), ptr)
  }

  ghost function FreeSet(m: Map): set<int> {
    set j | 0 <= j < |m| && IsFree(m[j])
  }

  /** b is a after one block s has been handed out. */
  ghost predicate TakesBlock(a: Phys, b: Phys, s: int) {
    && KernelMap(b.heap) && |b.heap| == |a.heap| && 0 <= s < |a.heap|
    && s in FreeSet(a.heap) && FreeSet(b.heap) == FreeSet(a.heap) - {s}
    && s !in Live(a.heap) && Live(b.heap) == Live(a.heap)[s := 1]
    && forall g: FrameNo :: g != BlockFrame(s) ==> b.ram[g] == a.ram[g]
  }

  lemma FreeSetAfterTake(m: Map, s: nat)
    requires s < |m| && IsFree(m[s])
    ensures FreeSet(MarkTaken(m, s, 1)) == FreeSet(m) - {s}
  {
    var r := MarkTaken(m, s, 1);
    assert r[s] == ChainByte(0, 1) == TAKEN | IS_FIRST;
    assert forall j | 0 <= j < |m| && j != s :: r[j] == m[j];
  }

  /** With a free block left, a request of up to a page takes one. */
  lemma OneBlock(ph: Phys, size: Word)
    requires KernelMap(ph.heap) && 1 <= size <= PAGE_SIZE && FreeSet(ph.heap) != {}
    ensures var (r, ptr) := ZeroedAlloc(ph, size);
            var s := StartBlock(ph.heap, 1);
            && ptr == BlockAddress(s) && 0 < ptr < TWO32 && TakesBlock(ph, r, s)
            && (forall i: Slot :: 4 * i + 4 <= size ==> r.ram[BlockFrame(s)][i] == 0)
            && (forall i: Slot :: size <= 4 * i ==> r.ram[BlockFrame(s)][i] == ph.ram[BlockFrame(s)][i])
            && (size == PAGE_SIZE ==> r.ram[BlockFrame(s)] == ZERO_FRAME)
  {
    hide StartBlock, WellFormed, Live, MarkTaken, Zeroed;
    assert Fits(ph.heap, 1) by {
      var j :| j in FreeSet(ph.heap);
      assert RunAt(ph.heap, j, 1);
    }
    assert Blocks(size) == 1;
    MallocOutcome(ph.heap, size);
    var s := StartBlock(ph.heap, 1);
    FreeSetAfterTake(ph.heap, s);
    ZeroedExact(ph.ram, BlockFrame(s), size);
  }

  /** kernel_zeroed_alloc clears exactly the bytes that were asked for, in whatever number of
      blocks, and changes no other byte. */
  lemma AllocatedBytes(ph: Phys, size: Word, x: Word)
    requires KernelMap(ph.heap) && Serveable(ph.heap, size) && Blocks(size) >= 1
    ensures var (r, ptr) := ZeroedAlloc(ph, size);
            && (ptr == 0 ==> r == ph)
            && (ptr != 0 ==> GetByte(r.ram, x) == if ptr <= x < ptr + size then 0 else GetByte(ph.ram, x))
  {
    hide WellFormed, Live, StartBlock, MarkTaken, Zeroed, GetByte, Fits;
    MallocOutcome(ph.heap, size);
    BlocksIsCeiling(size);
    if Fits(ph.heap, Blocks(size)) {
      var s := StartBlock(ph.heap, Blocks(size));
      var ptr := BlockAddress(s);
      assert ptr / PAGE_SIZE == BlockFrame(s) && FrameAddress(BlockFrame(s)) == ptr && ptr + size <= TWO32;
      ZeroedByte(ph.ram, BlockFrame(s), size, x);
      assert (x - ptr) % TWO32 == if ptr <= x then x - ptr else x - ptr + TWO32;
    }
  }

  // ------------------------------------------------ building a directory

  function WithWriteable(flags: Flags): Flags {
    if flags / IS_WRITEABLE % 2 == 1 then flags else flags + IS_WRITEABLE
  }

  /** The low twelve bits of a directory entry: bit 1 (writeable) set, all others as in flags. */
  predicate DirectoryWord(w: Word, flags: Flags) {
    w / 2 % 2 == 1 && w % 2 == flags % 2 && w % PAGE_SIZE / 4 == flags / 4
  }

  lemma WithWriteableExact(t: FrameNo, flags: Flags)
    requires flags < 0x100
    ensures DirectoryWord(FrameAddress(t) + WithWriteable(flags), flags)
  {
    var x := WithWriteable(flags);
    LowTwelve(t, x);
    if x != flags {
      var q, s := flags / 4, flags % 4;
      assert flags == 4 * q + s && x == 4 * q + (s + 2);
      EvenPlus(2 * q, s);
      EvenPlus(2 * q, s + 2);
      HalfOf(2 * q, s);
      HalfOf(2 * q, s + 2);
      EvenPlus(q, s / 2);
      EvenPlus(q, (s + 2) / 2);
      QuarterOf(q, s + 2);
    }
  }

  function IdentityEntry(p: FrameNo, flags: Flags): Word {
    FrameAddress(p) + flags
  }

  function IdentityWord(k: Slot, j: Slot, flags: Flags): Word {
    IdentityEntry(k * PAGES_PER_TABLE + j, flags)
  }

  /** Table k of an identity mapping; the running 4 MB offset wraps at 2^32. */
  function IdentityTable(k: Slot, flags: Flags): Frame {
    seq(PAGES_PER_TABLE, (j: int) requires 0 <= j < PAGES_PER_TABLE => IdentityWord(k, j, flags))
  }

  function InstallTable(ram: Ram, d: FrameNo, k: Slot, t: FrameNo, flags: Flags): Ram {
    var r := ram[t := IdentityTable(k, flags)];
    r[d := r[d][k := FrameAddress(t) + WithWriteable(flags)]]
  }

  /** The loop of new_page_directory_allocation from table k on. */
  ghost function NewTables(ph: Phys, d: FrameNo, k: nat, flags: Flags): Phys
    requires k <= PAGES_PER_TABLE
    decreases PAGES_PER_TABLE - k
  {
    if k == PAGES_PER_TABLE then ph
    else
      var (p, ptr) := ZeroedAlloc(ph, PAGE_SIZE);
      NewTables(Phys(p.heap, InstallTable(p.ram, d, k, Pfn(Wrap(ptr)), flags)), d, k + 1, flags)
  }

  /** new_page_directory_allocation: the memory afterwards and the frame of its result. */
  ghost function NewDirectory(ph: Phys, flags: Flags): (Phys, FrameNo) {
    var (p1, dir) := ZeroedAlloc(ph, PAGE_SIZE);
    var d := Pfn(Wrap(dir));
    var (p2, chunk) := ZeroedAlloc(NewTables(p1, d, 0, flags), 4);
    var c := Pfn(Wrap(chunk));
    (Phys(p2.heap, p2.ram[c := p2.ram[c][0 := FrameAddress(d)]]), c)
  }

  /** The blocks of the first k tables of directory d. */
  function Tables(ram: Ram, d: FrameNo, k: nat): seq<int>
    requires k <= PAGES_PER_TABLE
  {
    seq(k, i requires 0 <= i < k => Pfn(ram[d][i]) - FIRST_FRAME)
  }

  function Ones(ts: seq<int>): map<int, int> {
    map b | b in ts :: 1
  }

  ghost predicate Distinct(ts: seq<int>) {
    forall i, j | 0 <= i < j < |ts| :: ts[i] != ts[j]
  }

  /** ph is p after k tables have been built into directory d. */
  ghost predicate Built(p: Phys, ph: Phys, d: FrameNo, k: nat, flags: Flags)
    requires k <= PAGES_PER_TABLE
  {
    var ts := Tables(ph.ram, d, k);
    && KernelMap(ph.heap) && |ph.heap| == |p.heap|
    && Distinct(ts) && Live(ph.heap) == Live(p.heap) + Ones(ts)
    && (forall b | b in ts :: 0 <= b < |p.heap| && b !in Live(p.heap))
    && (forall i | 0 <= i < k :: ph.ram[Pfn(ph.ram[d][i])] == IdentityTable(i, flags))
    && (forall i | 0 <= i < k :: DirectoryWord(ph.ram[d][i], flags))
    && (forall g: FrameNo :: g != d && g - FIRST_FRAME !in ts ==> ph.ram[g] == p.ram[g])
    && |FreeSet(ph.heap)| >= |FreeSet(p.heap)| - k
  }

  lemma InstallExact(ram: Ram, d: FrameNo, k: Slot, t: FrameNo, flags: Flags)
    requires d != t && flags < 0x100
    ensures var r := InstallTable(ram, d, k, t, flags);
            && r[t] == IdentityTable(k, flags) && Pfn(r[d][k]) == t && DirectoryWord(r[d][k], flags)
            && (forall i: Slot :: i != k ==> r[d][i] == ram[d][i])
            && (forall g: FrameNo :: g != d && g != t ==> r[g] == ram[g])
  {
    WithWriteableExact(t, flags);
  }

  /** Installing block s as table k: what the directory and the tables are afterwards. */
  lemma TablesSnoc(p: Phys, ph: Phys, q: Phys, d: FrameNo, k: Slot, s: int, flags: Flags)
    requires KernelMap(p.heap) && flags < 0x100 && d - FIRST_FRAME in Live(p.heap)
    requires Built(p, ph, d, k, flags) && TakesBlock(ph, q, s)
    ensures d != BlockFrame(s)
    ensures var ts, r := Tables(ph.ram, d, k), InstallTable(q.ram, d, k, BlockFrame(s), flags);
            && Tables(r, d, k + 1) == ts + [s] && s !in ts
            && (forall i | 0 <= i < k + 1 :: r[Pfn(r[d][i])] == IdentityTable(i, flags))
  {
    hide WellFormed, Live, FreeSet, IdentityTable, InstallTable, DirectoryWord;
    var ts := Tables(ph.ram, d, k);
    InstallExact(q.ram, d, k, BlockFrame(s), flags);
    forall i | 0 <= i < k ensures ts[i] != s && BlockFrame(ts[i]) == Pfn(ph.ram[d][i]) != d {
      assert ts[i] in ts;
    }
  }

  lemma WordsSnoc(ph: Phys, q: Phys, d: FrameNo, k: Slot, s: int, flags: Flags)
    requires flags < 0x100 && TakesBlock(ph, q, s) && d != BlockFrame(s) && 0 <= s < HEAP_BLOCKS
    requires forall i | 0 <= i < k :: DirectoryWord(ph.ram[d][i], flags)
    ensures var r := InstallTable(q.ram, d, k, BlockFrame(s), flags);
            forall i | 0 <= i < k + 1 :: DirectoryWord(r[d][i], flags)
  {
    hide WellFormed, Live, FreeSet, IdentityTable, InstallTable, DirectoryWord;
    InstallExact(q.ram, d, k, BlockFrame(s), flags);
  }

  lemma BuiltInstall(p: Phys, ph: Phys, q: Phys, d: FrameNo, k: Slot, s: int, flags: Flags)
    requires KernelMap(p.heap) && flags < 0x100 && d - FIRST_FRAME in Live(p.heap)
    requires Built(p, ph, d, k, flags) && TakesBlock(ph, q, s)
    ensures Built(p, Phys(q.heap, InstallTable(q.ram, d, k, BlockFrame(s), flags)), d, k + 1, flags)
  {
    hide WellFormed, Live, FreeSet, IdentityTable, InstallTable, Tables, DirectoryWord;
    TablesSnoc(p, ph, q, d, k, s, flags);
    WordsSnoc(ph, q, d, k, s, flags);
    InstallExact(q.ram, d, k, BlockFrame(s), flags);
    var ts := Tables(ph.ram, d, k);
    assert Live(q.heap) == Live(p.heap) + Ones(ts + [s]);
  }

  lemma MapSize(m: Map)
    requires KernelMap(m)
    ensures |m| <= HEAP_BLOCKS
  {
  }

  lemma BuiltStep(p: Phys, ph: Phys, d: FrameNo, k: Slot, flags: Flags)
    requires KernelMap(p.heap) && flags < 0x100
    requires d - FIRST_FRAME in Live(p.heap)
    requires |FreeSet(p.heap)| > k && Built(p, ph, d, k, flags)
    ensures var (q, ptr) := ZeroedAlloc(ph, PAGE_SIZE);
            0 < ptr < TWO32 && Built(p, Phys(q.heap, InstallTable(q.ram, d, k, Pfn(ptr), flags)), d, k + 1, flags)
  {
    hide WellFormed, Live, FreeSet, Tables, InstallTable, IdentityTable, ZeroedAlloc, StartBlock, KernelMap;
    assert KernelMap(ph.heap) && FreeSet(ph.heap) != {};
    hide Built;
    OneBlock(ph, PAGE_SIZE);
    var s := StartBlock(ph.heap, 1);
    assert 0 <= s < HEAP_BLOCKS by { MapSize(ph.heap); }
    hide TakesBlock;
    BlockFrameAddress(BlockFrame(s));
    BuiltInstall(p, ph, ZeroedAlloc(ph, PAGE_SIZE).0, d, k, s, flags);
  }

  lemma {:induction false} NewTablesBuilt(p: Phys, ph: Phys, d: FrameNo, k: nat, flags: Flags)
    requires KernelMap(p.heap) && flags < 0x100 && k <= PAGES_PER_TABLE
    requires d - FIRST_FRAME in Live(p.heap)
    requires |FreeSet(p.heap)| >= PAGES_PER_TABLE && Built(p, ph, d, k, flags)
    ensures Built(p, NewTables(ph, d, k, flags), d, PAGES_PER_TABLE, flags)
    decreases PAGES_PER_TABLE - k
  {
    hide Built, ZeroedAlloc, InstallTable, FreeSet, Live, WellFormed;
    if k < PAGES_PER_TABLE {
      BuiltStep(p, ph, d, k, flags);
      var (q, ptr) := ZeroedAlloc(ph, PAGE_SIZE);
      NewTablesBuilt(p, Phys(q.heap, InstallTable(q.ram, d, k, Pfn(ptr), flags)), d, k + 1, flags);
    }
  }

  /** The blocks an address space is made of: its tables, its directory, its chunk. */
  function PartBlocks(ram: Ram, c: FrameNo): seq<int> {
    Tables(ram, DirFrame(ram, c), PAGES_PER_TABLE) + [DirFrame(ram, c) - FIRST_FRAME, c - FIRST_FRAME]
  }

  /** The frame paging_free_4gb frees as part i of an address space. */
  function PartFrame(ram: Ram, chunk: FrameNo, i: nat): FrameNo
    requires i < PAGES_PER_TABLE + 2
  {
    var d := Pfn(ram[chunk][0]);
    if i < PAGES_PER_TABLE then Pfn(ram[d][i]) else if i == PAGES_PER_TABLE then d else chunk
  }

  lemma PartFrameIsPart(ram: Ram, chunk: FrameNo, i: nat)
    requires i < PAGES_PER_TABLE + 2
    ensures var parts := PartBlocks(ram, chunk);
            && i < |parts| && parts[i] in parts && parts[i] == PartFrame(ram, chunk, i) - FIRST_FRAME
            && parts[..i + 1] == parts[..i] + [parts[i]]
  {
  }

  /** r is ph with a new address space c, all of whose pages translate to themselves. */
  ghost predicate NewSpace(ph: Phys, r: Phys, c: FrameNo, flags: Flags) {
    var parts := PartBlocks(r.ram, c);
    && KernelMap(r.heap) && |r.heap| == |ph.heap|
    && Separate(r.ram, c) && Distinct(parts)
    && (forall b | b in parts :: 0 <= b < |ph.heap| && b !in Live(ph.heap))
    && Live(r.heap) == Live(ph.heap) + Ones(parts)
    && (forall i: Slot :: DirectoryWord(DirEntry(r.ram, c, i), flags))
    && (forall p: FrameNo :: PageEntry(r.ram, c, p) == IdentityEntry(p, flags))
    && (forall g: FrameNo :: g - FIRST_FRAME !in parts ==> r.ram[g] == ph.ram[g])
  }

  lemma DistinctIsSeparate(ram: Ram, c: FrameNo)
    requires Distinct(PartBlocks(ram, c))
    ensures Separate(ram, c)
  {
    var parts := PartBlocks(ram, c);
    assert parts[PAGES_PER_TABLE] == DirFrame(ram, c) - FIRST_FRAME;
    assert parts[PAGES_PER_TABLE + 1] == c - FIRST_FRAME;
    forall i: Slot ensures parts[i] == TableFrame(ram, c, i) - FIRST_FRAME {
    }
    forall i: Slot, j: Slot | TableFrame(ram, c, i) == TableFrame(ram, c, j) ensures i == j {
      assert parts[i] == parts[j];
    }
    forall i: Slot ensures TableFrame(ram, c, i) != c && TableFrame(ram, c, i) != DirFrame(ram, c) {
      assert parts[i] != parts[PAGES_PER_TABLE] && parts[i] != parts[PAGES_PER_TABLE + 1];
    }
  }

  lemma BuiltNothing(ph: Phys, p: Phys, s: int, flags: Flags)
    requires KernelMap(ph.heap) && TakesBlock(ph, p, s)
    ensures |FreeSet(p.heap)| == |FreeSet(ph.heap)| - 1
    ensures Built(p, p, BlockFrame(s), 0, flags) && BlockFrame(s) - FIRST_FRAME in Live(p.heap)
  {
  }

  /** The three allocations of a directory: block s for it, ts for its tables, t for the chunk. */
  ghost predicate Stages(ph: Phys, p1: Phys, p2: Phys, p3: Phys, s: int, t: int, flags: Flags) {
    && KernelMap(ph.heap) && TakesBlock(ph, p1, s)
    && Built(p1, p2, BlockFrame(s), PAGES_PER_TABLE, flags) && TakesBlock(p2, p3, t)
  }

  function WithChunk(p3: Phys, s: int, t: int): Phys
    requires 0 <= s < HEAP_BLOCKS && 0 <= t < HEAP_BLOCKS
  {
    var c := BlockFrame(t);
    Phys(p3.heap, p3.ram[c := p3.ram[c][0 := FrameAddress(BlockFrame(s))]])
  }

  lemma StagesApart(ph: Phys, p1: Phys, p2: Phys, p3: Phys, s: int, t: int, flags: Flags)
    requires Stages(ph, p1, p2, p3, s, t, flags)
    ensures var ts := Tables(p2.ram, BlockFrame(s), PAGES_PER_TABLE);
            && KernelMap(p3.heap) && |p3.heap| == |ph.heap|
            && s != t && s !in ts && t !in ts && Distinct(ts)
            && Live(p3.heap) == Live(ph.heap) + Ones(ts + [s, t])
            && forall b | b in ts + [s, t] :: 0 <= b < |ph.heap| && b !in Live(ph.heap)
  {
    hide WellFormed, Live, FreeSet, IdentityTable, Tables;
    var ts := Tables(p2.ram, BlockFrame(s), PAGES_PER_TABLE);
    assert s in Live(p1.heap) && t !in Live(p2.heap) && s in Live(p2.heap);
    forall b | b in ts ensures b != s && b != t && b in Live(p2.heap) && b !in Live(ph.heap) {
      assert b in Ones(ts);
    }
  }

  lemma TablesOfDirectory(a: Ram, b: Ram, d: FrameNo)
    requires a[d] == b[d]
    ensures Tables(a, d, PAGES_PER_TABLE) == Tables(b, d, PAGES_PER_TABLE)
  {
  }

  lemma StagesParts(ph: Phys, p1: Phys, p2: Phys, p3: Phys, s: int, t: int, flags: Flags)
    requires Stages(ph, p1, p2, p3, s, t, flags)
    ensures var r, ts := WithChunk(p3, s, t), Tables(p2.ram, BlockFrame(s), PAGES_PER_TABLE);
            && PartBlocks(r.ram, BlockFrame(t)) == ts + [s, t]
            && Tables(r.ram, BlockFrame(s), PAGES_PER_TABLE) == ts
  {
    hide WellFormed, Live, FreeSet, IdentityTable, Built, Tables, Ones;
    StagesApart(ph, p1, p2, p3, s, t, flags);
    TablesOfDirectory(p2.ram, WithChunk(p3, s, t).ram, BlockFrame(s));
  }

  lemma StagesEntries(ph: Phys, p1: Phys, p2: Phys, p3: Phys, s: int, t: int, flags: Flags)
    requires Stages(ph, p1, p2, p3, s, t, flags)
    ensures var r, c: FrameNo := WithChunk(p3, s, t), BlockFrame(t);
            && (forall i: Slot :: DirectoryWord(DirEntry(r.ram, c, i), flags))
            && (forall p: FrameNo :: PageEntry(r.ram, c, p) == IdentityEntry(p, flags))
            && (forall g: FrameNo :: g - FIRST_FRAME !in PartBlocks(r.ram, c) ==> r.ram[g] == ph.ram[g])
  {
    hide WellFormed, Live, FreeSet, IdentityTable, Tables, PartBlocks, DirectoryWord;
    StagesApart(ph, p1, p2, p3, s, t, flags);
    StagesParts(ph, p1, p2, p3, s, t, flags);
    var r, c: FrameNo, d: FrameNo := WithChunk(p3, s, t), BlockFrame(t), BlockFrame(s);
    var ts := Tables(p2.ram, d, PAGES_PER_TABLE);
    forall p: FrameNo ensures PageEntry(r.ram, c, p) == IdentityEntry(p, flags) {
      var i := p / PAGES_PER_TABLE;
      TablesAt(p2.ram, d, i);
      assert TableFrame(r.ram, c, i) == BlockFrame(ts[i]);
      assert r.ram[BlockFrame(ts[i])] == IdentityTable(i, flags);
      IdentityTableAt(p, flags);
    }
  }

  lemma TablesAt(ram: Ram, d: FrameNo, i: Slot)
    ensures var ts := Tables(ram, d, PAGES_PER_TABLE);
            i < |ts| && ts[i] in ts && BlockFrame(ts[i]) == Pfn(ram[d][i])
  {
  }

  lemma IdentityTableAt(p: FrameNo, flags: Flags)
    ensures IdentityTable(p / PAGES_PER_TABLE, flags)[p % PAGES_PER_TABLE] == IdentityEntry(p, flags)
  {
  }

  /** With 1026 free blocks, new_page_directory_allocation makes an identity mapping of
      all 2^20 pages out of 1026 blocks that were free, and disturbs nothing else. */
  lemma NewDirectoryOutcome(ph: Phys, flags: Flags)
    requires KernelMap(ph.heap) && flags < 0x100 && |FreeSet(ph.heap)| >= PAGES_PER_TABLE + 2
    ensures var (r, c) := NewDirectory(ph, flags); NewSpace(ph, r, c, flags)
  {
    hide StartBlock, WellFormed, Live, MarkTaken, FreeSet, ZeroedAlloc, NewTables, Tables, Zeroed;
    OneBlock(ph, PAGE_SIZE);
    var s, p1 := StartBlock(ph.heap, 1), ZeroedAlloc(ph, PAGE_SIZE).0;
    BlockFrameAddress(BlockFrame(s));
    BuiltNothing(ph, p1, s, flags);
    NewTablesBuilt(p1, p1, BlockFrame(s), 0, flags);
    var p2 := NewTables(p1, BlockFrame(s), 0, flags);
    assert FreeSet(p2.heap) != {};
    OneBlock(p2, 4);
    var t, p3 := StartBlock(p2.heap, 1), ZeroedAlloc(p2, 4).0;
    BlockFrameAddress(BlockFrame(t));
    assert NewDirectory(ph, flags) == (WithChunk(p3, s, t), BlockFrame(t));
    NewSpaceFromStages(ph, p1, p2, p3, s, t, flags);
  }

  /** What that means for the task: every address translates to itself, and on every page the
      processor permits what the flags permit on the page. */
  lemma NewSpaceAccess(ph: Phys, r: Phys, c: FrameNo, flags: Flags, v: Word)
    requires NewSpace(ph, r, c, flags)
    ensures Translate(r.ram, DirFrame(r.ram, c), v) == v
    ensures CanRead(r.ram, c, Pfn(v)) <==> flags % 2 == 1 && flags / 4 % 2 == 1
    ensures CanWrite(r.ram, c, Pfn(v)) <==> flags % 8 == 7
  {
    hide WellFormed, Live, PartBlocks, Separate, PageEntry, DirEntry, Translate;
    GetIsPageEntry(r.ram, c, v);
    var d, e := DirEntry(r.ram, c, Pfn(v) / PAGES_PER_TABLE), PageEntry(r.ram, c, Pfn(v));
    assert DirectoryWord(d, flags) && e == FrameAddress(Pfn(v)) + flags;
    EntryBits(d, e, Pfn(v), flags);
  }

  lemma EntryBits(d: Word, e: Word, f: FrameNo, flags: Flags)
    requires DirectoryWord(d, flags) && e == FrameAddress(f) + flags
    ensures d % 2 == e % 2 == flags % 2 && d / 2 % 2 == 1 && e / 2 % 2 == flags / 2 % 2
    ensures d / 4 % 2 == e / 4 % 2 == flags / 4 % 2
    ensures Pfn(e) == f && flags % 8 == flags % 2 + 2 * (flags / 2 % 2) + 4 * (flags / 4 % 2)
  {
    LowTwelve(Pfn(d), d % PAGE_SIZE);
    LowTwelve(f, flags);
    LowBits(flags);
  }

  lemma NewSpaceFromStages(ph: Phys, p1: Phys, p2: Phys, p3: Phys, s: int, t: int, flags: Flags)
    requires Stages(ph, p1, p2, p3, s, t, flags)
    ensures NewSpace(ph, WithChunk(p3, s, t), BlockFrame(t), flags)
  {
    hide WellFormed, Live, FreeSet, IdentityTable, Tables, PartBlocks, Separate, PageEntry, Built, DirectoryWord;
    StagesApart(ph, p1, p2, p3, s, t, flags);
    StagesParts(ph, p1, p2, p3, s, t, flags);
    StagesEntries(ph, p1, p2, p3, s, t, flags);
    DistinctIsSeparate(WithChunk(p3, s, t).ram, BlockFrame(t));
  }

  // -------------------------------------------------- freeing a directory

  /** heap_mark_blocks_free on each block in turn. */
  ghost function FreeBlocks(m: Map, ts: seq<int>): Map
    decreases |ts|
  {
    if ts == [] then m else FreeBlocks(MarkFree(m, ts[0]), ts[1..])
  }

  /** Freeing the starts of distinct chains removes exactly those chains. */
  lemma {:induction false} FreeBlocksExact(m: Map, ts: seq<int>)
    requires WellFormed(m) && Distinct(ts)
    requires forall b | b in ts :: b in Live(m)
    ensures var r := FreeBlocks(m, ts);
            WellFormed(r) && |r| == |m| && Live(r) == Live(m) - (set b | b in ts)
    decreases |ts|
  {
    hide Live, WellFormed;
    if ts != [] {
      LiveBounds(m, ts[0]);
      FreeRemovesChain(m, ts[0]);
      FreeBlocksExact(MarkFree(m, ts[0]), ts[1..]);
      assert (set b | b in ts) == {ts[0]} + (set b | b in ts[1..]);
    }
  }

  lemma {:induction false} FreeBlocksSnoc(m: Map, ts: seq<int>, b: int)
    ensures FreeBlocks(m, ts + [b]) == MarkFree(FreeBlocks(m, ts), b)
    decreases |ts|
  {
    if ts == [] {
      assert ts + [b] == [b];
    } else {
      assert (ts + [b])[1..] == ts[1..] + [b];
      FreeBlocksSnoc(MarkFree(m, ts[0]), ts[1..], b);
    }
  }

  /** Every part of address space c is a live block of the heap. */
  ghost predicate OwnsParts(m: Map, ram: Ram, c: FrameNo) {
    && Distinct(PartBlocks(ram, c))
    && forall b | b in PartBlocks(ram, c) :: b in Live(m)
  }

  /** paging_free_4gb: the tables, then the directory, then the chunk. */
  ghost function FreeDirectory(m: Map, ram: Ram, c: FrameNo): Map
  {
    FreeBlocks(m, PartBlocks(ram, c))
  }

  /** Freeing an address space gives back its 1026 blocks and nothing else. */
  lemma FreeDirectoryExact(m: Map, ram: Ram, c: FrameNo)
    requires KernelMap(m) && OwnsParts(m, ram, c)
    ensures var r := FreeDirectory(m, ram, c);
            KernelMap(r) && |r| == |m| && Live(r) == Live(m) - (set b | b in PartBlocks(ram, c))
  {
    FreeBlocksExact(m, PartBlocks(ram, c));
  }

  // --------------------------------------------------------- life cycle

  datatype PagingOp =
    | SetOp(virt: Word, val: Word)
    | MapRangeOp(start: Word, phys: Word, count: int, flags: Flags)

  function StepPaging(ram: Ram, c: FrameNo, op: PagingOp): Ram {
    match op
    case SetOp(virt, val) =>
      if virt % PAGE_SIZE != 0 then ram else SetEntry(ram, DirFrame(ram, c), Pfn(virt), val)
    case MapRangeOp(virt, phys, count, flags) => MapRange(ram, DirFrame(ram, c), virt, phys, count, flags).0
  }

  function RunPaging(ram: Ram, c: FrameNo, ops: seq<PagingOp>): Ram
    decreases |ops|
  {
    if ops == [] then ram else RunPaging(StepPaging(ram, c, ops[0]), c, ops[1..])
  }

  lemma StepPagingKeeps(ram: Ram, c: FrameNo, op: PagingOp)
    requires Separate(ram, c)
    ensures OnlyTables(ram, StepPaging(ram, c, op), c)
  {
    hide PageEntry, SetEntry, IsTable;
    match op
    case SetOp(virt, val) => SetEntryExact(ram, c, Pfn(virt), val);
    case MapRangeOp(virt, phys, count, flags) =>
      if count > 0 {
        MapPagesExact(ram, c, Pfn(virt), Pfn(phys), count, flags);
      }
  }

  lemma {:induction false} RunPagingKeeps(ram: Ram, c: FrameNo, ops: seq<PagingOp>)
    requires Separate(ram, c)
    ensures OnlyTables(ram, RunPaging(ram, c, ops), c)
    decreases |ops|
  {
    if ops != [] {
      hide StepPaging;
      var r := StepPaging(ram, c, ops[0]);
      StepPagingKeeps(ram, c, ops[0]);
      OnlyTablesKeeps(ram, r, c);
      RunPagingKeeps(r, c, ops[1..]);
      OnlyTablesChain(ram, r, RunPaging(r, c, ops[1..]), c);
    }
  }

  lemma PartBlocksKept(a: Ram, b: Ram, c: FrameNo)
    requires Separate(a, c) && OnlyTables(a, b, c)
    ensures PartBlocks(b, c) == PartBlocks(a, c)
  {
  }

  /** Build a directory, rewrite any of its entries in any way, free it: the heap map is
      what it was, byte for byte. */
  lemma DirectoryLifeCycle(ph: Phys, flags: Flags, ops: seq<PagingOp>)
    requires KernelMap(ph.heap) && flags < 0x100 && |FreeSet(ph.heap)| >= PAGES_PER_TABLE + 2
    ensures var (r, c) := NewDirectory(ph, flags);
            && OwnsParts(r.heap, RunPaging(r.ram, c, ops), c)
            && FreeDirectory(r.heap, RunPaging(r.ram, c, ops), c) == ph.heap
  {
    hide StartBlock, WellFormed, Live, FreeSet, NewDirectory, PartBlocks, PageEntry;
    NewDirectoryOutcome(ph, flags);
    var (r, c) := NewDirectory(ph, flags);
    RunPagingKeeps(r.ram, c, ops);
    var ram := RunPaging(r.ram, c, ops);
    PartBlocksKept(r.ram, ram, c);
    FreeDirectoryExact(r.heap, ram, c);
    var parts := PartBlocks(ram, c);
    assert Live(ph.heap) + Ones(parts) - (set b | b in parts) == Live(ph.heap);
    ChainsDetermineMap(FreeDirectory(r.heap, ram, c), ph.heap);
  }
}
