/** The two-level page table of src/paging/Paging.c over physical memory. */
module Paging {
  import opened Machine

  const IS_PRESENT := 1
  const IS_WRITEABLE := 2
  const ACCESS_FROM_ALL := 4

  /** A physical page frame holds 1024 words; physical memory is 2^20 frames. */
  type FrameNo = x: int | 0 <= x < TOTAL_PAGES
  type Frame = s: seq<Word> | |s| == PAGES_PER_TABLE
    witness seq(PAGES_PER_TABLE, _ => 0)
  const ZERO_FRAME: Frame := seq(PAGES_PER_TABLE, _ => 0)
  const ZERO_RAM: seq<Frame> := seq(TOTAL_PAGES, _ => ZERO_FRAME)
  type Ram = s: seq<Frame> | |s| == TOTAL_PAGES
    witness ZERO_RAM
  type Flags = x: int | 0 <= x < PAGE_SIZE

  /** A table index. */
  type Slot = x: int | 0 <= x < PAGES_PER_TABLE

  /** entry & MASK_12_BITS_PAGE, as a frame number. */
  function Pfn(w: Word): FrameNo {
    w / PAGE_SIZE
  }

  function FrameAddress(f: FrameNo): Word {
    f * PAGE_SIZE
  }

  // ---------------------------------------------------------- address spaces

  /** struct PageDirectory lives in frame c; its one word points at the directory. */
  function DirFrame(ram: Ram, c: FrameNo): FrameNo {
    Pfn(ram[c][0])
  }

  function TableFrame(ram: Ram, c: FrameNo, i: Slot): FrameNo {
    Pfn(ram[DirFrame(ram, c)][i])
  }

  /** The entry that translates page p. */
  function PageEntry(ram: Ram, c: FrameNo, p: FrameNo): Word {
    ram[TableFrame(ram, c, p / PAGES_PER_TABLE)][p % PAGES_PER_TABLE]
  }

  /** The entry behind which table i lies. */
  function DirEntry(ram: Ram, c: FrameNo, i: Slot): Word {
    ram[DirFrame(ram, c)][i]
  }

  /** What the processor permits user code on page p. Bit 0 (present) and bit 2 (user) must be
      set at both levels, for a write bit 1 (writeable) as well (Intel 64 and IA-32 Architectures
      Software Developer's Manual, Volume 3A, section 4.6). */
  predicate CanRead(ram: Ram, c: FrameNo, p: FrameNo) {
    var d, e := DirEntry(ram, c, p / PAGES_PER_TABLE), PageEntry(ram, c, p);
    d % 2 == 1 && d / 4 % 2 == 1 && e % 2 == 1 && e / 4 % 2 == 1
  }

  predicate CanWrite(ram: Ram, c: FrameNo, p: FrameNo) {
    && CanRead(ram, c, p)
    && DirEntry(ram, c, p / PAGES_PER_TABLE) / 2 % 2 == 1 && PageEntry(ram, c, p) / 2 % 2 == 1
  }

  /** The directory of c leaves the decision to the page entries. */
  ghost predicate OpenDirectory(ram: Ram, c: FrameNo) {
    forall i: Slot :: DirEntry(ram, c, i) % 8 == 7
  }

  /** Then the three bits of the page entry decide. */
  lemma OpenPermits(ram: Ram, c: FrameNo, p: FrameNo)
    requires OpenDirectory(ram, c)
    ensures CanRead(ram, c, p) <==> PageEntry(ram, c, p) % 8 in {5, 7}
    ensures CanWrite(ram, c, p) <==> PageEntry(ram, c, p) % 8 == 7
  {
    hide PageEntry, DirEntry;
    LowBits(DirEntry(ram, c, p / PAGES_PER_TABLE));
    LowBits(PageEntry(ram, c, p));
  }

  /** Bits 0 to 2 of 8 * q + r are those of r. */
  lemma BitsAbove(q: nat, r: nat)
    ensures (8 * q + r) % 2 == r % 2 && (8 * q + r) / 2 % 2 == r / 2 % 2 && (8 * q + r) / 4 % 2 == r / 4 % 2
  {
    EvenPlus(4 * q, r);
    HalfOf(4 * q, r);
    EvenPlus(2 * q, r / 2);
    QuarterOf(2 * q, r);
    EvenPlus(q, r / 4);
  }

  lemma LowBits(w: Word)
    ensures w % 8 == w % 2 + 2 * (w / 2 % 2) + 4 * (w / 4 % 2)
  {
    var q, r := w / 8, w % 8;
    assert w == 8 * q + r;
    BitsAbove(q, r);
    ThreeBits(r);
  }

  lemma ThreeBits(r: nat)
    requires r < 8
    ensures r == r % 2 + 2 * (r / 2 % 2) + 4 * (r / 4 % 2)
  {
  }

  /** Bits 0 to 2 of an entry are those of its low twelve bits. */
  lemma LowTwelve(f: FrameNo, low: Flags)
    ensures var w := FrameAddress(f) + low; w % 2 == low % 2 && w / 2 % 2 == low / 2 % 2 && w / 4 % 2 == low / 4 % 2
    ensures Pfn(FrameAddress(f) + low) == f && (FrameAddress(f) + low) % PAGE_SIZE == low
  {
    BitsAbove(512 * f, low);
    assert FrameAddress(f) == 8 * (512 * f);
  }

  /** The 1026 frames of an address space are pairwise distinct. */
  ghost predicate Separate(ram: Ram, c: FrameNo) {
    && c != DirFrame(ram, c)
    && (forall i: Slot :: TableFrame(ram, c, i) != c && TableFrame(ram, c, i) != DirFrame(ram, c))
    && (forall i: Slot, j: Slot :: TableFrame(ram, c, i) == TableFrame(ram, c, j) ==> i == j)
  }

  ghost predicate IsTable(ram: Ram, c: FrameNo, f: FrameNo) {
    exists i: Slot :: f == TableFrame(ram, c, i)
  }

  /** Only page tables of c may differ. */
  ghost predicate OnlyTables(a: Ram, b: Ram, c: FrameNo) {
    forall f: FrameNo :: !IsTable(a, c, f) ==> b[f] == a[f]
  }

  lemma OnlyTablesKeeps(a: Ram, b: Ram, c: FrameNo)
    requires Separate(a, c) && OnlyTables(a, b, c)
    ensures b[c] == a[c] && DirFrame(b, c) == DirFrame(a, c)
    ensures b[DirFrame(a, c)] == a[DirFrame(a, c)]
    ensures forall i: Slot :: DirEntry(b, c, i) == DirEntry(a, c, i) && TableFrame(b, c, i) == TableFrame(a, c, i)
    ensures Separate(b, c)
  {
  }

  // ------------------------------------------------------ reads and writes

  /** paging_get: an unaligned address fails to produce indexes and reads entry 0. */
  function Get(ram: Ram, directory: FrameNo, virt: Word): Word {
    var (d, t) := Indexes(virt).GetOr((0, 0));
    ram[Pfn(ram[directory][d])][t]
  }

  /** paging_get_indexes. */
  function Indexes(virt: Word): IndexPair {
    if virt % PAGE_SIZE != 0 then BadAddress
    else Pair((virt / (PAGES_PER_TABLE * PAGE_SIZE),
               virt % (PAGES_PER_TABLE * PAGE_SIZE) / PAGE_SIZE))
  }

  datatype IndexPair = BadAddress | Pair(value: (Slot, Slot)) {
    function GetOr(default: (Slot, Slot)): (Slot, Slot) {
      if Pair? then value else default
    }
  }

  /** The index pair is a bijection with the aligned addresses. */
  lemma IndexesBijective(virt: Word)
    ensures Indexes(virt).Pair? <==> virt % PAGE_SIZE == 0
    ensures virt % PAGE_SIZE == 0 ==>
              var (d, t) := Indexes(virt).value;
              && d * PAGES_PER_TABLE + t == Pfn(virt)
              && d == Pfn(virt) / PAGES_PER_TABLE && t == Pfn(virt) % PAGES_PER_TABLE
  {
  }

  lemma IndexesOnto(d: Slot, t: Slot)
    ensures var virt: Word := (d * PAGES_PER_TABLE + t) * PAGE_SIZE;
            Indexes(virt) == Pair((d, t))
  {
  }

  /** paging_get_physical_address. */
  function Translate(ram: Ram, directory: FrameNo, virt: Word): Word {
    LowerPage(Get(ram, directory, LowerPage(virt))) + virt % PAGE_SIZE
  }

  /** paging_set on an aligned address. */
  function SetEntry(ram: Ram, directory: FrameNo, p: FrameNo, val: Word): Ram {
    var t := Pfn(ram[directory][p / PAGES_PER_TABLE]);
    ram[t := ram[t][p % PAGES_PER_TABLE := val]]
  }

  /** For an address inside a page paging_get does not compute indexes and reads the entry of
      page 0, whatever the page. */
  lemma GetInsidePage(ram: Ram, c: FrameNo, virt: Word)
    requires virt % PAGE_SIZE != 0
    ensures Get(ram, DirFrame(ram, c), virt) == PageEntry(ram, c, 0)
  {
  }

  /** paging_get and paging_get_physical_address look up the entry of the page. */
  lemma GetIsPageEntry(ram: Ram, c: FrameNo, virt: Word)
    ensures virt % PAGE_SIZE == 0 ==> Get(ram, DirFrame(ram, c), virt) == PageEntry(ram, c, Pfn(virt))
    ensures Translate(ram, DirFrame(ram, c), virt)
         == FrameAddress(Pfn(PageEntry(ram, c, Pfn(virt)))) + virt % PAGE_SIZE
  {
  }

  /** Writing one entry changes that page's entry and no other. */
  lemma SetEntryExact(ram: Ram, c: FrameNo, p: FrameNo, val: Word)
    requires Separate(ram, c)
    ensures var r := SetEntry(ram, DirFrame(ram, c), p, val);
            && OnlyTables(ram, r, c) && Separate(r, c) && DirFrame(r, c) == DirFrame(ram, c)
            && forall q: FrameNo :: PageEntry(r, c, q) == if q == p then val else PageEntry(ram, c, q)
  {
    var r := SetEntry(ram, DirFrame(ram, c), p, val);
    assert IsTable(ram, c, TableFrame(ram, c, p / PAGES_PER_TABLE));
    OnlyTablesKeeps(ram, r, c);
    forall q: FrameNo ensures PageEntry(r, c, q) == if q == p then val else PageEntry(ram, c, q) {
      assert q == q / PAGES_PER_TABLE * PAGES_PER_TABLE + q % PAGES_PER_TABLE;
      assert p == p / PAGES_PER_TABLE * PAGES_PER_TABLE + p % PAGES_PER_TABLE;
    }
  }

  // -------------------------------------------------------------- ranges

  function NextPage(p: FrameNo): FrameNo {
    (p + 1) % TOTAL_PAGES
  }

  /** The loop of paging_map_range on aligned addresses. */
  function MapPages(ram: Ram, directory: FrameNo, v: FrameNo, p: FrameNo, count: nat, flags: Flags): Ram
    decreases count
  {
    if count == 0 then ram
    else MapPages(SetEntry(ram, directory, v, FrameAddress(p) + flags),
                  directory, NextPage(v), NextPage(p), count - 1, flags)
  }

  /** How many pages q lies after v, going round at 4 GB. */
  function Distance(v: FrameNo, q: FrameNo): FrameNo {
    (q - v) % TOTAL_PAGES
  }

  /** The entry paging_map_range leaves for page q. */
  function MappedEntry(v: FrameNo, p: FrameNo, flags: Flags, q: FrameNo): Word {
    FrameAddress((p + Distance(v, q)) % TOTAL_PAGES) + flags
  }

  /** Page i of the range gets frame i of the target, for any count; all other
      entries and all other frames stay. */
  lemma {:induction false} MapPagesExact(ram: Ram, c: FrameNo, v: FrameNo, p: FrameNo, count: nat, flags: Flags)
    requires Separate(ram, c)
    ensures var r := MapPages(ram, DirFrame(ram, c), v, p, count, flags);
            && OnlyTables(ram, r, c) && Separate(r, c) && DirFrame(r, c) == DirFrame(ram, c)
            && forall q: FrameNo :: PageEntry(r, c, q)
                 == if Distance(v, q) < count then MappedEntry(v, p, flags, q) else PageEntry(ram, c, q)
    decreases count
  {
    if count > 0 {
      hide SetEntry, PageEntry, Separate, OnlyTables, Distance, MappedEntry, NextPage;
      var s := SetEntry(ram, DirFrame(ram, c), v, FrameAddress(p) + flags);
      SetEntryExact(ram, c, v, FrameAddress(p) + flags);
      MapPagesExact(s, c, NextPage(v), NextPage(p), count - 1, flags);
      var r := MapPages(s, DirFrame(ram, c), NextPage(v), NextPage(p), count - 1, flags);
      OnlyTablesChain(ram, s, r, c);
      forall q: FrameNo ensures PageEntry(r, c, q)
          == if Distance(v, q) < count then MappedEntry(v, p, flags, q) else PageEntry(ram, c, q) {
        DistanceStep(v, p, flags, q);
      }
    }
  }

  lemma DistanceIs(v: FrameNo, q: FrameNo)
    ensures Distance(v, q) == if v <= q then q - v else q - v + TOTAL_PAGES
  {
  }

  lemma DistanceStep(v: FrameNo, p: FrameNo, flags: Flags, q: FrameNo)
    ensures q == v ==> Distance(v, q) == 0 && Distance(NextPage(v), q) == TOTAL_PAGES - 1
                       && MappedEntry(v, p, flags, q) == FrameAddress(p) + flags
    ensures q != v ==> Distance(v, q) == Distance(NextPage(v), q) + 1
    ensures MappedEntry(NextPage(v), NextPage(p), flags, q) == MappedEntry(v, p, flags, q)
  {
    hide Distance, FrameAddress;
    DistanceIs(v, q);
    DistanceIs(NextPage(v), q);
    assert NextPage(v) == (if v + 1 < TOTAL_PAGES then v + 1 else 0) &&
      NextPage(p) == if p + 1 < TOTAL_PAGES then p + 1 else 0;
  }

  lemma OnlyTablesChain(a: Ram, b: Ram, d: Ram, c: FrameNo)
    requires Separate(a, c) && OnlyTables(a, b, c) && OnlyTables(b, d, c)
    ensures OnlyTables(a, d, c)
  {
    OnlyTablesKeeps(a, b, c);
    forall f: FrameNo | !IsTable(a, c, f) ensures d[f] == a[f] {
      assert forall i: Slot :: TableFrame(b, c, i) == TableFrame(a, c, i) != f;
    }
  }

  /** paging_map_range: nothing happens and -EINVARG is returned, or all of it does. */
  function MapRange(ram: Ram, directory: FrameNo, virt: Word, phys: Word, count: int, flags: Flags): (Ram, int) {
    if count <= 0 then (ram, 0)
    else if virt % PAGE_SIZE != 0 || phys % PAGE_SIZE != 0 then (ram, -EINVARG)
    else (MapPages(ram, directory, Pfn(virt), Pfn(phys), count, flags), 0)
  }

  /** paging_map_to. */
  function MapTo(ram: Ram, directory: FrameNo, virt: Word, phys: Word, end: Word, flags: Flags): (Ram, int) {
    if virt % PAGE_SIZE != 0 || phys % PAGE_SIZE != 0 || end % PAGE_SIZE != 0 || end < phys then (ram, -EINVARG)
    else MapRange(ram, directory, virt, phys, (end - phys) / PAGE_SIZE, flags)
  }

  /** paging_map_to is exact and all-or-nothing. */
  lemma MapToExact(ram: Ram, c: FrameNo, virt: Word, phys: Word, end: Word, flags: Flags)
    requires Separate(ram, c)
    ensures var (r, res) := MapTo(ram, DirFrame(ram, c), virt, phys, end, flags);
            && (res == 0 || res == -EINVARG)
            && (res == 0 <==> virt % PAGE_SIZE == 0 && phys % PAGE_SIZE == 0 && end % PAGE_SIZE == 0 && phys <= end)
            && (res != 0 ==> r == ram)
            && OnlyTables(ram, r, c) && Separate(r, c) && DirFrame(r, c) == DirFrame(ram, c)
            && (res == 0 ==> forall q: FrameNo ::
                  PageEntry(r, c, q) == if Distance(Pfn(virt), q) < (end - phys) / PAGE_SIZE
                                        then MappedEntry(Pfn(virt), Pfn(phys), flags, q) else PageEntry(ram, c, q))
  {
    if end >= phys {
      MapPagesExact(ram, c, Pfn(virt), Pfn(phys), (end - phys) / PAGE_SIZE, flags);
    }
  }

  /** So is paging_map_range, except that it takes an empty range from and to anywhere. */
  lemma MapRangeExact(ram: Ram, c: FrameNo, virt: Word, phys: Word, count: int, flags: Flags)
    requires Separate(ram, c)
    ensures var (r, res) := MapRange(ram, DirFrame(ram, c), virt, phys, count, flags);
            && (res == 0 || res == -EINVARG)
            && (res == 0 <==> count <= 0 || (virt % PAGE_SIZE == 0 && phys % PAGE_SIZE == 0))
            && (res != 0 || count <= 0 ==> r == ram)
            && OnlyTables(ram, r, c) && Separate(r, c) && DirFrame(r, c) == DirFrame(ram, c)
            && (res == 0 ==> forall q: FrameNo ::
                  PageEntry(r, c, q) == if Distance(Pfn(virt), q) < count
                                        then MappedEntry(Pfn(virt), Pfn(phys), flags, q) else PageEntry(ram, c, q))
  {
    if count > 0 {
      MapPagesExact(ram, c, Pfn(virt), Pfn(phys), count, flags);
    }
  }

  // ------------------------------------------------ directories that may alias

  /** The loop of paging_map_range as it runs on any structure: the directory pointer is
      read again for every page, so a table that aliases the structure changes it. */
  function MapPagesVia(ram: Ram, c: FrameNo, v: FrameNo, p: FrameNo, count: nat, flags: Flags): Ram
    decreases count
  {
    if count == 0 then ram
    else MapPagesVia(SetEntry(ram, DirFrame(ram, c), v, FrameAddress(p) + flags),
                     c, NextPage(v), NextPage(p), count - 1, flags)
  }

  function MapRangeVia(ram: Ram, c: FrameNo, virt: Word, phys: Word, count: int, flags: Flags): (Ram, int) {
    if count <= 0 then (ram, 0)
    else if virt % PAGE_SIZE != 0 || phys % PAGE_SIZE != 0 then (ram, -EINVARG)
    else (MapPagesVia(ram, c, Pfn(virt), Pfn(phys), count, flags), 0)
  }

  function MapToVia(ram: Ram, c: FrameNo, virt: Word, phys: Word, end: Word, flags: Flags): (Ram, int) {
    if virt % PAGE_SIZE != 0 || phys % PAGE_SIZE != 0 || end % PAGE_SIZE != 0 || end < phys then (ram, -EINVARG)
    else MapRangeVia(ram, c, virt, phys, (end - phys) / PAGE_SIZE, flags)
  }

  lemma {:induction false} MapPagesViaIs(ram: Ram, c: FrameNo, v: FrameNo, p: FrameNo, count: nat, flags: Flags)
    requires Separate(ram, c)
    ensures MapPagesVia(ram, c, v, p, count, flags) == MapPages(ram, DirFrame(ram, c), v, p, count, flags)
    decreases count
  {
    hide SetEntry, Separate, OnlyTables, PageEntry;
    if count > 0 {
      SetEntryExact(ram, c, v, FrameAddress(p) + flags);
      var r := SetEntry(ram, DirFrame(ram, c), v, FrameAddress(p) + flags);
      MapPagesViaIs(r, c, NextPage(v), NextPage(p), count - 1, flags);
    }
  }

  /** Where directory and tables are separate frames, reading the pointer once is the same. */
  lemma ViaIsDirect(ram: Ram, c: FrameNo, virt: Word, phys: Word, count: int, end: Word, flags: Flags)
    requires Separate(ram, c)
    ensures MapRangeVia(ram, c, virt, phys, count, flags) == MapRange(ram, DirFrame(ram, c), virt, phys, count, flags)
    ensures MapToVia(ram, c, virt, phys, end, flags) == MapTo(ram, DirFrame(ram, c), virt, phys, end, flags)
  {
    hide SetEntry, Separate;
    if count > 0 {
      MapPagesViaIs(ram, c, Pfn(virt), Pfn(phys), count, flags);
    }
    if end >= phys {
      MapPagesViaIs(ram, c, Pfn(virt), Pfn(phys), (end - phys) / PAGE_SIZE, flags);
    }
  }
}
