/** Mapping an ELF image and the user stack into an address space:
    process_map_loadable_elf_sections and process_map_memory (src/process/Process.c). */
module ElfMap {
  import opened Machine
  import opened Paging

  const STACK_BASE := 0x3F_B000 // USER_PROCESS_STACK_VIRTUAL_ADDRESS_BASE
  const STACK_SIZE := 16384
  const PROGRAM_BASE := 0x40_0000 // USER_PROCESS_VIRTUAL_BASE_ADDRESS_NON_ELF

  const READ_ONLY: Flags := IS_PRESENT + ACCESS_FROM_ALL
  const READ_WRITE: Flags := IS_PRESENT + ACCESS_FROM_ALL + IS_WRITEABLE

  /** The kinds of page entries, bit by bit. */
  lemma FlagBits(f: FrameNo)
    ensures (FrameAddress(f) + READ_ONLY) % 8 == 5 && (FrameAddress(f) + READ_WRITE) % 8 == 7
    ensures FrameAddress(f) % 8 == 0
  {
    Eighths(512 * f, 5);
    Eighths(512 * f, 7);
    Eighths(512 * f, 0);
  }

  lemma Eighths(q: nat, r: nat)
    requires r < 8
    ensures (8 * q + r) % 8 == r
  {
  }

  /** The fields of struct Elf32Phdr the kernel reads; p_offset is signed. */
  datatype Phdr = Phdr(offset: int, vaddr: Word, memsz: Word, writeable: bool)

  /** elf_program_header_physical_address. */
  function PhysicalAddress(mem: Word, h: Phdr): Word {
    Wrap(mem + h.offset)
  }

  function HeaderEnd(mem: Word, h: Phdr): Word {
    AlignUp(Wrap(PhysicalAddress(mem, h) + h.memsz))
  }

  function HeaderFlags(h: Phdr): Flags {
    if h.writeable then READ_WRITE else READ_ONLY
  }

  /** One turn of the loop; p_type is not looked at. */
  function MapHeader(ram: Ram, directory: FrameNo, mem: Word, h: Phdr): (Ram, int) {
    MapTo(ram, directory, LowerPage(h.vaddr), LowerPage(PhysicalAddress(mem, h)), HeaderEnd(mem, h), HeaderFlags(h))
  }

  /** process_map_loadable_elf_sections: the loop stops at the first error. */
  function MapSections(ram: Ram, directory: FrameNo, mem: Word, hs: seq<Phdr>): (Ram, int)
    decreases |hs|
  {
    if hs == [] then (ram, 0)
    else
      var (r, res) := MapHeader(ram, directory, mem, hs[0]);
      if res < 0 then (r, res) else MapSections(r, directory, mem, hs[1..])
  }

  /** process_map_memory for an ELF file; the stack's own result is ignored. */
  function MapMemory(ram: Ram, directory: FrameNo, mem: Word, hs: seq<Phdr>, stack: Word): (Ram, int) {
    var (r, res) := MapSections(ram, directory, mem, hs);
    if res < 0 then (r, res)
    else (MapTo(r, directory, STACK_BASE, stack, AlignUp(Wrap(stack + STACK_SIZE)), READ_WRITE).0, res)
  }

  /** process_map_binary; its result is ignored too. */
  function MapBinary(ram: Ram, directory: FrameNo, base: Word, size: Word): Ram {
    MapTo(ram, directory, PROGRAM_BASE, base, AlignUp(Wrap(base + size)), READ_WRITE).0
  }

  // ------------------------------------------------ what is mapped, exactly

  ghost predicate HeaderOk(mem: Word, h: Phdr) {
    LowerPage(PhysicalAddress(mem, h)) <= HeaderEnd(mem, h)
  }

  function HeaderPages(mem: Word, h: Phdr): int {
    (HeaderEnd(mem, h) - LowerPage(PhysicalAddress(mem, h))) / PAGE_SIZE
  }

  ghost predicate InHeader(mem: Word, h: Phdr, q: FrameNo) {
    Distance(Pfn(h.vaddr), q) < HeaderPages(mem, h)
  }

  ghost function HeaderEntry(mem: Word, h: Phdr, q: FrameNo): Word {
    MappedEntry(Pfn(h.vaddr), Pfn(PhysicalAddress(mem, h)), HeaderFlags(h), q)
  }

  /** The entry page q ends up with: that of the last header that covers it. */
  ghost function LastEntry(mem: Word, hs: seq<Phdr>, q: FrameNo, initial: Word): Word
    decreases |hs|
  {
    if hs == [] then initial
    else LastEntry(mem, hs[1..], q, if InHeader(mem, hs[0], q) then HeaderEntry(mem, hs[0], q) else initial)
  }

  /** The last header that covers page q, and the frame a header gives to a page. */
  ghost function LastHeader(mem: Word, hs: seq<Phdr>, q: FrameNo): Option<Phdr>
    decreases |hs|
  {
    if hs == [] then None
    else
      var later := LastHeader(mem, hs[1..], q);
      if later == None && InHeader(mem, hs[0], q) then Some(hs[0]) else later
  }

  function HeaderTarget(mem: Word, h: Phdr, q: FrameNo): FrameNo {
    (Pfn(PhysicalAddress(mem, h)) + Distance(Pfn(h.vaddr), q)) % TOTAL_PAGES
  }

  lemma {:induction false} LastEntryIs(mem: Word, hs: seq<Phdr>, q: FrameNo, initial: Word)
    ensures match LastHeader(mem, hs, q)
            case None => LastEntry(mem, hs, q, initial) == initial
            case Some(h) =>
              h in hs && InHeader(mem, h, q)
              && LastEntry(mem, hs, q, initial) == FrameAddress(HeaderTarget(mem, h, q)) + HeaderFlags(h)
    decreases |hs|
  {
    if hs != [] {
      LastEntryIs(mem, hs[1..], q, if InHeader(mem, hs[0], q) then HeaderEntry(mem, hs[0], q) else initial);
    }
  }

  lemma MapHeaderExact(ram: Ram, c: FrameNo, mem: Word, h: Phdr)
    requires Separate(ram, c)
    ensures var (r, res) := MapHeader(ram, DirFrame(ram, c), mem, h);
            && (res == 0 || res == -EINVARG) && (res == 0 <==> HeaderOk(mem, h)) && (res != 0 ==> r == ram)
            && OnlyTables(ram, r, c) && Separate(r, c) && DirFrame(r, c) == DirFrame(ram, c)
            && (res == 0 ==> forall q: FrameNo ::
                  PageEntry(r, c, q) == if InHeader(mem, h, q) then HeaderEntry(mem, h, q) else PageEntry(ram, c, q))
  {
    hide PageEntry, Separate, OnlyTables, MapTo, Distance, MappedEntry, AlignUp, PhysicalAddress, Wrap;
    MapToExact(ram, c, LowerPage(h.vaddr), LowerPage(PhysicalAddress(mem, h)), HeaderEnd(mem, h), HeaderFlags(h));
    AlignedUp(Wrap(PhysicalAddress(mem, h) + h.memsz));
  }

  lemma AlignedUp(a: Word)
    ensures AlignUp(a) % PAGE_SIZE == 0
    ensures a <= 0xFFFF_F000 ==> a <= AlignUp(a) < a + PAGE_SIZE
  {
  }

  /** The loop succeeds exactly when every header's range does not wrap, and then every
      page has the entry of the last header that covers it. */
  lemma {:induction false} MapSectionsExact(ram: Ram, c: FrameNo, mem: Word, hs: seq<Phdr>)
    requires Separate(ram, c)
    ensures var (r, res) := MapSections(ram, DirFrame(ram, c), mem, hs);
            && OnlyTables(ram, r, c) && Separate(r, c) && DirFrame(r, c) == DirFrame(ram, c)
            && (res == 0 || res == -EINVARG) && (res == 0 <==> forall h | h in hs :: HeaderOk(mem, h))
            && (res == 0 ==> forall q: FrameNo ::
                  PageEntry(r, c, q) == LastEntry(mem, hs, q, PageEntry(ram, c, q)))
    decreases |hs|
  {
    if hs != [] {
      hide PageEntry, Separate, OnlyTables, MapHeader, InHeader, HeaderEntry, HeaderOk;
      MapHeaderExact(ram, c, mem, hs[0]);
      var (r, res) := MapHeader(ram, DirFrame(ram, c), mem, hs[0]);
      if res == 0 {
        MapSectionsExact(r, c, mem, hs[1..]);
        OnlyTablesChain(ram, r, MapSections(r, DirFrame(ram, c), mem, hs[1..]).0, c);
        assert forall h | h in hs :: h == hs[0] || h in hs[1..];
      }
    }
  }

  // ------------------------------------------------------- the translation

  /** The header's file range and address range do not wrap. */
  ghost predicate Unwrapped(mem: Word, h: Phdr) {
    && 0 <= mem + h.offset && mem + h.offset + h.memsz <= 0xFFFF_F000
    && h.vaddr + h.memsz <= TWO32
  }

  /** Moreover p_vaddr is congruent to p_offset modulo the page size (System V gABI,
      chapter 5, "Program Header"). */
  ghost predicate Loadable(mem: Word, h: Phdr) {
    Unwrapped(mem, h) && h.vaddr % PAGE_SIZE == h.offset % PAGE_SIZE
  }

  /** Headers that share a page map it to the same frame. */
  ghost predicate Compatible(mem: Word, hs: seq<Phdr>) {
    forall g, h, q: FrameNo | g in hs && h in hs && InHeader(mem, g, q) && InHeader(mem, h, q) ::
      g.vaddr - g.offset == h.vaddr - h.offset
  }

  ghost predicate InStack(q: FrameNo) {
    Pfn(STACK_BASE) <= q < Pfn(STACK_BASE) + STACK_SIZE / PAGE_SIZE
  }

  /** A header on a stack page, which the stack takes over, wants the stack block there. */
  ghost predicate AgreesWithStack(mem: Word, hs: seq<Phdr>, stack: Word) {
    forall h, q: FrameNo | h in hs && InHeader(mem, h, q) && InStack(q) ::
      mem + h.offset - h.vaddr == stack - STACK_BASE
  }

  /** Every byte of every header is found where the image has it. */
  ghost predicate Translated(ram: Ram, c: FrameNo, mem: Word, hs: seq<Phdr>) {
    forall h, v: Word | h in hs && h.vaddr <= v < h.vaddr + h.memsz ::
      Translate(ram, DirFrame(ram, c), v) == mem + h.offset + (v - h.vaddr)
  }

  /** A range of n bytes at phys, mapped from an address v with the same page offset. */
  lemma SpanPages(v: Word, phys: Word, n: Word)
    requires v % PAGE_SIZE == phys % PAGE_SIZE && phys + n <= 0xFFFF_F000 && v + n <= TWO32
    ensures LowerPage(phys) == FrameAddress(Pfn(phys)) && LowerPage(phys) <= AlignUp(phys + n)
    ensures var k := (AlignUp(phys + n) - LowerPage(phys)) / PAGE_SIZE;
            && 0 <= k && Pfn(v) + k <= TOTAL_PAGES && Pfn(phys) + k < TOTAL_PAGES
            && (forall a: Word | v <= a < v + n :: Pfn(v) <= Pfn(a) < Pfn(v) + k)
            && (forall q: FrameNo | Pfn(v) <= q < Pfn(v) + k :: FrameAddress(q) < v + n)
  {
    AlignedUp(phys + n);
    var o := v % PAGE_SIZE;
    assert v == FrameAddress(Pfn(v)) + o && phys == FrameAddress(Pfn(phys)) + o;
    var k := (AlignUp(phys + n) - LowerPage(phys)) / PAGE_SIZE;
    assert AlignUp(phys + n) == FrameAddress(Pfn(phys)) + k * PAGE_SIZE;
  }

  lemma HeaderSpan(mem: Word, h: Phdr)
    requires mem % PAGE_SIZE == 0 && Loadable(mem, h)
    ensures HeaderOk(mem, h)
    ensures var f, k := Pfn(PhysicalAddress(mem, h)), HeaderPages(mem, h);
            && FrameAddress(f) - FrameAddress(Pfn(h.vaddr)) == mem + h.offset - h.vaddr
            && 0 <= k && Pfn(h.vaddr) + k <= TOTAL_PAGES && f + k < TOTAL_PAGES
            && (forall a: Word | h.vaddr <= a < h.vaddr + h.memsz :: Pfn(h.vaddr) <= Pfn(a) < Pfn(h.vaddr) + k)
            && (forall q: FrameNo | Pfn(h.vaddr) <= q < Pfn(h.vaddr) + k :: FrameAddress(q) < h.vaddr + h.memsz)
  {
    hide AlignUp, LowerPage;
    var phys := PhysicalAddress(mem, h);
    assert phys == mem + h.offset && phys % PAGE_SIZE == h.vaddr % PAGE_SIZE;
    SpanPages(h.vaddr, phys, h.memsz);
  }

  /** Where a covered page goes: as far from the image as it is from p_vaddr - p_offset. */
  lemma HeaderFrame(mem: Word, h: Phdr, q: FrameNo)
    requires mem % PAGE_SIZE == 0 && Loadable(mem, h) && InHeader(mem, h, q)
    ensures HeaderOk(mem, h)
    ensures FrameAddress(Pfn(HeaderEntry(mem, h, q))) == mem + h.offset - h.vaddr + FrameAddress(q)
  {
    hide Distance, HeaderPages, HeaderOk, PhysicalAddress;
    HeaderSpan(mem, h);
    DistanceIs(Pfn(h.vaddr), q);
  }

  /** Every address of the header lies on a page it covers. */
  lemma HeaderCovers(mem: Word, h: Phdr, v: Word)
    requires mem % PAGE_SIZE == 0 && Loadable(mem, h) && h.vaddr <= v < h.vaddr + h.memsz
    ensures HeaderOk(mem, h) && InHeader(mem, h, Pfn(v))
  {
    hide Distance, HeaderPages, HeaderOk, PhysicalAddress;
    HeaderSpan(mem, h);
    DistanceIs(Pfn(h.vaddr), Pfn(v));
  }

  lemma {:induction false} LastEntryAgrees(mem: Word, hs: seq<Phdr>, q: FrameNo, initial: Word, f: FrameNo)
    requires forall h | h in hs && InHeader(mem, h, q) :: Pfn(HeaderEntry(mem, h, q)) == f
    requires Pfn(initial) == f || exists h :: h in hs && InHeader(mem, h, q)
    ensures Pfn(LastEntry(mem, hs, q, initial)) == f
    decreases |hs|
  {
    hide InHeader, HeaderEntry;
    if hs != [] {
      LastEntryAgrees(mem, hs[1..], q, if InHeader(mem, hs[0], q) then HeaderEntry(mem, hs[0], q) else initial, f);
    }
  }

  lemma {:induction false} LastEntryNone(mem: Word, hs: seq<Phdr>, q: FrameNo, initial: Word)
    requires forall h | h in hs :: !InHeader(mem, h, q)
    ensures LastEntry(mem, hs, q, initial) == initial
    decreases |hs|
  {
    hide InHeader, HeaderEntry;
    if hs != [] {
      LastEntryNone(mem, hs[1..], q, initial);
    }
  }

  /** The stack comes last: its four pages go to the stack block, all others stay. */
  lemma StackExact(ram: Ram, c: FrameNo, stack: Word)
    requires Separate(ram, c) && stack % PAGE_SIZE == 0 && stack + STACK_SIZE <= 0xFFFF_F000
    ensures var r := MapTo(ram, DirFrame(ram, c), STACK_BASE, stack, AlignUp(Wrap(stack + STACK_SIZE)), READ_WRITE).0;
            && OnlyTables(ram, r, c) && Separate(r, c) && DirFrame(r, c) == DirFrame(ram, c)
            && forall q: FrameNo :: PageEntry(r, c, q)
                 == if InStack(q) then stack + FrameAddress(q) - STACK_BASE + READ_WRITE else PageEntry(ram, c, q)
  {
    hide PageEntry, Separate, OnlyTables, MapTo, Distance, AlignUp, MappedEntry, InStack;
    StackEnd(stack);
    MapToExact(ram, c, STACK_BASE, stack, AlignUp(Wrap(stack + STACK_SIZE)), READ_WRITE);
    forall q: FrameNo
      ensures Distance(Pfn(STACK_BASE), q) < 4 <==> InStack(q)
      ensures var e := MappedEntry(Pfn(STACK_BASE), Pfn(stack), READ_WRITE, q);
              InStack(q) ==> e == stack + FrameAddress(q) - STACK_BASE + READ_WRITE {
      StackPage(stack, q);
    }
  }

  lemma StackEnd(stack: Word)
    requires stack % PAGE_SIZE == 0 && stack + STACK_SIZE <= 0xFFFF_F000
    ensures AlignUp(Wrap(stack + STACK_SIZE)) == stack + STACK_SIZE && (stack + STACK_SIZE - stack) / PAGE_SIZE == 4
    ensures (stack + STACK_SIZE) % PAGE_SIZE == 0
  {
  }

  lemma StackPage(stack: Word, q: FrameNo)
    requires stack % PAGE_SIZE == 0 && stack + STACK_SIZE <= 0xFFFF_F000
    ensures Distance(Pfn(STACK_BASE), q) < 4 <==> InStack(q)
    ensures InStack(q) ==>
              MappedEntry(Pfn(STACK_BASE), Pfn(stack), READ_WRITE, q)
              == stack + FrameAddress(q) - STACK_BASE + READ_WRITE
  {
    hide Distance;
    DistanceIs(Pfn(STACK_BASE), q);
    assert stack == FrameAddress(Pfn(stack));
  }

  /** process_map_memory gives every byte of every program header its byte of the file
      image, gives the stack its block, and leaves every other page alone. */
  lemma ImageTranslation(ram: Ram, c: FrameNo, mem: Word, hs: seq<Phdr>, stack: Word)
    requires Separate(ram, c) && mem % PAGE_SIZE == 0 && stack % PAGE_SIZE == 0 && stack + STACK_SIZE <= 0xFFFF_F000
    requires forall h | h in hs :: Loadable(mem, h)
    requires Compatible(mem, hs) && AgreesWithStack(mem, hs, stack)
    ensures var (r, res) := MapMemory(ram, DirFrame(ram, c), mem, hs, stack);
            && res == 0 && Separate(r, c) && OnlyTables(ram, r, c) && Translated(r, c, mem, hs)
            && (forall v: Word | STACK_BASE <= v < STACK_BASE + STACK_SIZE ::
                  Translate(r, DirFrame(r, c), v) == stack + (v - STACK_BASE))
            && (forall q: FrameNo | !InStack(q) && (forall h | h in hs :: !InHeader(mem, h, q)) ::
                  PageEntry(r, c, q) == PageEntry(ram, c, q))
  {
    hide PageEntry, Separate, OnlyTables, MapTo, MapSections, Translate, InHeader, HeaderEntry, HeaderOk;
    MapSectionsExact(ram, c, mem, hs);
    var (s, _) := MapSections(ram, DirFrame(ram, c), mem, hs);
    forall h | h in hs ensures HeaderOk(mem, h) {
      UnwrappedOk(mem, h);
    }
    StackExact(s, c, stack);
    var (r, res) := MapMemory(ram, DirFrame(ram, c), mem, hs, stack);
    OnlyTablesChain(ram, s, r, c);
    forall h, v: Word | h in hs && h.vaddr <= v < h.vaddr + h.memsz
      ensures Translate(r, DirFrame(r, c), v) == mem + h.offset + (v - h.vaddr) {
      HeaderCovers(mem, h, v);
      GetIsPageEntry(r, c, v);
      if !InStack(Pfn(v)) {
        ImagePage(mem, hs, h, Pfn(v), PageEntry(ram, c, Pfn(v)));
      }
    }
    forall v: Word | STACK_BASE <= v < STACK_BASE + STACK_SIZE
      ensures Translate(r, DirFrame(r, c), v) == stack + (v - STACK_BASE) {
      GetIsPageEntry(r, c, v);
    }
    forall q: FrameNo | !InStack(q) && (forall h | h in hs :: !InHeader(mem, h, q))
      ensures PageEntry(r, c, q) == PageEntry(ram, c, q) {
      LastEntryNone(mem, hs, q, PageEntry(ram, c, q));
    }
  }

  /** Translation keeps the offset in the page, so a non-empty header whose first byte is found
      has p_vaddr congruent to p_offset. */
  lemma CongruenceNeeded(ram: Ram, c: FrameNo, mem: Word, h: Phdr)
    requires mem % PAGE_SIZE == 0 && Translate(ram, DirFrame(ram, c), h.vaddr) == mem + h.offset
    ensures h.vaddr % PAGE_SIZE == h.offset % PAGE_SIZE
  {
    hide PageEntry, Translate;
    GetIsPageEntry(ram, c, h.vaddr);
    assert mem == FrameAddress(Pfn(mem));
  }

  /** All of this is also necessary: where every byte of every (non-empty) header is found,
      headers are congruent and those that share a page agree. */
  lemma ImageTranslationOnlyIf(ram: Ram, c: FrameNo, mem: Word, hs: seq<Phdr>)
    requires mem % PAGE_SIZE == 0 && Translated(ram, c, mem, hs)
    requires forall h | h in hs :: Unwrapped(mem, h) && h.memsz > 0
    ensures (forall h | h in hs :: Loadable(mem, h)) && Compatible(mem, hs)
  {
    hide PageEntry, InHeader, Translate;
    forall h | h in hs ensures Loadable(mem, h) {
      CongruenceNeeded(ram, c, mem, h);
    }
    forall g, h, q: FrameNo | g in hs && h in hs && InHeader(mem, g, q) && InHeader(mem, h, q)
      ensures g.vaddr - g.offset == h.vaddr - h.offset {
      var v := ByteOnPage(mem, g, q);
      var w := ByteOnPage(mem, h, q);
      GetIsPageEntry(ram, c, v);
      GetIsPageEntry(ram, c, w);
    }
  }

  /** process_map_memory puts every byte of non-empty headers in its place exactly if they are
      congruent, agree on shared pages, and agree with the stack on its pages. */
  lemma ImageTranslationIff(ram: Ram, c: FrameNo, mem: Word, hs: seq<Phdr>, stack: Word)
    requires Separate(ram, c) && mem % PAGE_SIZE == 0 && stack % PAGE_SIZE == 0 && stack + STACK_SIZE <= 0xFFFF_F000
    requires forall h | h in hs :: Unwrapped(mem, h) && h.memsz > 0
    ensures Translated(MapMemory(ram, DirFrame(ram, c), mem, hs, stack).0, c, mem, hs)
            <==> && (forall h | h in hs :: Loadable(mem, h))
                 && Compatible(mem, hs) && AgreesWithStack(mem, hs, stack)
  {
    hide PageEntry, Separate, OnlyTables, MapTo, MapSections, Translate, InHeader, HeaderOk, Compatible, Loadable;
    var r := MapMemory(ram, DirFrame(ram, c), mem, hs, stack).0;
    if (forall h | h in hs :: Loadable(mem, h)) && Compatible(mem, hs) && AgreesWithStack(mem, hs, stack) {
      ImageTranslation(ram, c, mem, hs, stack);
    }
    if Translated(r, c, mem, hs) {
      ImageTranslationOnlyIf(r, c, mem, hs);
      forall h | h in hs ensures HeaderOk(mem, h) {
        UnwrappedOk(mem, h);
      }
      StackStays(ram, c, mem, hs, stack);
      forall h, q: FrameNo | h in hs && InHeader(mem, h, q) && InStack(q)
        ensures mem + h.offset - h.vaddr == stack - STACK_BASE {
        var v := ByteOnPage(mem, h, q);
        GetIsPageEntry(r, c, v);
      }
    }
  }

  /** Whatever the headers, the stack pages lead to the stack block. */
  lemma StackStays(ram: Ram, c: FrameNo, mem: Word, hs: seq<Phdr>, stack: Word)
    requires Separate(ram, c) && stack % PAGE_SIZE == 0 && stack + STACK_SIZE <= 0xFFFF_F000
    requires forall h | h in hs :: HeaderOk(mem, h)
    ensures var r := MapMemory(ram, DirFrame(ram, c), mem, hs, stack).0;
            forall q: FrameNo | InStack(q) ::
              FrameAddress(Pfn(PageEntry(r, c, q))) == stack + FrameAddress(q) - STACK_BASE
  {
    hide PageEntry, Separate, OnlyTables, MapTo, MapSections, HeaderOk;
    MapSectionsExact(ram, c, mem, hs);
    StackExact(MapSections(ram, DirFrame(ram, c), mem, hs).0, c, stack);
    assert stack == FrameAddress(Pfn(stack));
  }

  /** A page covered by a non-empty header holds one of its bytes. */
  lemma ByteOnPage(mem: Word, h: Phdr, q: FrameNo) returns (v: Word)
    requires mem % PAGE_SIZE == 0 && Loadable(mem, h) && h.memsz > 0 && InHeader(mem, h, q)
    ensures h.vaddr <= v < h.vaddr + h.memsz && Pfn(v) == q
  {
    hide InHeader, AlignUp;
    CoveredPageBounds(mem, h, q);
    v := if h.vaddr < FrameAddress(q) then FrameAddress(q) else h.vaddr;
  }

  lemma CoveredPageBounds(mem: Word, h: Phdr, q: FrameNo)
    requires mem % PAGE_SIZE == 0 && Loadable(mem, h) && InHeader(mem, h, q)
    ensures Pfn(h.vaddr) <= q && FrameAddress(q) < h.vaddr + h.memsz
  {
    hide Distance, HeaderPages, HeaderOk, PhysicalAddress;
    HeaderSpan(mem, h);
    DistanceIs(Pfn(h.vaddr), q);
  }

  lemma UnwrappedOk(mem: Word, h: Phdr)
    requires Unwrapped(mem, h)
    ensures HeaderOk(mem, h)
  {
  }

  lemma ImagePage(mem: Word, hs: seq<Phdr>, h: Phdr, q: FrameNo, initial: Word)
    requires mem % PAGE_SIZE == 0 && h in hs && InHeader(mem, h, q)
    requires (forall g | g in hs :: Loadable(mem, g)) && Compatible(mem, hs)
    ensures FrameAddress(Pfn(LastEntry(mem, hs, q, initial))) == mem + h.offset - h.vaddr + FrameAddress(q)
  {
    hide InHeader, HeaderEntry;
    HeaderFrame(mem, h, q);
    forall g | g in hs && InHeader(mem, g, q) ensures Pfn(HeaderEntry(mem, g, q)) == Pfn(HeaderEntry(mem, h, q)) {
      HeaderFrame(mem, g, q);
    }
    LastEntryAgrees(mem, hs, q, initial, Pfn(HeaderEntry(mem, h, q)));
  }

  /** A range that starts on page boundaries: where one of its addresses goes. */
  lemma SpanEntry(start: Word, phys: Word, n: Word, flags: Flags, v: Word)
    requires start % PAGE_SIZE == 0 && phys % PAGE_SIZE == 0 && phys + n <= 0xFFFF_F000
    requires start <= v < start + n && start + n <= TWO32
    ensures Distance(Pfn(start), Pfn(v)) < (AlignUp(phys + n) - phys) / PAGE_SIZE
    ensures FrameAddress(Pfn(MappedEntry(Pfn(start), Pfn(phys), flags, Pfn(v)))) + v % PAGE_SIZE == phys + (v - start)
    ensures MappedEntry(Pfn(start), Pfn(phys), READ_WRITE, Pfn(v)) % 8 == 7
  {
    hide Distance, AlignUp, Pfn, FrameAddress;
    FlagBits((Pfn(phys) + Distance(Pfn(start), Pfn(v))) % TOTAL_PAGES);
    SpanPages(start, phys, n);
    DistanceIs(Pfn(start), Pfn(v));
    SpanFrame(start, phys, flags, v);
  }

  lemma SpanFrame(start: Word, phys: Word, flags: Flags, v: Word)
    requires start % PAGE_SIZE == 0 && phys % PAGE_SIZE == 0 && start <= v && phys + (v - start) < TWO32
    ensures FrameAddress(Pfn(MappedEntry(Pfn(start), Pfn(phys), flags, Pfn(v)))) + v % PAGE_SIZE == phys + (v - start)
  {
    hide Distance;
    DistanceIs(Pfn(start), Pfn(v));
    var k := Pfn(v) - Pfn(start);
    assert start == FrameAddress(Pfn(start)) && phys == FrameAddress(Pfn(phys));
    assert v - start == k * PAGE_SIZE + v % PAGE_SIZE && Pfn(phys) + k < TOTAL_PAGES;
  }

  /** A flat binary is mapped from 4 MB on, page for page, where user code may write it. */
  lemma BinaryTranslation(ram: Ram, c: FrameNo, base: Word, size: Word)
    requires Separate(ram, c) && base % PAGE_SIZE == 0
    requires base + size <= 0xFFFF_F000 && PROGRAM_BASE + size <= TWO32
    ensures var r := MapBinary(ram, DirFrame(ram, c), base, size);
            && Separate(r, c) && OnlyTables(ram, r, c)
            && forall v: Word | PROGRAM_BASE <= v < PROGRAM_BASE + size ::
                 && Translate(r, DirFrame(r, c), v) == base + (v - PROGRAM_BASE)
                 && PageEntry(r, c, Pfn(v)) % 8 == 7 && (OpenDirectory(ram, c) ==> CanWrite(r, c, Pfn(v)))
  {
    hide PageEntry, Separate, OnlyTables, MapTo, Translate, Distance, AlignUp, MappedEntry, CanWrite, DirEntry;
    AlignedUp(base + size);
    MapToExact(ram, c, PROGRAM_BASE, base, AlignUp(base + size), READ_WRITE);
    var r := MapBinary(ram, DirFrame(ram, c), base, size);
    OnlyTablesKeeps(ram, r, c);
    forall v: Word | PROGRAM_BASE <= v < PROGRAM_BASE + size
      ensures Translate(r, DirFrame(r, c), v) == base + (v - PROGRAM_BASE)
      ensures PageEntry(r, c, Pfn(v)) % 8 == 7 && (OpenDirectory(ram, c) ==> CanWrite(r, c, Pfn(v))) {
      SpanEntry(PROGRAM_BASE, base, size, READ_WRITE, v);
      GetIsPageEntry(r, c, v);
      if OpenDirectory(ram, c) {
        OpenPermits(r, c, Pfn(v));
      }
    }
  }
}
