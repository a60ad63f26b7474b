/** copy_string_from_task (src/process/Task.c): a user string is read through the task's
    page tables into a scratch page that is mapped there for the occasion. */
module CopyString {
  import opened Machine
  import opened Bytes
  import opened Heap
  import opened Paging
  import opened Directory
  import opened Kernel
  import opened ElfMap
  import opened Isolation
  import opened Steps

  // ------------------------------------------------- strncpy under a view

  /** Whose page directory is loaded. The kernel's maps every address to itself. */
  datatype View = KernelView | TaskView(directory: FrameNo)

  function At(ram: Ram, view: View, v: Word): Word {
    match view
    case KernelView => v
    case TaskView(directory) => Translate(ram, directory, v)
  }

  /** Bits 0 (present) and 1 (writeable) of the directory entry and the page entry for v. */
  function AccessBits(ram: Ram, view: View, v: Word): (int, int) {
    match view
    case KernelView => (3, 3)
    case TaskView(directory) =>
      var d := ram[directory][Pfn(v) / PAGES_PER_TABLE];
      (d % 4, ram[Pfn(d)][Pfn(v) % PAGES_PER_TABLE] % 4)
  }

  predicate Present(ram: Ram, view: View, v: Word) {
    var (d, e) := AccessBits(ram, view, v);
    d % 2 == 1 && e % 2 == 1
  }

  lemma TaskBits(ram: Ram, c: FrameNo, v: Word)
    ensures AccessBits(ram, TaskView(DirFrame(ram, c)), v)
         == (DirEntry(ram, c, Pfn(v) / PAGES_PER_TABLE) % 4, PageEntry(ram, c, Pfn(v)) % 4)
  {
  }

  /** Reading and writing the byte at v; anything else would be a page fault. */
  function ReadAt(ram: Ram, view: View, v: Word): Byte
    requires Present(ram, view, v)
  {
    GetByte(ram, At(ram, view, v))
  }

  function WriteAt(ram: Ram, view: View, v: Word, b: Byte): Ram
    requires AccessBits(ram, view, v) == (3, 3)
  {
    PutByte(ram, At(ram, view, v), b)
  }

  /** The string at v as seen through the view, cut off after n bytes. */
  function StringAt(ram: Ram, view: View, v: Word, n: nat): (s: seq<Byte>)
    ensures |s| <= n && 0 !in s
    decreases n
  {
    if n == 0 || GetByte(ram, At(ram, view, v)) == 0 then []
    else [GetByte(ram, At(ram, view, v))] + StringAt(ram, view, Wrap(v + 1), n - 1)
  }

  /** v advanced by i bytes, going round at 4 GB. */
  function Plus(v: Word, i: int): Word {
    Wrap(v + i)
  }

  /** q lies outside the n bytes from p. */
  ghost predicate Clear(q: Word, p: Word, n: int) {
    q < p || p + n <= q
  }

  /** a and b differ at most in the n bytes from p. */
  ghost predicate SameOutside(a: Ram, b: Ram, p: Word, n: int) {
    forall x: Word :: Clear(x, p, n) ==> GetByte(b, x) == GetByte(a, x)
  }

  /** b is a with the string s and its terminator written at p. */
  ghost predicate Written(a: Ram, b: Ram, p: Word, s: seq<Byte>)
    requires p + |s| < TWO32
  {
    && SameOutside(a, b, p, |s| + 1)
    && (forall i | 0 <= i < |s| :: GetByte(b, p + i) == s[i])
    && GetByte(b, p + |s|) == 0
  }

  /** Writing the n bytes at p does not change how the view translates or what it permits. */
  ghost predicate Steady(ram: Ram, view: View, p: Word, n: int) {
    forall r: Ram, v: Word :: SameOutside(ram, r, p, n) ==>
      At(r, view, v) == At(ram, view, v) && AccessBits(r, view, v) == AccessBits(ram, view, v)
  }

  /** The first i bytes of s have been written at p, and nothing else. */
  ghost predicate Copied(a: Ram, b: Ram, p: Word, s: seq<Byte>, i: int)
    requires 0 <= i <= |s| && p + |s| < TWO32
  {
    SameOutside(a, b, p, i) && forall j | 0 <= j < i :: GetByte(b, p + j) == s[j]
  }

  lemma CopiedStep(a: Ram, b: Ram, p: Word, s: seq<Byte>, i: int)
    requires 0 <= i < |s| && p + |s| < TWO32 && Copied(a, b, p, s, i)
    ensures Copied(a, PutByte(b, p + i, s[i]), p, s, i + 1)
  {
    hide GetByte, PutByte;
    forall y: Word ensures GetByte(PutByte(b, p + i, s[i]), y) == if y == p + i then s[i] else GetByte(b, y) {
      PutByteExact(b, p + i, s[i], y);
    }
    forall x: Word | Clear(x, p, i + 1) ensures GetByte(PutByte(b, p + i, s[i]), x) == GetByte(a, x) {
      assert Clear(x, p, i);
    }
    forall j | 0 <= j < i + 1 ensures GetByte(PutByte(b, p + i, s[i]), p + j) == s[j] {
      PutByteExact(b, p + i, s[i], p + j);
      if j < i {
        assert GetByte(b, p + j) == s[j];
      }
    }
  }

  lemma CopiedEnd(a: Ram, b: Ram, p: Word, s: seq<Byte>)
    requires p + |s| < TWO32 && Copied(a, b, p, s, |s|)
    ensures Written(a, PutByte(b, p + |s|, 0), p, s)
  {
    hide GetByte, PutByte;
    var q: Word := p + |s|;
    var r := PutByte(b, q, 0);
    forall y: Word ensures GetByte(r, y) == if y == q then 0 else GetByte(b, y) {
      PutByteExact(b, q, 0, y);
    }
    forall x: Word | Clear(x, p, |s| + 1) ensures GetByte(r, x) == GetByte(a, x) {
      assert Clear(x, p, |s|);
    }
    assert SameOutside(a, r, p, |s| + 1);
    assert GetByte(r, p + |s|) == 0;
    assert forall i | 0 <= i < |s| :: GetByte(r, p + i) == s[i];
  }

  /** While copying, addresses translate as before and bytes elsewhere are as before. */
  lemma CopyView(a: Ram, b: Ram, view: View, p: Word, s: seq<Byte>, i: int, count: int)
    requires 0 <= i <= |s| < count && p + count <= TWO32 && Copied(a, b, p, s, i) && Steady(a, view, p, count)
    ensures forall v: Word :: At(b, view, v) == At(a, view, v) && AccessBits(b, view, v) == AccessBits(a, view, v)
    ensures forall q: Word :: Clear(q, p, count) ==> GetByte(b, q) == GetByte(a, q)
  {
  }

  /** strncpy(dest, src, count) with the view's page directory loaded; the bytes of dest
      lie at physical address p. */
  method StringCopy(k: KernelMemory, view: View, dest: Word, src: Word, count: int, ghost p: Word)
    requires 1 <= count && p + count <= TWO32 && Steady(k.ram, view, p, count)
    requires forall i: Word :: i < count ==>
               At(k.ram, view, Plus(dest, i)) == p + i && AccessBits(k.ram, view, Plus(dest, i)) == (3, 3)
    requires forall i: Word :: i < count - 1 && i <= |StringAt(k.ram, view, src, count - 1)| ==>
               Clear(At(k.ram, view, Plus(src, i)), p, count) && Present(k.ram, view, Plus(src, i))
    modifies k`ram
    ensures Written(old(k.ram), k.ram, p, StringAt(old(k.ram), view, src, count - 1))
  {
    hide GetByte, PutByte, At, AccessBits, Plus, StringAt, Steady, SameOutside, Copied, Written, Clear;
    ghost var a, s := k.ram, StringAt(k.ram, view, src, count - 1);
    StringAtStart(a, view, src, count - 1);
    CopiedNothing(a, p, s);
    var i: Word := 0;
    while i < count - 1
      invariant 0 <= i <= count - 1 && i <= |s|
      invariant s == s[..i] + StringAt(a, view, Plus(src, i), count - 1 - i)
      invariant Copied(a, k.ram, p, s, i)
    {
      CopyView(a, k.ram, view, p, s, i, count);
      var read := ReadAt(k.ram, view, Plus(src, i));
      if read == 0 {
        break;
      }
      StringCopyStep(a, view, src, count - 1, s, i);
      CopiedStep(a, k.ram, p, s, i);
      k.ram := WriteAt(k.ram, view, Plus(dest, i), read);
      i := i + 1;
    }
    CopyView(a, k.ram, view, p, s, i, count);
    StringAtEnd(a, view, Plus(src, i), count - 1 - i);
    assert |s| == i;
    CopiedEnd(a, k.ram, p, s);
    k.ram := WriteAt(k.ram, view, Plus(dest, i), 0);
  }

  lemma CopiedNothing(a: Ram, p: Word, s: seq<Byte>)
    requires p + |s| < TWO32
    ensures Copied(a, a, p, s, 0)
  {
  }

  lemma StringAtStart(a: Ram, view: View, src: Word, n: nat)
    ensures Plus(src, 0) == src && StringAt(a, view, src, n) == [] + StringAt(a, view, Plus(src, 0), n)
  {
  }

  lemma StringAtEnd(a: Ram, view: View, v: Word, n: nat)
    ensures n == 0 || GetByte(a, At(a, view, v)) == 0 ==> StringAt(a, view, v, n) == []
  {
  }

  lemma StringCopyStep(a: Ram, view: View, src: Word, n: int, s: seq<Byte>, i: Word)
    requires 0 <= i < n && i <= |s| && s == s[..i] + StringAt(a, view, Plus(src, i), n - i)
    requires GetByte(a, At(a, view, Plus(src, i))) != 0
    ensures i < |s| && s[i] == GetByte(a, At(a, view, Plus(src, i)))
    ensures s == s[..i + 1] + StringAt(a, view, Plus(src, i + 1), n - (i + 1))
  {
    hide GetByte, At, StringAt;
    var t := StringAt(a, view, Plus(src, i), n - i);
    StringAtUnfold(a, view, src, n, i);
    assert s[i..] == t && s[i + 1..] == t[1..];
  }

  lemma StringAtUnfold(a: Ram, view: View, src: Word, n: int, i: Word)
    requires i < n && GetByte(a, At(a, view, Plus(src, i))) != 0
    ensures StringAt(a, view, Plus(src, i), n - i)
            == [GetByte(a, At(a, view, Plus(src, i)))] + StringAt(a, view, Plus(src, i + 1), n - (i + 1))
  {
    hide GetByte, At;
    assert Wrap(Wrap(src + i) + 1) == Wrap(src + (i + 1));
  }

  // --------------------------------------------- the scratch page and the task

  /** a and b agree on every frame but t. */
  ghost predicate SameFrames(a: Ram, b: Ram, t: FrameNo) {
    forall f: FrameNo :: f != t ==> b[f] == a[f]
  }

  /** t is no frame of address space c. */
  ghost predicate NoPart(ram: Ram, c: FrameNo, t: FrameNo) {
    forall i: nat :: i < PAGES_PER_TABLE + 2 ==> PartFrame(ram, c, i) != t
  }

  lemma SameFramesView(a: Ram, b: Ram, c: FrameNo, t: FrameNo)
    requires SameFrames(a, b, t) && NoPart(a, c, t)
    ensures DirFrame(b, c) == DirFrame(a, c) && NoPart(b, c, t)
    ensures forall v: Word :: Translate(b, DirFrame(b, c), v) == Translate(a, DirFrame(a, c), v)
    ensures forall q: FrameNo :: PageEntry(b, c, q) == PageEntry(a, c, q)
    ensures forall i: Slot :: DirEntry(b, c, i) == DirEntry(a, c, i) && TableFrame(b, c, i) == TableFrame(a, c, i)
  {
    hide PageEntry, Translate, PartFrame;
    SamePartsView(a, b, c);
    PartFrameEnds(a, c);
    PartFrameEnds(b, c);
    forall v: Word ensures Translate(b, DirFrame(b, c), v) == Translate(a, DirFrame(a, c), v) {
      GetIsPageEntry(a, c, v);
      GetIsPageEntry(b, c, v);
    }
  }

  lemma PartFrameEnds(ram: Ram, c: FrameNo)
    ensures PartFrame(ram, c, PAGES_PER_TABLE) == DirFrame(ram, c)
    ensures forall i: Slot :: PartFrame(ram, c, i) == TableFrame(ram, c, i)
  {
  }

  lemma OutsideIsFrames(a: Ram, b: Ram, t: FrameNo, n: int)
    requires SameOutside(a, b, FrameAddress(t), n) && n <= PAGE_SIZE
    ensures SameFrames(a, b, t)
  {
    hide GetByte;
    forall f: FrameNo | f != t ensures b[f] == a[f] {
      forall x: Word | Pfn(x) == f ensures GetByte(b, x) == GetByte(a, x) {
        assert Clear(x, FrameAddress(t), n);
      }
      BytesDetermineFrame(a, b, f);
    }
  }

  /** Writing the scratch page does not disturb the task's translation. */
  lemma ScratchSteady(a: Ram, c: FrameNo, t: FrameNo, n: int)
    requires NoPart(a, c, t) && n <= PAGE_SIZE
    ensures Steady(a, TaskView(DirFrame(a, c)), FrameAddress(t), n)
  {
    hide GetByte, Translate, AccessBits, DirEntry;
    forall r: Ram, v: Word | SameOutside(a, r, FrameAddress(t), n)
      ensures At(r, TaskView(DirFrame(a, c)), v) == At(a, TaskView(DirFrame(a, c)), v)
      ensures AccessBits(r, TaskView(DirFrame(a, c)), v) == AccessBits(a, TaskView(DirFrame(a, c)), v) {
      OutsideIsFrames(a, r, t, n);
      SameFramesView(a, r, c, t);
      TaskBits(a, c, v);
      TaskBits(r, c, v);
    }
  }

  lemma {:induction false} StringAtSame(a: Ram, b: Ram, view: View, v: Word, w: Word, i: int, n: nat)
    requires v == Plus(w, i)
    requires forall j: Word | i <= j < i + n && j <= i + |StringAt(a, view, v, n)| ::
               && At(b, view, Plus(w, j)) == At(a, view, Plus(w, j))
               && GetByte(b, At(a, view, Plus(w, j))) == GetByte(a, At(a, view, Plus(w, j)))
    requires 0 <= i && i + n <= PAGE_SIZE
    ensures StringAt(b, view, v, n) == StringAt(a, view, v, n)
    decreases n
  {
    hide GetByte, At, StringAt;
    if n > 0 {
      StringAtStep(a, view, v, n);
      StringAtStep(b, view, v, n);
      if GetByte(a, At(a, view, v)) != 0 {
        assert Wrap(v + 1) == Plus(w, i + 1);
        StringAtSame(a, b, view, Wrap(v + 1), w, i + 1, n - 1);
      }
    } else {
      StringAtNone(a, b, view, v);
    }
  }

  lemma StringAtNone(a: Ram, b: Ram, view: View, v: Word)
    ensures StringAt(a, view, v, 0) == StringAt(b, view, v, 0) == []
  {
  }

  lemma StringAtStep(a: Ram, view: View, v: Word, n: nat)
    requires n > 0
    ensures StringAt(a, view, v, n)
            == if GetByte(a, At(a, view, v)) == 0 then []
               else [GetByte(a, At(a, view, v))] + StringAt(a, view, Wrap(v + 1), n - 1)
  {
  }

  /** A terminated string in kernel memory reads back as itself. */
  lemma {:induction false} StringReadsBack(a: Ram, p: Word, s: seq<Byte>, n: nat)
    requires p + |s| < TWO32 && |s| <= n && 0 !in s
    requires (forall i | 0 <= i < |s| :: GetByte(a, p + i) == s[i]) && GetByte(a, p + |s|) == 0
    ensures StringAt(a, KernelView, p, n) == s
    decreases n
  {
    hide GetByte;
    if s != [] {
      assert GetByte(a, p + 0) == s[0] && s[0] in s;
      forall i | 0 <= i < |s[1..]| ensures GetByte(a, (p + 1) + i) == s[1..][i] {
        assert GetByte(a, p + (i + 1)) == s[i + 1];
      }
      StringReadsBack(a, p + 1, s[1..], n - 1);
    }
  }

  /** Mapping the scratch page writeable: where it leads, what it permits, and what else
      changes. */
  lemma ScratchMapped(a: Ram, c: FrameNo, t: FrameNo)
    requires Separate(a, c) && NoPart(a, c, t)
    ensures var b := SetEntry(a, DirFrame(a, c), t, FrameAddress(t) + READ_WRITE);
            && Separate(b, c) && NoPart(b, c, t) && DirFrame(b, c) == DirFrame(a, c)
            && SameFrames(a, b, TableFrame(a, c, t / PAGES_PER_TABLE)) && b[t] == a[t]
            && (forall x: Word :: Pfn(x) == t ==> Translate(b, DirFrame(b, c), x) == x)
            && (forall x: Word :: Pfn(x) != t ==> Translate(b, DirFrame(b, c), x) == Translate(a, DirFrame(a, c), x))
            && PageEntry(b, c, t) % 8 == 7 && (forall q: FrameNo :: q != t ==> PageEntry(b, c, q) == PageEntry(a, c, q))
            && (forall i: Slot :: DirEntry(b, c, i) == DirEntry(a, c, i))
  {
    hide PageEntry, Translate;
    FlagBits(t);
    SetEntryExact(a, c, t, FrameAddress(t) + READ_WRITE);
    var b := SetEntry(a, DirFrame(a, c), t, FrameAddress(t) + READ_WRITE);
    OnlyTablesKeeps(a, b, c);
    PartFrameEnds(a, c);
    assert PartFrame(a, c, t / PAGES_PER_TABLE) == TableFrame(a, c, t / PAGES_PER_TABLE);
    forall i: nat | i < PAGES_PER_TABLE + 2 ensures PartFrame(b, c, i) == PartFrame(a, c, i) {
      RemapOwn(a, b, c, i);
    }
    forall x: Word
      ensures Pfn(x) == t ==> Translate(b, DirFrame(b, c), x) == x
      ensures Pfn(x) != t ==> Translate(b, DirFrame(b, c), x) == Translate(a, DirFrame(a, c), x) {
      GetIsPageEntry(a, c, x);
      GetIsPageEntry(b, c, x);
      EntryFrame(t);
    }
  }

  lemma EntryFrame(t: FrameNo)
    ensures Pfn(FrameAddress(t) + READ_WRITE) == t
  {
  }

  /** Putting the old entry back undoes the mapping, whatever was written to the page. */
  lemma ScratchRestored(a: Ram, b: Ram, d: Ram, c: FrameNo, t: FrameNo)
    requires Separate(a, c) && NoPart(a, c, t)
    requires b == SetEntry(a, DirFrame(a, c), t, FrameAddress(t) + READ_WRITE) && SameFrames(b, d, t)
    ensures var e := SetEntry(d, DirFrame(a, c), t, PageEntry(a, c, t));
            SameFrames(a, e, t) && e[t] == d[t]
  {
    ScratchMapped(a, c, t);
    PartFrameEnds(a, c);
    var i := t / PAGES_PER_TABLE;
    var f := TableFrame(a, c, i);
    assert PartFrame(a, c, i) == f && f != t;
    assert PartFrame(a, c, PAGES_PER_TABLE) == DirFrame(a, c) && DirFrame(a, c) != t;
    assert f != DirFrame(a, c);
    var e := SetEntry(d, DirFrame(a, c), t, PageEntry(a, c, t));
    assert d[DirFrame(a, c)] == a[DirFrame(a, c)];
    assert e[f] == a[f];
  }

  // -------------------------------------------------------- the whole routine

  /** The frame of the block a one-page request will get. */
  ghost function ScratchFrame(m: Map): int {
    BlockFrame(StartBlock(m, 1))
  }

  /** The source, up to its terminator or its first max - 1 bytes, avoids the scratch page
      and the table frame that maps it, and its pages are present; the destination avoids
      the scratch page. */
  ghost predicate CopySafe(ph: Phys, c: FrameNo, virtual: Word, phys: Word, max: int) {
    var t := ScratchFrame(ph.heap);
    && 1 <= max && phys + max <= TWO32
    && (forall x: Word :: phys <= x < phys + max ==> Pfn(x) != t)
    && (forall i: Word :: i < max - 1 && i <= |StringAt(ph.ram, TaskView(DirFrame(ph.ram, c)), virtual, max - 1)| ==>
          SourceSafe(ph.ram, c, t, Plus(virtual, i)))
  }

  ghost predicate SourceSafe(ram: Ram, c: FrameNo, t: int, v: Word) {
    var f := Pfn(Translate(ram, DirFrame(ram, c), v));
    && Pfn(v) != t && f != t
    && (0 <= t < TOTAL_PAGES ==> f != TableFrame(ram, c, t / PAGES_PER_TABLE))
    && PageEntry(ram, c, Pfn(v)) % 2 == 1
  }

  /** The task owns its page directory, which permits what the pages permit, and memory is
      well formed. */
  ghost predicate TaskReady(ph: Phys, c: FrameNo) {
    && KernelMap(ph.heap) && OwnsParts(ph.heap, ph.ram, c)
    && Separate(ph.ram, c) && OpenDirectory(ph.ram, c)
  }

  /** Memory after a copy: the string with its terminator at phys, and every other byte
      outside the scratch page as before. */
  ghost predicate CopyDone(a: Ram, b: Ram, c: FrameNo, virtual: Word, phys: Word, max: int, t: int)
    requires 1 <= max && phys + max <= TWO32
  {
    var s := StringAt(a, TaskView(DirFrame(a, c)), virtual, max - 1);
    && (forall i | 0 <= i < |s| :: GetByte(b, phys + i) == s[i])
    && GetByte(b, phys + |s|) == 0
    && (forall x: Word :: Clear(x, phys, |s| + 1) && Pfn(x) != t ==> GetByte(b, x) == GetByte(a, x))
  }

  lemma ScratchAllocated(ph: Phys, c: FrameNo, max: int)
    requires TaskReady(ph, c) && 1 <= max < PAGE_SIZE
    ensures !Fits(ph.heap, 1) ==> ZeroedAlloc(ph, max) == (ph, 0)
    ensures Fits(ph.heap, 1) ==>
              var (r, ptr) := ZeroedAlloc(ph, max);
              var t := ScratchFrame(ph.heap);
              && 0 <= t < TOTAL_PAGES && ptr == FrameAddress(t) && ptr != 0 && AddressBlock(ptr) >= 0
              && MarkFree(r.heap, AddressBlock(ptr)) == ph.heap && |r.heap| == |ph.heap|
              && SameFrames(ph.ram, r.ram, t) && NoPart(ph.ram, c, t)
  {
    hide WellFormed, Live, MarkTaken, Zeroed, Separate, PartBlocks, PartFrame;
    assert Blocks(max) == 1;
    SmallRequestServeable(ph.heap, max);
    MallocOutcome(ph.heap, max);
    if Fits(ph.heap, 1) {
      var s := StartBlock(ph.heap, 1);
      ZeroedExact(ph.ram, BlockFrame(s), max);
      AddressBlockInverse(s, 0);
      TakeThenFreeRestores(ph.heap, s, 1);
      assert BlockAddress(s) == FrameAddress(BlockFrame(s));
      forall i: nat | i < PAGES_PER_TABLE + 2 ensures PartFrame(ph.ram, c, i) != BlockFrame(s) {
        PartFrameIsPart(ph.ram, c, i);
      }
    }
  }

  lemma CopySafeBounds(ph: Phys, c: FrameNo, virtual: Word, phys: Word, max: int)
    requires CopySafe(ph, c, virtual, phys, max)
    ensures 1 <= max && phys + max <= TWO32
  {
  }

  lemma DestinationClear(ph: Phys, c: FrameNo, virtual: Word, phys: Word, max: int)
    requires CopySafe(ph, c, virtual, phys, max)
    ensures 1 <= max && phys + max <= TWO32
    ensures forall x: Word :: phys <= x < phys + max ==> Pfn(x) != ScratchFrame(ph.heap)
  {
  }

  lemma ScratchSeparate(a: Ram, b: Ram, c: FrameNo, t: FrameNo)
    requires SameFrames(a, b, t) && NoPart(a, c, t) && Separate(a, c)
    ensures Separate(b, c) && NoPart(b, c, t) && DirFrame(b, c) == DirFrame(a, c)
  {
    SameFramesView(a, b, c, t);
  }

  /** Copying into the scratch page: the task's tables lead to it and to the source, and
      the source is as it was before the page was allocated and mapped. */
  lemma FirstCopyReady(ph: Phys, a: Ram, b: Ram, c: FrameNo, t: FrameNo, virtual: Word, phys: Word, max: int)
    requires CopySafe(ph, c, virtual, phys, max) && max < PAGE_SIZE && t == ScratchFrame(ph.heap)
    requires Separate(ph.ram, c) && NoPart(ph.ram, c, t) && SameFrames(ph.ram, a, t) && OpenDirectory(ph.ram, c)
    requires b == SetEntry(a, DirFrame(a, c), t, FrameAddress(t) + READ_WRITE)
    ensures var view := TaskView(DirFrame(a, c));
            && Steady(b, view, FrameAddress(t), max)
            && (forall i: Word :: i < max ==>
                  && At(b, view, Plus(FrameAddress(t), i)) == FrameAddress(t) + i
                  && AccessBits(b, view, Plus(FrameAddress(t), i)) == (3, 3))
            && (forall i: Word :: i < max - 1 && i <= |StringAt(b, view, virtual, max - 1)| ==>
                  && Clear(At(b, view, Plus(virtual, i)), FrameAddress(t), max)
                  && Present(b, view, Plus(virtual, i)))
            && StringAt(b, view, virtual, max - 1) == StringAt(ph.ram, TaskView(DirFrame(ph.ram, c)), virtual, max - 1)
  {
    hide PageEntry, Translate, Separate, SetEntry, GetByte, PartFrame, StringAt, SameFrames, ScratchFrame, Steady,
      TableFrame, CopySafe, AccessBits, Present, DirEntry, OpenDirectory;
    CopySafeBounds(ph, c, virtual, phys, max);
    ScratchSeparate(ph.ram, a, c, t);
    SameFramesView(ph.ram, a, c, t);
    ScratchMapped(a, c, t);
    ScratchSteady(b, c, t, max);
    var view := TaskView(DirFrame(a, c));
    forall i: Word | i < max
      ensures At(b, view, Plus(FrameAddress(t), i)) == FrameAddress(t) + i
      ensures AccessBits(b, view, Plus(FrameAddress(t), i)) == (3, 3) {
      assert Pfn(FrameAddress(t) + i) == t;
      BitsAfterMapping(ph.ram, a, b, c, t, Plus(FrameAddress(t), i));
    }
    forall i: Word | i < max - 1 && i <= |StringAt(ph.ram, view, virtual, max - 1)|
      ensures Present(b, view, Plus(virtual, i))
      ensures At(b, view, Plus(virtual, i)) == At(ph.ram, view, Plus(virtual, i))
      ensures Pfn(At(b, view, Plus(virtual, i))) != t
      ensures GetByte(b, At(ph.ram, view, Plus(virtual, i))) == GetByte(ph.ram, At(ph.ram, view, Plus(virtual, i))) {
      SourceAt(ph, c, virtual, phys, max, i);
      BitsAfterMapping(ph.ram, a, b, c, t, Plus(virtual, i));
      SameFrameSameByte(ph.ram, a, b, t, TableFrame(a, c, t / PAGES_PER_TABLE), At(ph.ram, view, Plus(virtual, i)));
    }
    StringAtSame(ph.ram, b, view, virtual, virtual, 0, max - 1) by {
      assert Plus(virtual, 0) == virtual;
    }
  }

  /** What the task's view permits once the scratch page is mapped. */
  lemma BitsAfterMapping(before: Ram, a: Ram, b: Ram, c: FrameNo, t: FrameNo, v: Word)
    requires (forall i: Slot :: DirEntry(b, c, i) == DirEntry(a, c, i) == DirEntry(before, c, i))
    requires (forall q: FrameNo :: q != t ==> PageEntry(b, c, q) == PageEntry(a, c, q) == PageEntry(before, c, q))
    requires OpenDirectory(before, c) && PageEntry(b, c, t) % 8 == 7 && DirFrame(b, c) == DirFrame(a, c)
    ensures Pfn(v) == t ==> AccessBits(b, TaskView(DirFrame(a, c)), v) == (3, 3)
    ensures Pfn(v) != t && PageEntry(before, c, Pfn(v)) % 2 == 1 ==> Present(b, TaskView(DirFrame(a, c)), v)
  {
    hide PageEntry, DirEntry, AccessBits;
    TaskBits(b, c, v);
    assert DirEntry(before, c, Pfn(v) / PAGES_PER_TABLE) % 8 == 7;
  }

  lemma SourceAt(ph: Phys, c: FrameNo, virtual: Word, phys: Word, max: int, i: Word)
    requires CopySafe(ph, c, virtual, phys, max)
    requires 1 <= max && i < max - 1 && i <= |StringAt(ph.ram, TaskView(DirFrame(ph.ram, c)), virtual, max - 1)|
    ensures SourceSafe(ph.ram, c, ScratchFrame(ph.heap), Plus(virtual, i))
  {
  }

  lemma SameFrameSameByte(a: Ram, b: Ram, d: Ram, t: FrameNo, u: FrameNo, x: Word)
    requires SameFrames(a, b, t) && SameFrames(b, d, u) && Pfn(x) != t && Pfn(x) != u
    ensures GetByte(d, x) == GetByte(a, x)
  {
  }

  lemma ScratchClear(t: FrameNo, phys: Word, max: int, i: Word)
    requires i < max < PAGE_SIZE && forall x: Word :: phys <= x < phys + max ==> Pfn(x) != t
    ensures Clear(Plus(FrameAddress(t), i), phys, max)
  {
    assert Pfn(FrameAddress(t) + i) == t && Plus(FrameAddress(t), i) == FrameAddress(t) + i;
  }

  /** Copying out of the scratch page: the page tables are as before, and the page holds
      the string. */
  lemma SecondCopyReady(ph: Phys, a: Ram, b: Ram, d: Ram, e: Ram, c: FrameNo, t: FrameNo,
                        s: seq<Byte>, virtual: Word, phys: Word, max: int)
    requires CopySafe(ph, c, virtual, phys, max) && max < PAGE_SIZE && t == ScratchFrame(ph.heap) && |s| < max
    requires 0 !in s
    requires Separate(ph.ram, c) && NoPart(ph.ram, c, t) && SameFrames(ph.ram, a, t)
    requires b == SetEntry(a, DirFrame(a, c), t, FrameAddress(t) + READ_WRITE)
    requires Written(b, d, FrameAddress(t), s)
    requires e == SetEntry(d, DirFrame(a, c), t, PageEntry(a, c, t))
    ensures SameFrames(ph.ram, e, t) && Steady(e, KernelView, phys, max)
    ensures forall i: Word :: i < max ==> At(e, KernelView, Plus(phys, i)) == phys + i
    ensures forall i: Word :: i < max - 1 ==> Clear(At(e, KernelView, Plus(FrameAddress(t), i)), phys, max)
    ensures StringAt(e, KernelView, FrameAddress(t), max - 1) == s
  {
    hide PageEntry, Translate, Separate, SetEntry, PartFrame, StringAt, ScratchFrame, TableFrame, CopySafe, ByteOf;
    DestinationClear(ph, c, virtual, phys, max);
    ScratchSeparate(ph.ram, a, c, t);
    OutsideIsFrames(b, d, t, |s| + 1);
    ScratchRestored(a, b, d, c, t);
    forall x: Word | Pfn(x) == t ensures GetByte(e, x) == GetByte(d, x) {
    }
    assert forall x: Word :: FrameAddress(t) <= x <= FrameAddress(t) + |s| ==> Pfn(x) == t;
    forall i | 0 <= i < |s| ensures GetByte(e, FrameAddress(t) + i) == s[i] {
      assert GetByte(d, FrameAddress(t) + i) == s[i];
    }
    StringReadsBack(e, FrameAddress(t), s, max - 1);
    forall i: Word | i < max - 1 ensures Clear(Plus(FrameAddress(t), i), phys, max) {
      ScratchClear(t, phys, max, i);
    }
  }

  lemma CopyFinished(ph: Phys, e: Ram, f: Ram, c: FrameNo, t: FrameNo, s: seq<Byte>,
      virtual: Word, phys: Word, max: int)
    requires CopySafe(ph, c, virtual, phys, max) && t == ScratchFrame(ph.heap) && |s| < max
    requires s == StringAt(ph.ram, TaskView(DirFrame(ph.ram, c)), virtual, max - 1)
    requires SameFrames(ph.ram, e, t) && Written(e, f, phys, s)
    ensures CopyDone(ph.ram, f, c, virtual, phys, max, t)
  {
    hide ByteOf, ScratchFrame, SourceSafe, StringAt;
    forall x: Word | Clear(x, phys, |s| + 1) && Pfn(x) != t ensures GetByte(f, x) == GetByte(ph.ram, x) {
      assert GetByte(e, x) == GetByte(ph.ram, x);
    }
  }

  /** Into memory that is no page table of the task, a copy leaves the task's directory and
      tables, and so its translation, exactly as they were. */
  lemma CopyKeepsTables(ph: Phys, b: Ram, c: FrameNo, virtual: Word, phys: Word, max: int)
    requires TaskReady(ph, c) && CopySafe(ph, c, virtual, phys, max) && Fits(ph.heap, 1) && max < PAGE_SIZE
    requires CopyDone(ph.ram, b, c, virtual, phys, max, ScratchFrame(ph.heap))
    requires forall x: Word, i: nat :: phys <= x < phys + max && i < PAGES_PER_TABLE + 2 ==>
               PartFrame(ph.ram, c, i) != Pfn(x)
    ensures SameParts(ph.ram, b, c)
    ensures forall q: FrameNo :: PageEntry(b, c, q) == PageEntry(ph.ram, c, q)
    ensures forall v: Word :: Translate(b, DirFrame(b, c), v) == Translate(ph.ram, DirFrame(ph.ram, c), v)
  {
    hide GetByte, PartFrame, PageEntry, Translate, StringAt, OwnsParts, Separate, KernelMap, SourceSafe,
      ScratchFrame, NoPart;
    ScratchAllocated(ph, c, max);
    var t := ScratchFrame(ph.heap);
    assert NoPart(ph.ram, c, t);
    forall i: nat | i < PAGES_PER_TABLE + 2 ensures b[PartFrame(ph.ram, c, i)] == ph.ram[PartFrame(ph.ram, c, i)] {
      var f := PartFrame(ph.ram, c, i);
      PartNotScratch(ph.ram, c, t, i);
      forall x: Word | Pfn(x) == f ensures GetByte(b, x) == GetByte(ph.ram, x) {
        assert Clear(x, phys, max);
      }
      BytesDetermineFrame(ph.ram, b, f);
    }
    SamePartsView(ph.ram, b, c);
    forall v: Word ensures Translate(b, DirFrame(b, c), v) == Translate(ph.ram, DirFrame(ph.ram, c), v) {
      GetIsPageEntry(ph.ram, c, v);
      GetIsPageEntry(b, c, v);
    }
  }

  lemma PartNotScratch(ram: Ram, c: FrameNo, t: FrameNo, i: nat)
    requires NoPart(ram, c, t) && i < PAGES_PER_TABLE + 2
    ensures PartFrame(ram, c, i) != t
  {
  }

  /** copy_string_from_task. */
  method CopyStringFromTask(k: KernelMemory, c: FrameNo, virtual: Word, phys: Word, max: int) returns (res: int)
    requires TaskReady(k.State(), c) && CopySafe(k.State(), c, virtual, phys, max)
    modifies k`ram, k.heap.entries
    ensures k.heap.entries[..] == old(k.heap.entries[..])
    ensures max >= PAGE_SIZE ==> res == -EINVARG && k.ram == old(k.ram)
    ensures max < PAGE_SIZE && !Fits(old(k.heap.entries[..]), 1) ==> res == -ENOMEM && k.ram == old(k.ram)
    ensures max < PAGE_SIZE && Fits(old(k.heap.entries[..]), 1) ==>
              res == 0 && CopyDone(old(k.ram), k.ram, c, virtual, phys, max, old(ScratchFrame(k.heap.entries[..])))
  {
    hide WellFormed, Live, StartBlock, ZeroedAlloc, Separate, OwnsParts, PageEntry, GetByte, StringAt, Translate,
      MarkFree, AddressBlock, Serveable, Steady, Written, SameFrames, NoPart, SetEntry, CopySafe, CopyDone, Fits;
    if max >= PAGE_SIZE {
      return -EINVARG;
    }
    ghost var before := k.State();
    CopySafeBounds(before, c, virtual, phys, max);
    ScratchAllocated(before, c, max);
    SmallRequestServeable(k.heap.entries[..], max);
    var tmp := k.ZeroedAllocate(max);
    if tmp == 0 {
      return -ENOMEM;
    }
    ghost var t := ScratchFrame(before.heap);
    ghost var a := k.ram;
    ScratchSeparate(before.ram, a, c, t);
    var directory := Pfn(k.ram[c][0]);
    var oldEntry := k.PagingGet(directory, tmp);
    GetIsPageEntry(a, c, tmp);
    var mapped := k.MapPage(c, tmp, tmp, READ_WRITE);
    ghost var b := k.ram;
    FirstCopyReady(before, a, b, c, t, virtual, phys, max);
    ghost var s := StringAt(b, TaskView(directory), virtual, max - 1);
    StringCopy(k, TaskView(directory), tmp, virtual, max, tmp);
    ghost var d := k.ram;
    res := k.PagingSet(directory, tmp, oldEntry);
    if res < 0 {
      res := -EIO;
    } else {
      ghost var e := k.ram;
      SecondCopyReady(before, a, b, d, e, c, t, s, virtual, phys, max);
      StringCopy(k, KernelView, phys, tmp, max, phys);
      CopyFinished(before, e, k.ram, c, t, s, virtual, phys, max);
    }
    k.heap.Free(tmp);
  }
}
