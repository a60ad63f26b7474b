/** The address bounds that elf_process_pheaders works out (src/loader/Elfloader.c). */
module ElfBounds {
  import opened Machine

  /** The fields of struct Elf32Phdr read here; load says that p_type is PT_LOAD. */
  datatype Header = Header(load: bool, vaddr: Word, offset: int, filesz: Word)

  /** The four addresses of struct ElfFile. */
  datatype Bounds = Bounds(vbase: Word, pbase: Word, vend: Word, pend: Word)

  function End(h: Header): Word {
    Wrap(h.vaddr + h.filesz)
  }

  /** elf_process_pheader, which always succeeds. */
  function Step(b: Bounds, mem: Word, h: Header): Bounds {
    if !h.load then b
    else
      var low := if b.vbase >= h.vaddr || b.vbase == 0 then b.(vbase := h.vaddr, pbase := Wrap(mem + h.offset)) else b;
      if b.vend <= End(h) || b.vend == 0 then low.(vend := End(h), pend := Wrap(mem + h.offset + h.filesz)) else low
  }

  /** elf_process_pheaders on a zeroed structure. */
  function Process(mem: Word, hs: seq<Header>): Bounds {
    if hs == [] then Bounds(0, 0, 0, 0) else Step(Process(mem, hs[..|hs| - 1]), mem, hs[|hs| - 1])
  }

  predicate Loaded(hs: seq<Header>, i: int) {
    0 <= i < |hs| && hs[i].load
  }

  /** The last loaded header, -1 if there is none. */
  function Last(hs: seq<Header>): (r: int)
    ensures r == -1 || Loaded(hs, r)
    ensures forall i :: r < i ==> !Loaded(hs, i)
  {
    if hs == [] then -1
    else if hs[|hs| - 1].load then |hs| - 1
    else
      assert forall i :: Loaded(hs, i) ==> Loaded(hs[..|hs| - 1], i);
      Last(hs[..|hs| - 1])
  }

  lemma {:induction false} BaseZeroIff(mem: Word, hs: seq<Header>)
    ensures Process(mem, hs).vbase == 0 <==> Last(hs) == -1 || hs[Last(hs)].vaddr == 0
    decreases |hs|
  {
    if hs != [] {
      BaseZeroIff(mem, hs[..|hs| - 1]);
    }
  }

  lemma {:induction false} BaseBelow(mem: Word, hs: seq<Header>)
    requires forall i :: Loaded(hs, i) ==> hs[i].vaddr != 0
    ensures forall i :: Loaded(hs, i) ==> 0 < Process(mem, hs).vbase <= hs[i].vaddr
    decreases |hs|
  {
    if hs != [] {
      var front := hs[..|hs| - 1];
      assert forall i :: Loaded(front, i) ==> Loaded(hs, i) && front[i] == hs[i];
      assert forall i :: Loaded(hs, i) ==> i == |front| || Loaded(front, i);
      BaseBelow(mem, front);
      BaseZeroIff(mem, front);
    }
  }

  /** The virtual base is the lowest p_vaddr of the loaded headers if and only if none of
      them is 0 or the last one is: a base of 0 counts as not set yet. */
  lemma BaseIsLowestIff(mem: Word, hs: seq<Header>)
    requires Last(hs) >= 0
    ensures (forall i :: Loaded(hs, i) ==> Process(mem, hs).vbase <= hs[i].vaddr)
            <==> (forall i :: Loaded(hs, i) ==> hs[i].vaddr != 0) || hs[Last(hs)].vaddr == 0
  {
    BaseZeroIff(mem, hs);
    if forall i :: Loaded(hs, i) ==> hs[i].vaddr != 0 {
      BaseBelow(mem, hs);
    }
  }

  /** Both base addresses come from one loaded header. */
  lemma {:induction false} BaseOfHeader(mem: Word, hs: seq<Header>) returns (i: int)
    requires Last(hs) >= 0
    ensures Loaded(hs, i) && Process(mem, hs).vbase == hs[i].vaddr && Process(mem, hs).pbase == Wrap(mem + hs[i].offset)
    decreases |hs|
  {
    var n := |hs| - 1;
    var b := Process(mem, hs[..n]);
    if hs[n].load && (b.vbase >= hs[n].vaddr || b.vbase == 0) {
      i := n;
    } else {
      BaseZeroIff(mem, hs[..n]);
      i := BaseOfHeader(mem, hs[..n]);
    }
  }

  /** The virtual end is the highest p_vaddr + p_filesz (as 32-bit values), and the physical
      end that of the same header. */
  lemma {:induction false} EndOfHeader(mem: Word, hs: seq<Header>) returns (i: int)
    requires Last(hs) >= 0
    ensures Loaded(hs, i) && Process(mem, hs).vend == Wrap(hs[i].vaddr + hs[i].filesz)
    ensures Process(mem, hs).pend == Wrap(mem + hs[i].offset + hs[i].filesz)
    ensures forall j :: Loaded(hs, j) ==> Wrap(hs[j].vaddr + hs[j].filesz) <= Process(mem, hs).vend
    decreases |hs|
  {
    var front := hs[..|hs| - 1];
    assert forall j :: Loaded(hs, j) ==> j == |front| || (Loaded(front, j) && front[j] == hs[j]);
    if Last(front) >= 0 {
      i := EndOfHeader(mem, front);
      if hs[|front|].load && Process(mem, front).vend <= End(hs[|front|]) {
        i := |front|;
      }
    } else {
      NothingLoaded(mem, front);
      i := |front|;
    }
  }

  lemma {:induction false} NothingLoaded(mem: Word, hs: seq<Header>)
    requires Last(hs) == -1
    ensures Process(mem, hs) == Bounds(0, 0, 0, 0) && forall i :: !Loaded(hs, i)
    decreases |hs|
  {
    if hs != [] {
      NothingLoaded(mem, hs[..|hs| - 1]);
    }
  }

  class ElfFile {
    const memory: Word
    var bounds: Bounds

    constructor (memory: Word)
      ensures this.memory == memory && bounds == Bounds(0, 0, 0, 0)
    {
      this.memory, bounds := memory, Bounds(0, 0, 0, 0);
    }

    /** elf_process_phdr_pt_load */
    method ProcessLoad(h: Header)
      requires h.load
      modifies this
      ensures bounds == Step(old(bounds), memory, h)
    {
      if bounds.vbase >= h.vaddr || bounds.vbase == 0 {
        bounds := bounds.(vbase := h.vaddr, pbase := Wrap(memory + h.offset));
      }
      var end := Wrap(h.vaddr + h.filesz);
      if bounds.vend <= end || bounds.vend == 0 {
        bounds := bounds.(vend := end, pend := Wrap(memory + h.offset + h.filesz));
      }
    }

    /** elf_process_pheaders */
    method ProcessHeaders(hs: seq<Header>)
      requires bounds == Bounds(0, 0, 0, 0)
      modifies this
      ensures bounds == Process(memory, hs)
    {
      var i := 0;
      while i < |hs|
        invariant 0 <= i <= |hs| && bounds == Process(memory, hs[..i])
      {
        assert hs[..i + 1][..i] == hs[..i];
        if hs[i].load {
          ProcessLoad(hs[i]);
        }
        i := i + 1;
      }
      assert hs[..i] == hs;
    }
  }
}
