/** User programs among other processes: whatever runs between its steps, a program that
    loads from its own frames computes what it would compute alone. */
module Programs {
  import opened Machine
  import opened Bytes
  import opened Paging
  import opened Directory
  import opened Isolation
  import opened Steps
  import opened Process
  import opened System
  import opened Contents
  import opened Runs
  import ContextSwitch

  type Regs = ContextSwitch.Regs

  /** One instruction: registers only, or a word loaded from or stored to an address. */
  datatype Instruction =
    | Compute(regs: Regs)
    | LoadWord(v: Word, after: Word -> Regs)
    | StoreWord(v: Word, w: Word, regs: Regs)

  type Program = Regs -> Instruction

  /** All memory and processes, and the registers of the process watched. */
  datatype State = State(sys: Sys, regs: Regs)

  /** The process makes a step, or something else happens. */
  datatype Event = Own | Other(action: Action)

  /** The word the process sees at the aligned address v. */
  function LoadedWord(ram: Ram, c: FrameNo, v: Word): Word {
    ram[Pfn(PageEntry(ram, c, Pfn(v)))][v % PAGE_SIZE / 4]
  }

  ghost predicate HoldsFrame(sys: Sys, q: nat, f: FrameNo) {
    exists u: Use :: u.pid == q && InUse(sys, u, f)
  }

  /** Its four bytes are those at the place the address translates to. */
  lemma LoadExact(ram: Ram, c: FrameNo, v: Word, k: nat)
    requires v % 4 == 0 && k < 4
    ensures ByteOf(LoadedWord(ram, c, v), k) == GetByte(ram, Wrap(Translate(ram, DirFrame(ram, c), v) + k))
  {
    hide PageEntry, Translate, ByteOf, FrameAddress;
    GetIsPageEntry(ram, c, v);
    hide Pfn;
    var f, j := Pfn(PageEntry(ram, c, Pfn(v))), v % PAGE_SIZE / 4;
    AlignedWord(v);
    LoadedByte(ram, f, j, k);
  }

  lemma LoadedByte(ram: Ram, f: FrameNo, j: Slot, k: nat)
    requires k < 4
    ensures var x := FrameAddress(f) + 4 * j + k; x < TWO32 && GetByte(ram, x) == ByteOf(ram[f][j], k)
  {
    hide ByteOf;
    WordAddress(f, j, k);
  }

  /** The processor permits the load, and the address leads to a frame the process holds. */
  ghost predicate MayLoad(sys: Sys, q: nat, v: Word) {
    && Active(sys, q) && v % 4 == 0 && CanRead(sys.ph.ram, sys.procs[q].value.chunk, Pfn(v))
    && HoldsFrame(sys, q, Pfn(PageEntry(sys.ph.ram, sys.procs[q].value.chunk, Pfn(v))))
  }

  ghost predicate MayRun(s: State, q: nat, p: Program) {
    match p(s.regs)
    case Compute(_) => true
    case LoadWord(v, _) => MayLoad(s.sys, q, v)
    case StoreWord(v, _, _) => MayStore(s.sys, q, v)
  }

  ghost function OwnStep(s: State, q: nat, p: Program): State
    requires MayRun(s, q, p)
  {
    match p(s.regs)
    case Compute(regs) => s.(regs := regs)
    case LoadWord(v, after) => s.(regs := after(LoadedWord(s.sys.ph.ram, s.sys.procs[q].value.chunk, v)))
    case StoreWord(v, w, regs) => State(StoreStep(s.sys, q, v, w), regs)
  }

  ghost predicate Allowed(s: State, q: nat, p: Program, e: Event) {
    match e
    case Own => MayRun(s, q, p)
    case Other(action) => Legal(s.sys, action) && !ActsFor(action, q)
  }

  ghost function Happens(s: State, q: nat, p: Program, e: Event): State
    requires Allowed(s, q, p, e)
  {
    match e
    case Own => OwnStep(s, q, p)
    case Other(action) => s.(sys := Step(s.sys, action))
  }

  ghost predicate AllAllowed(s: State, q: nat, p: Program, events: seq<Event>)
    decreases |events|
  {
    events != [] ==> Allowed(s, q, p, events[0]) && AllAllowed(Happens(s, q, p, events[0]), q, p, events[1..])
  }

  ghost function Finally(s: State, q: nat, p: Program, events: seq<Event>): State
    requires AllAllowed(s, q, p, events)
    decreases |events|
  {
    if events == [] then s else Finally(Happens(s, q, p, events[0]), q, p, events[1..])
  }

  /** The steps of the process alone. */
  function OwnEvents(events: seq<Event>): seq<Event>
    decreases |events|
  {
    if events == [] then []
    else if events[0] == Own then [Own] + OwnEvents(events[1..]) else OwnEvents(events[1..])
  }

  /** For process q the two systems are the same: its record, and the contents of every frame
      it holds. */
  ghost predicate Alike(a: Sys, b: Sys, q: nat) {
    && Active(a, q) && Active(b, q) && b.procs[q] == a.procs[q]
    && forall u: Use, f: FrameNo :: u.pid == q && InUse(a, u, f) ==> b.ph.ram[f] == a.ph.ram[f]
  }

  /** Its page tables are among them, so all its addresses lead to the same frames. */
  lemma AlikeView(a: Sys, b: Sys, q: nat)
    requires Isolated(a) && Alike(a, b, q)
    ensures SameParts(a.ph.ram, b.ph.ram, a.procs[q].value.chunk)
  {
    hide Mapped, BlockOf, LenOf, Valid;
    forall i: nat | i < PAGES_PER_TABLE + 2
      ensures var f := PartFrame(a.ph.ram, a.procs[q].value.chunk, i); b.ph.ram[f] == a.ph.ram[f] {
      ValidPart(a, q, i);
      assert InUse(a, PartOf(q, i), PartFrame(a.ph.ram, a.procs[q].value.chunk, i));
    }
  }

  /** What a process holds is a matter of its record and its page tables. */
  lemma SameHeld(a: Sys, b: Sys, u: Use, f: FrameNo)
    requires Active(a, u.pid) && Active(b, u.pid) && b.procs[u.pid] == a.procs[u.pid]
    requires SameParts(a.ph.ram, b.ph.ram, a.procs[u.pid].value.chunk)
    ensures InUse(b, u, f) <==> InUse(a, u, f)
  {
    hide PartFrame, SameParts;
    SamePartsView(a.ph.ram, b.ph.ram, a.procs[u.pid].value.chunk);
  }

  /** What happens elsewhere leaves the process in the same state. */
  lemma OtherKeepsAlike(a: Sys, b: Sys, q: nat, action: Action)
    requires Isolated(a) && Alike(a, b, q) && Legal(a, action) && !ActsFor(action, q)
    ensures Isolated(Step(a, action)) && Alike(Step(a, action), b, q)
  {
    hide Isolated, Legal, Step, InUse, SameParts;
    var next := Step(a, action);
    StepIsolated(a, action);
    assert Untouched(a, next, q);
    forall u: Use, f: FrameNo | u.pid == q && InUse(next, u, f) ensures b.ph.ram[f] == next.ph.ram[f] {
      SameHeld(a, next, u, f);
      StepKeepsHeld(a, action, u, f);
    }
  }

  /** A store of the process itself, in both systems. */
  lemma StoreKeepsAlike(a: Sys, b: Sys, q: nat, v: Word, w: Word)
    requires Isolated(a) && Isolated(b) && Alike(a, b, q) && MayStore(a, q, v)
    ensures MayStore(b, q, v) && Isolated(StoreStep(a, q, v, w)) && Isolated(StoreStep(b, q, v, w))
    ensures Alike(StoreStep(a, q, v, w), StoreStep(b, q, v, w), q)
  {
    hide Isolated, InUse, SameParts, PageEntry, Apart;
    AlikeView(a, b, q);
    var c := a.procs[q].value.chunk;
    SamePartsView(a.ph.ram, b.ph.ram, c);
    StoreKeepsIsolation(a, q, v, w);
    StoreKeepsIsolation(b, q, v, w);
    var t := WriteableFrame(a, q, Pfn(v));
    var g := Pfn(PageEntry(a.ph.ram, c, Pfn(v)));
    assert InUse(a, t, g) by { WriteableInUse(a, t, g); }
    var next := StoreStep(a, q, v, w);
    forall u: Use, f: FrameNo | u.pid == q && InUse(next, u, f)
      ensures StoreStep(b, q, v, w).ph.ram[f] == next.ph.ram[f] {
      SameHeld(a, next, u, f);
      assert InUse(a, u, f);
    }
  }

  lemma WriteableInUse(sys: Sys, u: Use, f: FrameNo)
    requires Valid(sys, u) && BlockOf(sys, u) <= f - FIRST_FRAME < BlockOf(sys, u) + LenOf(sys, u)
    ensures InUse(sys, u, f)
  {
  }

  /** A step of the process itself, in both systems. */
  lemma OwnKeepsAlike(a: State, b: State, q: nat, p: Program)
    requires Isolated(a.sys) && Isolated(b.sys) && Alike(a.sys, b.sys, q) && a.regs == b.regs && MayRun(a, q, p)
    ensures MayRun(b, q, p) && OwnStep(a, q, p).regs == OwnStep(b, q, p).regs
    ensures var s, t := OwnStep(a, q, p).sys, OwnStep(b, q, p).sys; Isolated(s) && Isolated(t) && Alike(s, t, q)
  {
    hide Isolated, InUse, SameParts, PageEntry, MayStore, StoreStep;
    match p(a.regs)
    case Compute(_) =>
    case StoreWord(v, w, _) => StoreKeepsAlike(a.sys, b.sys, q, v, w);
    case LoadWord(v, _) =>
      var c := a.sys.procs[q].value.chunk;
      AlikeView(a.sys, b.sys, q);
      SamePartsView(a.sys.ph.ram, b.sys.ph.ram, c);
      var f := Pfn(PageEntry(a.sys.ph.ram, c, Pfn(v)));
      var u: Use :| u.pid == q && InUse(a.sys, u, f);
      SameHeld(a.sys, b.sys, u, f);
  }

  /** Two systems alike for q: all events in one, only q's own steps in the other. */
  lemma {:induction false} AlikeRuns(a: State, b: State, q: nat, p: Program, events: seq<Event>)
    requires Isolated(a.sys) && Isolated(b.sys) && Alike(a.sys, b.sys, q) && a.regs == b.regs
    requires AllAllowed(a, q, p, events)
    ensures AllAllowed(b, q, p, OwnEvents(events))
    ensures var s, t := Finally(a, q, p, events), Finally(b, q, p, OwnEvents(events));
            s.regs == t.regs && Alike(s.sys, t.sys, q)
    decreases |events|
  {
    hide Isolated, Alike, OwnStep, MayRun, Step, Legal;
    if events != [] {
      if events[0] == Own {
        OwnKeepsAlike(a, b, q, p);
        AlikeRuns(OwnStep(a, q, p), OwnStep(b, q, p), q, p, events[1..]);
        assert OwnEvents(events)[1..] == OwnEvents(events[1..]);
      } else {
        OtherKeepsAlike(a.sys, b.sys, q, events[0].action);
        AlikeRuns(Happens(a, q, p, events[0]), b, q, p, events[1..]);
      }
    }
  }

  /** However loads, allocations, exits, stores of others and kernel allocations come between
      its steps: a program that loads from frames it holds has the registers, and finds in all
      of its frames the words, that it would have had running alone. */
  lemma RunsAsAlone(s: State, q: nat, p: Program, events: seq<Event>)
    requires Isolated(s.sys) && Active(s.sys, q) && AllAllowed(s, q, p, events)
    ensures AllAllowed(s, q, p, OwnEvents(events))
    ensures var a, b := Finally(s, q, p, events), Finally(s, q, p, OwnEvents(events));
            a.regs == b.regs && Alike(a.sys, b.sys, q)
  {
    hide Isolated, InUse, AllAllowed, Finally;
    AlikeRuns(s, s, q, p, events);
  }
}
