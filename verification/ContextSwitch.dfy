/** Context switches as a state machine over user steps, clock ticks, device interrupts and
    system calls (src/interrupt_descriptor_table/Idt.c, src/process/Task.c). */
module ContextSwitch {
  import opened Machine
  import opened TaskList

  /** The registers a switch preserves. */
  datatype Regs = Regs(edi: Word, esi: Word, ebp: Word, ebx: Word, edx: Word, ecx: Word, eax: Word,
                       ip: Word, cs: Word, esp: Word, ss: Word)

  const INTERRUPT_FLAG := 0x200

  /** task_return pushes the live EFLAGS with the interrupt flag set. */
  function WithInterrupts(flags: Word): Word {
    if flags / INTERRUPT_FLAG % 2 == 1 then flags else Wrap(flags + INTERRUPT_FLAG)
  }

  /** Bit 9 is set, and all bits below and above it are as they were. */
  lemma InterruptsOn(flags: Word)
    ensures var r := WithInterrupts(flags);
            r / 0x200 % 2 == 1 && r % 0x200 == flags % 0x200 && r / 0x400 == flags / 0x400
  {
  }

  /** The memory behind a task's writeable pages, which no other task can reach. */
  type Memory = seq<Word>

  /** One step of user code: plain instructions, or int 0x80 whose handler returns a value
      and may write into the caller's memory. */
  datatype Act = Run(regs: Regs, flags: Word, memory: Memory) | Call(result: Word, memory: Memory)

  type Program = (Regs, Word, Memory) -> Act

  /** A task: its saved registers, its page directory, and the memory that leads to. */
  datatype Saved = Saved(regs: Regs, flags: Word, directory: int, memory: Memory)

  datatype Cpu = Cpu(regs: Regs, flags: Word, directory: int)

  /** The task list, CURRENT_TASK_ as an index, and the processor. */
  datatype Kernel = Kernel(tasks: seq<Saved>, current: nat, cpu: Cpu)

  /** Clock carries the flags that are live when the kernel runs task_return. */
  datatype Event = UserStep | Clock(live: Word) | Device

  ghost predicate Ready(k: Kernel) {
    k.current < |k.tasks| && k.cpu.directory == k.tasks[k.current].directory
  }

  /** task_save_state for the current task. */
  function SaveState(k: Kernel): Kernel
    requires k.current < |k.tasks|
  {
    k.(tasks := k.tasks[k.current := k.tasks[k.current].(regs := k.cpu.regs, flags := k.cpu.flags)])
  }

  /** interrupt_handler with idt_clock: save, move on, load its directory and registers. */
  function ClockInterrupt(k: Kernel, live: Word): Kernel
    requires k.current < |k.tasks|
  {
    var s := SaveState(k);
    var next := NextIndex(s.current, |s.tasks|);
    var t := s.tasks[next];
    s.(current := next, cpu := Cpu(t.regs, WithInterrupts(live), t.directory))
  }

  /** The current task's memory after a write. */
  function WithMemory(k: Kernel, memory: Memory): Kernel
    requires k.current < |k.tasks|
  {
    k.(tasks := k.tasks[k.current := k.tasks[k.current].(memory := memory)])
  }

  /** isr80h_handler and isr80h_wrapper: save, run the command, task_page, popad with the
      result in eax, iretd. */
  function SystemCall(k: Kernel, result: Word, memory: Memory): Kernel
    requires k.current < |k.tasks|
  {
    var s := WithMemory(SaveState(k), memory);
    s.(cpu := Cpu(s.cpu.regs.(eax := result), s.cpu.flags, s.tasks[s.current].directory))
  }

  /** interrupt_handler with a callback that returns: save, task_page, popad, iret. */
  function DeviceInterrupt(k: Kernel): Kernel
    requires k.current < |k.tasks|
  {
    var s := SaveState(k);
    s.(cpu := s.cpu.(directory := s.tasks[s.current].directory))
  }

  function Step(k: Kernel, programs: seq<Program>, e: Event): Kernel
    requires k.current < |k.tasks| == |programs|
  {
    match e
    case Clock(live) => ClockInterrupt(k, live)
    case Device => DeviceInterrupt(k)
    case UserStep =>
      match programs[k.current](k.cpu.regs, k.cpu.flags, k.tasks[k.current].memory)
      case Run(regs, flags, memory) => WithMemory(k, memory).(cpu := k.cpu.(regs := regs, flags := flags))
      case Call(result, memory) => SystemCall(k, result, memory)
  }

  lemma StepReady(k: Kernel, programs: seq<Program>, e: Event)
    requires Ready(k) && |k.tasks| == |programs|
    ensures Ready(Step(k, programs, e)) && |Step(k, programs, e).tasks| == |k.tasks|
    ensures forall i | 0 <= i < |k.tasks| :: Step(k, programs, e).tasks[i].directory == k.tasks[i].directory
  {
  }

  /** Whatever enters the kernel, the task that ran has its registers and flags saved, and no
      other task's are touched; plain user code saves nothing. */
  lemma EntrySaves(k: Kernel, programs: seq<Program>, e: Event)
    requires k.current < |k.tasks| == |programs|
    ensures var next := Step(k, programs, e);
            var entered := e != UserStep || programs[k.current](k.cpu.regs, k.cpu.flags, k.tasks[k.current].memory).Call?;
            && (forall i | 0 <= i < |k.tasks| && (i != k.current || !entered) ::
                  next.tasks[i].regs == k.tasks[i].regs && next.tasks[i].flags == k.tasks[i].flags)
            && (entered ==> next.tasks[k.current].regs == k.cpu.regs && next.tasks[k.current].flags == k.cpu.flags)
  {
  }

  function After(k: Kernel, programs: seq<Program>, events: seq<Event>): Kernel
    requires k.current < |k.tasks| == |programs|
    decreases |events|
  {
    if events == [] then k else After(Step(k, programs, events[0]), programs, events[1..])
  }

  /** No user step ever runs under another task's page directory. */
  lemma {:induction false} OwnDirectoryAlways(k: Kernel, programs: seq<Program>, events: seq<Event>)
    requires Ready(k) && |k.tasks| == |programs|
    ensures Ready(After(k, programs, events)) && |After(k, programs, events).tasks| == |k.tasks|
    ensures var r := After(k, programs, events); r.cpu.directory == k.tasks[r.current].directory
    decreases |events|
  {
    if events != [] {
      StepReady(k, programs, events[0]);
      OwnDirectoryAlways(Step(k, programs, events[0]), programs, events[1..]);
    }
  }

  // -------------------------------------------------------------- whose turn

  /** How many clock ticks there are among the events. */
  function Ticks(events: seq<Event>): nat
    decreases |events|
  {
    if events == [] then 0 else (if events[0].Clock? then 1 else 0) + Ticks(events[1..])
  }

  /** The tasks that the clock ticks resume, in turn. */
  function Resumed(k: Kernel, programs: seq<Program>, events: seq<Event>): seq<nat>
    requires k.current < |k.tasks| == |programs|
    decreases |events|
  {
    if events == [] then []
    else
      var next := Step(k, programs, events[0]);
      (if events[0].Clock? then [next.current] else []) + Resumed(next, programs, events[1..])
  }

  /** The indices of a list of n tasks, in list order. */
  function Indices(n: nat): (s: seq<nat>)
    ensures |s| == n && forall i :: 0 <= i < n ==> s[i] == i
  {
    seq(n, i requires 0 <= i < n => i)
  }

  lemma {:induction false} TurnsFollowList(k: Kernel, programs: seq<Program>, events: seq<Event>)
    requires Ready(k) && |k.tasks| == |programs|
    ensures After(k, programs, events).current == Advance(k.current, Ticks(events), |k.tasks|)
    ensures Resumed(k, programs, events) == Runs(Indices(|k.tasks|), k.current, Ticks(events))
    decreases |events|
  {
    if events != [] {
      hide Ready, Step, NextIndex;
      StepReady(k, programs, events[0]);
      StepTurn(k, programs, events[0]);
      TurnsFollowList(Step(k, programs, events[0]), programs, events[1..]);
    }
  }

  /** Only a clock tick changes whose turn it is; n ticks move n places down the list, round
      and round, whatever user steps, system calls and device interrupts come between. */
  lemma ClockIsRoundRobin(k: Kernel, programs: seq<Program>, events: seq<Event>)
    requires Ready(k) && |k.tasks| == |programs|
    ensures After(k, programs, events).current == (k.current + Ticks(events)) % |k.tasks|
    ensures Resumed(k, programs, events) == Runs(Indices(|k.tasks|), k.current, Ticks(events))
  {
    hide After, Step, Resumed, Runs, Advance, Ticks, Indices;
    TurnsFollowList(k, programs, events);
    AdvanceIs(k.current, Ticks(events), |k.tasks|);
  }

  lemma StepTurn(k: Kernel, programs: seq<Program>, e: Event)
    requires k.current < |k.tasks| == |programs|
    ensures Step(k, programs, e).current == if e.Clock? then NextIndex(k.current, |k.tasks|) else k.current
  {
  }

  /** So |tasks| ticks give every task its turn once, in list order from the one after the
      current; the current one comes last. */
  lemma EveryTaskHasItsTurn(k: Kernel, programs: seq<Program>, events: seq<Event>)
    requires Ready(k) && |k.tasks| == |programs| == Ticks(events)
    ensures var n, i := |k.tasks|, k.current;
            && Resumed(k, programs, events) == Indices(n)[i + 1..] + Indices(n)[..i + 1]
            && multiset(Resumed(k, programs, events)) == multiset(Indices(n))
            && After(k, programs, events).current == i
  {
    hide After, Step, Resumed, Runs, Advance, Ticks;
    TurnsFollowList(k, programs, events);
    RoundIsRotation(Indices(|k.tasks|), k.current);
  }

  // ---------------------------------------------------------- transparency

  /** What a task computes with, apart from the flags. */
  datatype Mind = Mind(regs: Regs, memory: Memory)

  /** The registers and memory task t works with, on the processor or saved. */
  function Seen(k: Kernel, t: nat): Mind
    requires t < |k.tasks|
  {
    Mind(if t == k.current then k.cpu.regs else k.tasks[t].regs, k.tasks[t].memory)
  }

  function FlagsOf(k: Kernel, t: nat): Word
    requires t < |k.tasks|
  {
    if t == k.current then k.cpu.flags else k.tasks[t].flags
  }

  /** The registers and memory after one step of a program. */
  function Visible(p: Program, m: Mind, flags: Word): Mind {
    match p(m.regs, flags, m.memory)
    case Run(regs, _, memory) => Mind(regs, memory)
    case Call(result, memory) => Mind(m.regs.(eax := result), memory)
  }

  function FlagsAfter(p: Program, m: Mind, flags: Word): Word {
    match p(m.regs, flags, m.memory)
    case Run(_, f, _) => f
    case Call(_, _) => flags
  }

  /** n steps of a program alone on the machine. */
  function Alone(p: Program, m: Mind, flags: Word, n: nat): Mind
    decreases n
  {
    if n == 0 then m else Alone(p, Visible(p, m, flags), FlagsAfter(p, m, flags), n - 1)
  }

  /** How many user steps of these events task t makes. */
  function StepsOf(k: Kernel, programs: seq<Program>, events: seq<Event>, t: nat): nat
    requires k.current < |k.tasks| == |programs|
    decreases |events|
  {
    if events == [] then 0
    else (if events[0] == UserStep && k.current == t then 1 else 0)
         + StepsOf(Step(k, programs, events[0]), programs, events[1..], t)
  }

  /** What a step leaves in registers and memory does not depend on the flags it starts
      with. */
  ghost predicate FlagBlind(p: Program) {
    forall m: Mind, a: Word, b: Word :: Visible(p, m, a) == Visible(p, m, b)
  }

  lemma {:induction false} AloneBlind(p: Program, m: Mind, a: Word, b: Word, n: nat)
    requires FlagBlind(p)
    ensures Alone(p, m, a, n) == Alone(p, m, b, n)
    decreases n
  {
    if n > 0 {
      AloneBlind(p, Visible(p, m, a), FlagsAfter(p, m, a), FlagsAfter(p, m, b), n - 1);
    }
  }

  /** Whatever the interleaving, a flag-blind task sees the registers and the memory it would
      see alone. */
  lemma {:induction false} SwitchTransparent(k: Kernel, programs: seq<Program>, events: seq<Event>, t: nat)
    requires Ready(k) && |k.tasks| == |programs| && t < |programs| && FlagBlind(programs[t])
    ensures Ready(After(k, programs, events)) && |After(k, programs, events).tasks| == |k.tasks|
    ensures Seen(After(k, programs, events), t)
         == Alone(programs[t], Seen(k, t), FlagsOf(k, t), StepsOf(k, programs, events, t))
    decreases |events|
  {
    if events != [] {
      hide Step, FlagBlind;
      var next := Step(k, programs, events[0]);
      StepReady(k, programs, events[0]);
      SwitchTransparent(next, programs, events[1..], t);
      StepSeen(k, programs, events[0], t);
      var n := StepsOf(next, programs, events[1..], t);
      if events[0] == UserStep && k.current == t {
        AloneBlind(programs[t], Seen(next, t), FlagsOf(next, t), FlagsAfter(programs[t], Seen(k, t), FlagsOf(k, t)), n);
      } else {
        AloneBlind(programs[t], Seen(next, t), FlagsOf(next, t), FlagsOf(k, t), n);
      }
    }
  }

  /** One event: the task steps, or its registers and memory stay. */
  lemma StepSeen(k: Kernel, programs: seq<Program>, e: Event, t: nat)
    requires Ready(k) && |k.tasks| == |programs| && t < |programs|
    ensures Seen(Step(k, programs, e), t)
         == if e == UserStep && k.current == t then Visible(programs[t], Seen(k, t), FlagsOf(k, t)) else Seen(k, t)
  {
  }

  /** In every machine that runs p as task t, the task sees what it would see alone. */
  ghost predicate Transparent(p: Program) {
    forall k: Kernel, programs: seq<Program>, events: seq<Event>, t: nat |
      Ready(k) && |k.tasks| == |programs| && t < |programs| && programs[t] == p ::
      t < |After(k, programs, events).tasks| &&
      Seen(After(k, programs, events), t) == Alone(p, Seen(k, t), FlagsOf(k, t), StepsOf(k, programs, events, t))
  }

  /** The saved flags are never restored, so transparency is flag-blindness, exactly. */
  lemma TransparentIff(p: Program)
    ensures Transparent(p) <==> FlagBlind(p)
  {
    if FlagBlind(p) {
      forall k: Kernel, programs: seq<Program>, events: seq<Event>, t: nat |
        Ready(k) && |k.tasks| == |programs| && t < |programs| && programs[t] == p
        ensures t < |After(k, programs, events).tasks|
        ensures Seen(After(k, programs, events), t)
             == Alone(p, Seen(k, t), FlagsOf(k, t), StepsOf(k, programs, events, t)) {
        SwitchTransparent(k, programs, events, t);
      }
    }
    if Transparent(p) {
      forall m: Mind, a: Word, b: Word ensures Visible(p, m, a) == Visible(p, m, b) {
        ResumedWithLiveFlags(p, m, a, b);
        ResumedWithLiveFlags(p, m, b, b);
      }
    }
  }

  /** A task that was interrupted with flags a is resumed with the kernel's live flags. */
  lemma ResumedWithLiveFlags(p: Program, m: Mind, a: Word, live: Word)
    requires Transparent(p)
    ensures Visible(p, m, a) == Visible(p, m, WithInterrupts(live))
  {
    var k := Kernel([Saved(m.regs, a, 0, m.memory), Saved(m.regs, live, 1, m.memory)], 1, Cpu(m.regs, live, 1));
    var programs: seq<Program> := [p, p];
    var events := [Clock(live), UserStep];
    var one := Step(k, programs, Clock(live));
    assert one.current == 0 && Seen(one, 0) == m && one.cpu.flags == WithInterrupts(live);
    var two := Step(one, programs, UserStep);
    assert events[1..] == [UserStep] && events[1..][1..] == [];
    assert After(k, programs, events) == After(one, programs, [UserStep]) == After(two, programs, []) == two;
    assert StepsOf(k, programs, events, 0) == StepsOf(one, programs, [UserStep], 0)
      == 1 + StepsOf(two, programs, [], 0) == 1;
    assert Seen(two, 0) == Visible(p, m, WithInterrupts(live));
    assert Alone(p, m, a, 1) == Alone(p, Visible(p, m, a), FlagsAfter(p, m, a), 0) == Visible(p, m, a);
  }
}
