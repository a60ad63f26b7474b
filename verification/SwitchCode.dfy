/** The instructions of a context switch: interrupt entry (src/arch/x86/Idt.asm), the copy
    of task_save_state (src/process/Task.c) and task_return (src/process/Task.asm). */
module SwitchCode {
  import opened Machine
  import opened ContextSwitch

  /** Memory by byte address; the cell of an address holds the word that starts there. */
  ghost predicate IsMemory(mem: array<Word>) {
    mem.Length == TWO32
  }

  /** struct Registers at address a. */
  ghost function RegistersAt(mem: array<Word>, a: int): Regs
    requires IsMemory(mem) && 0 <= a < TWO32 - REGISTERS_SIZE
    reads mem
  {
    Regs(mem[a], mem[a + 4], mem[a + 8], mem[a + 12], mem[a + 16], mem[a + 20],
         mem[a + 24], mem[a + 28], mem[a + 32], mem[a + 40], mem[a + 44])
  }

  /** struct InterruptFrame at address a. */
  ghost function FrameAt(mem: array<Word>, a: int): Regs
    requires IsMemory(mem) && 0 <= a < TWO32 - FRAME_SIZE
    reads mem
  {
    Regs(mem[a], mem[a + 4], mem[a + 8], mem[a + 16], mem[a + 20], mem[a + 24],
         mem[a + 28], mem[a + 32], mem[a + 36], mem[a + 44], mem[a + 48])
  }

  const REGISTERS_SIZE := 48
  const FRAME_SIZE := 52

  class Processor {
    var edi: Word, esi: Word, ebp: Word, ebx: Word, edx: Word, ecx: Word, eax: Word
    var ip: Word, cs: Word, flags: Word, esp: Word, ss: Word
    const mem: array<Word>

    ghost function Registers(): Regs
      reads this
    {
      Regs(edi, esi, ebp, ebx, edx, ecx, eax, ip, cs, esp, ss)
    }

    method Push(w: Word)
      requires IsMemory(mem) && esp >= 4
      modifies this`esp, mem
      ensures esp == old(esp) - 4 && mem[esp] == w
      ensures forall x :: 0 <= x < TWO32 && x != esp ==> mem[x] == old(mem[x])
    {
      esp := esp - 4;
      mem[esp] := w;
    }

    method Pop() returns (w: Word)
      requires IsMemory(mem) && esp + 4 < TWO32
      modifies this`esp
      ensures esp == old(esp) + 4 && w == mem[old(esp)]
    {
      w := mem[esp];
      esp := esp + 4;
    }

    /** What the processor does on an interrupt from user mode: it switches to the kernel
        stack top and pushes ss, esp, flags, cs, ip. */
    method ProcessorEntry(top: Word)
      requires IsMemory(mem) && top >= 64
      modifies this`esp, mem
      ensures esp == top - 20
      ensures mem[esp] == ip && mem[esp + 4] == cs && mem[esp + 8] == flags && mem[esp + 12] == old(esp)
      ensures mem[esp + 16] == ss
      ensures forall x :: 0 <= x < esp || top <= x < TWO32 ==> mem[x] == old(mem[x])
    {
      var userEsp := esp;
      esp := top;
      Push(ss);
      Push(userEsp);
      Push(flags);
      Push(cs);
      Push(ip);
    }

    method PushAll()
      requires IsMemory(mem) && esp >= 32
      modifies this`esp, mem
      ensures esp == old(esp) - 32
      ensures mem[esp] == edi && mem[esp + 4] == esi && mem[esp + 8] == ebp && mem[esp + 12] == old(esp)
      ensures mem[esp + 16] == ebx && mem[esp + 20] == edx && mem[esp + 24] == ecx && mem[esp + 28] == eax
      ensures forall x :: 0 <= x < esp || old(esp) <= x < TWO32 ==> mem[x] == old(mem[x])
    {
      var kernelEsp := esp;
      Push(eax);
      Push(ecx);
      Push(edx);
      Push(ebx);
      Push(kernelEsp);
      Push(ebp);
      Push(esi);
      Push(edi);
    }

    /** Entering an interrupt from user code, up to the complete struct InterruptFrame. */
    method EnterInterrupt(top: Word) returns (frame: Word)
      requires IsMemory(mem) && top >= 64
      modifies this`esp, mem
      ensures frame == top - FRAME_SIZE == esp
      ensures FrameAt(mem, frame) == old(Registers()) && mem[frame + 40] == old(flags)
      ensures forall x :: 0 <= x < frame || top <= x < TWO32 ==> mem[x] == old(mem[x])
    {
      ProcessorEntry(top);
      PushAll();
      frame := esp;
    }

    /** task_save_state: frame to struct Registers, field by field. */
    method SaveState(task: Word, frame: Word)
      requires IsMemory(mem) && task + REGISTERS_SIZE < TWO32 && frame + FRAME_SIZE < TWO32
      requires task + REGISTERS_SIZE <= frame || frame + FRAME_SIZE <= task
      modifies mem
      ensures RegistersAt(mem, task) == old(FrameAt(mem, frame)) && mem[task + 36] == old(mem[frame + 40])
      ensures forall x :: 0 <= x < task || task + REGISTERS_SIZE <= x < TWO32 ==> mem[x] == old(mem[x])
    {
      CopyWord(task + 28, frame + 32); // ip
      CopyWord(task + 32, frame + 36); // cs
      CopyWord(task + 36, frame + 40); // flags
      CopyWord(task + 40, frame + 44); // esp
      CopyWord(task + 44, frame + 48); // ss
      CopyWord(task + 24, frame + 28); // eax
      CopyWord(task + 8, frame + 8);   // ebp
      CopyWord(task + 12, frame + 16); // ebx
      CopyWord(task + 20, frame + 24); // ecx
      CopyWord(task, frame);           // edi
      CopyWord(task + 16, frame + 20); // edx
      CopyWord(task + 4, frame + 4);   // esi
    }

    method CopyWord(to: Word, from: Word)
      requires IsMemory(mem)
      modifies mem
      ensures mem[to] == old(mem[from])
      ensures forall x :: 0 <= x < TWO32 && x != to ==> mem[x] == old(mem[x])
    {
      mem[to] := mem[from];
    }

    /** restore_general_purpose_registers, called with the struct's address on the stack. */
    method RestoreGeneralPurpose(ghost task: Word)
      requires IsMemory(mem) && 8 <= esp < TWO32 - 16 && mem[esp + 4] == task && task + REGISTERS_SIZE < TWO32
      requires task + REGISTERS_SIZE <= esp - 4 || esp + 8 <= task
      modifies this`edi, this`esi, this`ebp, this`ebx, this`edx, this`ecx, this`eax, this`esp, mem
      ensures var r := old(RegistersAt(mem, task));
              edi == r.edi && esi == r.esi && ebp == r.ebp && ebx == r.ebx
              && edx == r.edx && ecx == r.ecx && eax == r.eax
      ensures esp == old(esp) + 4
      ensures forall x :: 0 <= x < TWO32 && x != old(esp) - 4 ==> mem[x] == old(mem[x])
    {
      Push(ebp);
      ebp := esp;
      ebx := mem[ebp + 8];
      edi := mem[ebx];
      esi := mem[ebx + 4];
      ebp := mem[ebx + 8];
      edx := mem[ebx + 16];
      ecx := mem[ebx + 20];
      eax := mem[ebx + 24];
      ebx := mem[ebx + 12];
      esp := esp + 4;
      var returnAddress := Pop();
    }

    /** iretd to user mode. */
    method InterruptReturn()
      requires IsMemory(mem) && esp + 20 < TWO32
      modifies this`ip, this`cs, this`flags, this`esp, this`ss
      ensures ip == mem[old(esp)] && cs == mem[old(esp) + 4] && flags == mem[old(esp) + 8]
      ensures esp == mem[old(esp) + 12] && ss == mem[old(esp) + 16]
    {
      ip := Pop();
      cs := Pop();
      flags := Pop();
      var userEsp := Pop();
      ss := Pop();
      esp := userEsp;
    }

    /** The first half of task_return: the frame for iretd, built from the structure. */
    method BuildReturnFrame(ghost task: Word)
      requires IsMemory(mem) && 64 <= esp < TWO32 - 64 && mem[esp + 4] == task && task + REGISTERS_SIZE < TWO32
      requires task + REGISTERS_SIZE <= esp - 40 || esp + 8 <= task
      modifies this`eax, this`ebx, this`ebp, this`esp, mem
      ensures ebp == old(esp) == esp + 20 && ebx == task
      ensures mem[esp] == old(mem[task + 28]) && mem[esp + 4] == old(mem[task + 32])
      ensures mem[esp + 8] == WithInterrupts(flags)
      ensures mem[esp + 12] == old(mem[task + 40]) && mem[esp + 16] == old(mem[task + 44])
      ensures forall x :: 0 <= x < esp || old(esp) <= x < TWO32 ==> mem[x] == old(mem[x])
    {
      ebp := esp;
      ebx := mem[ebp + 4];
      Push(mem[ebx + 44]);
      Push(mem[ebx + 40]);
      Push(flags);
      eax := Pop();
      eax := WithInterrupts(eax);
      Push(eax);
      Push(mem[ebx + 32]);
      Push(mem[ebx + 28]);
    }

    /** task_return(regs), with the argument above the return address. */
    method TaskReturn(ghost task: Word)
      requires IsMemory(mem) && 64 <= esp < TWO32 - 64 && mem[esp + 4] == task && task + REGISTERS_SIZE < TWO32
      requires task + REGISTERS_SIZE <= esp - 40 || esp + 8 <= task
      modifies this, mem
      ensures Registers() == old(RegistersAt(mem, task))
      ensures flags == WithInterrupts(old(flags))
      ensures forall x :: 0 <= x < old(esp) - 40 || old(esp) <= x < TWO32 ==> mem[x] == old(mem[x])
    {
      BuildReturnFrame(task);
      eax := Wrap(eax - eax % 0x1_0000 + mem[ebx + 44] % 0x1_0000);
      Push(mem[ebp + 4]);
      Push(0); // return address of the call
      RestoreGeneralPurpose(task);
      esp := esp + 4;
      InterruptReturn();
    }

    method PopAll()
      requires IsMemory(mem) && esp + 32 < TWO32
      modifies this`edi, this`esi, this`ebp, this`ebx, this`edx, this`ecx, this`eax, this`esp
      ensures esp == old(esp) + 32
      ensures edi == mem[old(esp)] && esi == mem[old(esp) + 4] && ebp == mem[old(esp) + 8]
      ensures ebx == mem[old(esp) + 16] && edx == mem[old(esp) + 20] && ecx == mem[old(esp) + 24]
      ensures eax == mem[old(esp) + 28]
    {
      edi := Pop();
      esi := Pop();
      ebp := Pop();
      var skipped := Pop();
      ebx := Pop();
      edx := Pop();
      ecx := Pop();
      eax := Pop();
    }

    /** popad, the system call's result in eax, iretd (isr80h_wrapper). */
    method ReturnFromCall(frame: Word, result: Word)
      requires IsMemory(mem) && frame + FRAME_SIZE < TWO32 && esp == frame
      modifies this
      ensures Registers() == FrameAt(mem, frame).(eax := result)
      ensures flags == mem[frame + 40]
    {
      PopAll();
      eax := result;
      InterruptReturn();
    }

    /** The structure at a lies outside the kernel stack between low and top. */
    ghost predicate OffStack(a: Word, low: int, top: Word) {
      a + REGISTERS_SIZE < TWO32 && (a + REGISTERS_SIZE <= low || top <= a)
    }

    /** A clock tick from user mode: entry, task_save_state into the current task, then, from
        whatever depth of the kernel stack and with whatever flags, task_return for the
        next one. */
    method ClockTick(task: Word, next: Word, top: Word, depth: Word, live: Word)
      requires IsMemory(mem) && 64 <= depth <= top - FRAME_SIZE - 12
      requires OffStack(task, depth - 40, top) && OffStack(next, depth - 40, top)
      requires task == next || task + REGISTERS_SIZE <= next || next + REGISTERS_SIZE <= task
      modifies this, mem
      ensures Registers() == if next == task then old(Registers()) else old(RegistersAt(mem, next))
      ensures RegistersAt(mem, task) == old(Registers()) && mem[task + 36] == old(flags)
      ensures flags == WithInterrupts(live)
      ensures forall x :: 0 <= x < depth - 40 || top <= x < TWO32 ==>
                !(task <= x < task + REGISTERS_SIZE) ==> mem[x] == old(mem[x])
    {
      var frame := EnterInterrupt(top);
      SaveState(task, frame);
      esp := depth;
      mem[esp + 4] := next;
      flags := live;
      TaskReturn(next);
    }

    /** A system call: the caller gets its registers and flags back, with the result in eax. */
    method SystemCall(task: Word, top: Word, result: Word)
      requires IsMemory(mem) && 64 <= top && OffStack(task, top - FRAME_SIZE, top)
      modifies this, mem
      ensures Registers() == old(Registers()).(eax := result) && flags == old(flags)
      ensures RegistersAt(mem, task) == old(Registers()) && mem[task + 36] == old(flags)
    {
      var frame := EnterInterrupt(top);
      SaveState(task, frame);
      ReturnFromCall(frame, result);
    }
  }
}
