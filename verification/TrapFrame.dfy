/** Entry to and exit from an interrupt, word by word on the stack. */
module TrapFrame {
  import opened Util
  import opened Scheduler

  const FRAME_WORDS := 22

  /** Memory at an address read as a `struct InterruptRegisters`; addresses count words. */
  function FrameAt(m: seq<u64>, a: nat): Registers
    requires a + FRAME_WORDS <= |m|
  {
    Registers(m[a], m[a + 1], m[a + 2], m[a + 3], m[a + 4], m[a + 5], m[a + 6], m[a + 7], m[a + 8], m[a + 9], m[a + 10],
              m[a + 11], m[a + 12], m[a + 13], m[a + 14], m[a + 15], m[a + 16], m[a + 17], m[a + 18], m[a + 19],
              m[a + 20], m[a + 21])
  }

  /** The processor and its memory. */
  class Cpu {
    var r15: u64 var r14: u64 var r13: u64 var r12: u64 var r11: u64 var r10: u64 var r9: u64 var r8: u64
    var rbp: u64 var rdi: u64 var rsi: u64 var rdx: u64 var rcx: u64 var rbx: u64 var rax: u64
    var rip: u64 var cs: u64 var rflags: u64 var rsp: u64 var ss: u64
    var mem: seq<u64>
    /** The stack pointer while the kernel handles an interrupt, as a word address. */
    var sp: nat

    /** The architectural registers, with the two words only an interrupt frame has given. */
    function With(intNo: u64, errorCode: u64): Registers
      reads this
    {
      Registers(r15, r14, r13, r12, r11, r10, r9, r8, rbp, rdi, rsi, rdx, rcx, rbx, rax, intNo, errorCode, rip, cs,
                rflags, rsp, ss)
    }

    /** What the processor pushes when it takes an interrupt. */
    method TakeInterrupt()
      requires 5 <= sp <= |mem|
      modifies this`mem, this`sp
      ensures sp == old(sp) - 5 && |mem| == |old(mem)|
      ensures mem[sp] == rip && mem[sp + 1] == cs && mem[sp + 2] == rflags && mem[sp + 3] == rsp && mem[sp + 4] == ss
      ensures forall k :: 0 <= k < |mem| && !(sp <= k < sp + 5) ==> mem[k] == old(mem)[k]
    {
      mem, sp := mem[sp - 1 := ss], sp - 1;
      mem, sp := mem[sp - 1 := rsp], sp - 1;
      mem, sp := mem[sp - 1 := rflags], sp - 1;
      mem, sp := mem[sp - 1 := cs], sp - 1;
      mem, sp := mem[sp - 1 := rip], sp - 1;
    }

    /** `__pusha` */
    method PushAll()
      requires 15 <= sp <= |mem|
      modifies this`mem, this`sp
      ensures sp == old(sp) - 15 && |mem| == |old(mem)|
      ensures mem[sp] == r15 && mem[sp + 1] == r14 && mem[sp + 2] == r13 && mem[sp + 3] == r12 && mem[sp + 4] == r11
      ensures mem[sp + 5] == r10 && mem[sp + 6] == r9 && mem[sp + 7] == r8 && mem[sp + 8] == rbp && mem[sp + 9] == rdi
      ensures mem[sp + 10] == rsi && mem[sp + 11] == rdx && mem[sp + 12] == rcx && mem[sp + 13] == rbx
        && mem[sp + 14] == rax
      ensures forall k :: 0 <= k < |mem| && !(sp <= k < sp + 15) ==> mem[k] == old(mem)[k]
    {
      PushRaxToRcx();
      PushRdxToRbp();
      PushR8ToR11();
      PushR12ToR15();
    }

    method PushRaxToRcx()
      requires 3 <= sp <= |mem|
      modifies this`mem, this`sp
      ensures sp == old(sp) - 3 && |mem| == |old(mem)|
      ensures mem[sp] == rcx && mem[sp + 1] == rbx && mem[sp + 2] == rax
      ensures forall k :: 0 <= k < |mem| && !(sp <= k < sp + 3) ==> mem[k] == old(mem)[k]
    {
      mem, sp := mem[sp - 1 := rax], sp - 1;
      mem, sp := mem[sp - 1 := rbx], sp - 1;
      mem, sp := mem[sp - 1 := rcx], sp - 1;
    }

    method PushRdxToRbp()
      requires 4 <= sp <= |mem|
      modifies this`mem, this`sp
      ensures sp == old(sp) - 4 && |mem| == |old(mem)|
      ensures mem[sp] == rbp && mem[sp + 1] == rdi && mem[sp + 2] == rsi && mem[sp + 3] == rdx
      ensures forall k :: 0 <= k < |mem| && !(sp <= k < sp + 4) ==> mem[k] == old(mem)[k]
    {
      mem, sp := mem[sp - 1 := rdx], sp - 1;
      mem, sp := mem[sp - 1 := rsi], sp - 1;
      mem, sp := mem[sp - 1 := rdi], sp - 1;
      mem, sp := mem[sp - 1 := rbp], sp - 1;
    }

    method PushR8ToR11()
      requires 4 <= sp <= |mem|
      modifies this`mem, this`sp
      ensures sp == old(sp) - 4 && |mem| == |old(mem)|
      ensures mem[sp] == r11 && mem[sp + 1] == r10 && mem[sp + 2] == r9 && mem[sp + 3] == r8
      ensures forall k :: 0 <= k < |mem| && !(sp <= k < sp + 4) ==> mem[k] == old(mem)[k]
    {
      mem, sp := mem[sp - 1 := r8], sp - 1;
      mem, sp := mem[sp - 1 := r9], sp - 1;
      mem, sp := mem[sp - 1 := r10], sp - 1;
      mem, sp := mem[sp - 1 := r11], sp - 1;
    }

    method PushR12ToR15()
      requires 4 <= sp <= |mem|
      modifies this`mem, this`sp
      ensures sp == old(sp) - 4 && |mem| == |old(mem)|
      ensures mem[sp] == r15 && mem[sp + 1] == r14 && mem[sp + 2] == r13 && mem[sp + 3] == r12
      ensures forall k :: 0 <= k < |mem| && !(sp <= k < sp + 4) ==> mem[k] == old(mem)[k]
    {
      mem, sp := mem[sp - 1 := r12], sp - 1;
      mem, sp := mem[sp - 1 := r13], sp - 1;
      mem, sp := mem[sp - 1 := r14], sp - 1;
      mem, sp := mem[sp - 1 := r15], sp - 1;
    }

    /** `__popa`, and the same pops in `pop_regs` */
    method PopAll()
      requires sp + 15 <= |mem|
      modifies this
      ensures sp == old(sp) + 15 && mem == old(mem)
      ensures r15 == mem[old(sp)] && r14 == mem[old(sp) + 1] && r13 == mem[old(sp) + 2]
      ensures r12 == mem[old(sp) + 3] && r11 == mem[old(sp) + 4]
      ensures r10 == mem[old(sp) + 5] && r9 == mem[old(sp) + 6] && r8 == mem[old(sp) + 7]
      ensures rbp == mem[old(sp) + 8] && rdi == mem[old(sp) + 9]
      ensures rsi == mem[old(sp) + 10] && rdx == mem[old(sp) + 11] && rcx == mem[old(sp) + 12]
      ensures rbx == mem[old(sp) + 13] && rax == mem[old(sp) + 14]
      ensures rip == old(rip) && cs == old(cs) && rflags == old(rflags) && rsp == old(rsp) && ss == old(ss)
    {
      PopR15ToR12();
      PopR11ToR8();
      PopRbpToRdx();
      PopRcxToRax();
    }

    method PopR15ToR12()
      requires sp + 4 <= |mem|
      modifies this`sp, this`r15, this`r14, this`r13, this`r12
      ensures sp == old(sp) + 4
      ensures r15 == mem[old(sp)] && r14 == mem[old(sp) + 1] && r13 == mem[old(sp) + 2]
      ensures r12 == mem[old(sp) + 3]
    {
      r15, sp := mem[sp], sp + 1;
      r14, sp := mem[sp], sp + 1;
      r13, sp := mem[sp], sp + 1;
      r12, sp := mem[sp], sp + 1;
    }

    method PopR11ToR8()
      requires sp + 4 <= |mem|
      modifies this`sp, this`r11, this`r10, this`r9, this`r8
      ensures sp == old(sp) + 4
      ensures r11 == mem[old(sp)] && r10 == mem[old(sp) + 1] && r9 == mem[old(sp) + 2] && r8 == mem[old(sp) + 3]
    {
      r11, sp := mem[sp], sp + 1;
      r10, sp := mem[sp], sp + 1;
      r9, sp := mem[sp], sp + 1;
      r8, sp := mem[sp], sp + 1;
    }

    method PopRbpToRdx()
      requires sp + 4 <= |mem|
      modifies this`sp, this`rbp, this`rdi, this`rsi, this`rdx
      ensures sp == old(sp) + 4
      ensures rbp == mem[old(sp)] && rdi == mem[old(sp) + 1] && rsi == mem[old(sp) + 2] && rdx == mem[old(sp) + 3]
    {
      rbp, sp := mem[sp], sp + 1;
      rdi, sp := mem[sp], sp + 1;
      rsi, sp := mem[sp], sp + 1;
      rdx, sp := mem[sp], sp + 1;
    }

    method PopRcxToRax()
      requires sp + 3 <= |mem|
      modifies this`sp, this`rcx, this`rbx, this`rax
      ensures sp == old(sp) + 3
      ensures rcx == mem[old(sp)] && rbx == mem[old(sp) + 1] && rax == mem[old(sp) + 2]
    {
      rcx, sp := mem[sp], sp + 1;
      rbx, sp := mem[sp], sp + 1;
      rax, sp := mem[sp], sp + 1;
    }

    /** The handler's frame for interrupt line `line`: its stub and `irq_common_stub` up to the call. */
    method EnterIrq(line: nat)
      requires line < 16 && FRAME_WORDS <= sp <= |mem|
      modifies this`mem, this`sp
      ensures sp == old(sp) - FRAME_WORDS && |mem| == |old(mem)|
      ensures FrameAt(mem, sp) == With(32 + line, line)
      ensures forall k :: 0 <= k < |mem| && !(sp <= k < sp + FRAME_WORDS) ==> mem[k] == old(mem)[k]
    {
      TakeInterrupt();
      mem, sp := mem[sp - 1 := line], sp - 1;
      mem, sp := mem[sp - 1 := 32 + line], sp - 1;
      PushAll();
    }

    /** `add rsp, 16` and `iretq` */
    method Return()
      requires sp + 7 <= |mem|
      modifies this`sp, this`rip, this`cs, this`rflags, this`rsp, this`ss
      ensures sp == old(sp) + 7
      ensures rip == mem[old(sp) + 2] && cs == mem[old(sp) + 3] && rflags == mem[old(sp) + 4]
      ensures rsp == mem[old(sp) + 5] && ss == mem[old(sp) + 6]
    {
      sp := sp + 2;
      rip, sp := mem[sp], sp + 1;
      cs, sp := mem[sp], sp + 1;
      rflags, sp := mem[sp], sp + 1;
      rsp, sp := mem[sp], sp + 1;
      ss, sp := mem[sp], sp + 1;
    }

    /** The exit of `irq_common_stub` after a handler that returned. */
    method LeaveIrq()
      requires sp + FRAME_WORDS <= |mem|
      modifies this
      ensures var f := FrameAt(old(mem), old(sp)); With(f.intNo, f.errorCode) == f
      ensures mem == old(mem) && sp == old(sp) + FRAME_WORDS
    {
      PopAll();
      Return();
    }

    /** `pop_regs`: the stack pointer is set to a task's saved registers, and the interrupt returned from there. */
    method PopRegs(regs: nat)
      requires regs + FRAME_WORDS <= |mem|
      modifies this
      ensures var f := FrameAt(old(mem), regs); With(f.intNo, f.errorCode) == f
      ensures mem == old(mem)
    {
      sp := regs;
      LeaveIrq();
    }

    /** `RtlCopyMemory` of one frame. */
    method CopyFrame(to: nat, from: nat)
      requires to + FRAME_WORDS <= |mem| && from + FRAME_WORDS <= |mem|
      requires to + FRAME_WORDS <= from || from + FRAME_WORDS <= to
      modifies this`mem
      ensures |mem| == |old(mem)| && FrameAt(mem, to) == FrameAt(old(mem), from)
      ensures forall k :: 0 <= k < |mem| && !(to <= k < to + FRAME_WORDS) ==> mem[k] == old(mem)[k]
    {
      for i := 0 to FRAME_WORDS
        invariant |mem| == |old(mem)|
        invariant forall k :: to <= k < to + i ==> mem[k] == old(mem)[from + (k - to)]
        invariant forall k :: 0 <= k < |mem| && !(to <= k < to + i) ==> mem[k] == old(mem)[k]
      {
        mem := mem[to + i := mem[from + i]];
      }
    }
  }

  /**
   Main result: what a timer interrupt pushes, read as a frame, copied to a task slot and consumed by
   `pop_regs` whatever the other registers hold by then, restores every register of the interrupted task.
   */
  method Switch(cpu: Cpu, slot: nat, scratch: Cpu)
    requires FRAME_WORDS <= cpu.sp <= |cpu.mem| && slot + FRAME_WORDS <= |cpu.mem|
    requires slot + FRAME_WORDS <= cpu.sp - FRAME_WORDS || cpu.sp <= slot
    requires cpu != scratch
    modifies cpu, scratch
    ensures scratch.With(0, 0) == old(cpu.With(0, 0))
  {
    cpu.EnterIrq(0);
    cpu.CopyFrame(slot, cpu.sp);
    scratch.mem := cpu.mem;
    scratch.PopRegs(slot);
  }

  /** The exit that does not switch agrees, and leaves the stack pointer where it was. */
  method NoSwitch(cpu: Cpu, line: nat)
    requires line < 16 && FRAME_WORDS <= cpu.sp <= |cpu.mem|
    modifies cpu
    ensures cpu.With(0, 0) == old(cpu.With(0, 0)) && cpu.sp == old(cpu.sp)
    ensures |cpu.mem| == |old(cpu.mem)| && forall k :: old(cpu.sp) <= k < |cpu.mem| ==> cpu.mem[k] == old(cpu.mem)[k]
  {
    cpu.EnterIrq(line);
    cpu.LeaveIrq();
  }
}
