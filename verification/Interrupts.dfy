/** Interrupt dispatch: the handler table, end-of-interrupt bytes and the timer tick. */
module Interrupts {
  import opened Util
  import opened Scheduler
  import opened SchedulerRuns
  import opened ContextSwitch

  /** What the kernel registers for a vector. */
  datatype Handler = NoHandler | NotImplemented | UpdateTick | UpdateClock | Keyboard | Mouse

  const IRQ1 := 33
  const IRQ12 := 44

  /** The handler of each vector once the kernel has started. */
  function BootHandler(n: int): Handler {
    if n == IRQ0 then UpdateTick
    else if n == IRQ1 then Keyboard
    else if n == IRQ8 then UpdateClock
    else if n == IRQ12 then Mouse
    else if 32 <= n < 48 then NotImplemented
    else NoHandler
  }

  class Kernel {
    const table: Table
    const handlers: array<Handler>
    var ulTick: u64
    /** End-of-interrupt bytes sent to each controller by all but the scheduler. */
    var pic1: nat
    var pic2: nat

    ghost predicate Valid()
      reads table
    {
      handlers.Length == 256 && table.Valid()
    }

    ghost predicate Booted()
      reads table, handlers
    {
      Valid() && forall n :: 0 <= n < 256 ==> handlers[n] == BootHandler(n)
    }

    /** End-of-interrupt bytes sent to PIC1 by anyone. */
    ghost function EndOfInterrupts(): nat
      reads this, table
    {
      pic1 + table.eoiSent
    }

    /** Start-up: the handlers in the order the kernel registers them, and an empty task table. */
    constructor ()
      ensures handlers.Length == 256 && handlers[32] == UpdateTick && handlers[33] == Keyboard
      ensures handlers[40] == UpdateClock && handlers[44] == Mouse
      ensures forall n :: 32 <= n < 48 && n != 32 && n != 33 && n != 40 && n != 44 ==> handlers[n] == NotImplemented
      ensures forall n :: 0 <= n < 256 && !(32 <= n < 48) ==> handlers[n] == NoHandler
      ensures Booted() && fresh(handlers) && fresh(table) && fresh(table.tasks)
      ensures ulTick == 0 && table.taskCount == 0 && EndOfInterrupts() == 0 && pic2 == 0
      ensures forall i :: 0 <= i < MAX_TASKS ==> table.tasks[i].status == NoInit
    {
      table := new Table();
      handlers := new Handler[256](_ => NoHandler);
      ulTick, pic1, pic2 := 0, 0, 0;
      new;
      for i := 32 to 48
        invariant ulTick == 0 && pic1 == 0 && pic2 == 0
        invariant fresh(table.tasks) && table.taskCount == 0 && table.eoiSent == 0 && table.Valid()
        invariant forall k :: 0 <= k < MAX_TASKS ==> table.tasks[k].status == NoInit
        invariant forall n :: 0 <= n < 256 ==> handlers[n] == if 32 <= n < i then NotImplemented else NoHandler
      {
        HalRegisterInterrupt(i, NotImplemented);
      }
      HalRegisterInterrupt(IRQ0, UpdateTick);
      HalRegisterInterrupt(IRQ12, Mouse);
      HalRegisterInterrupt(IRQ1, Keyboard);
      HalRegisterInterrupt(IRQ8, UpdateClock);
    }

    method HalRegisterInterrupt(n: nat, handler: Handler)
      requires n < handlers.Length
      modifies handlers
      ensures handlers[n] == handler
      ensures forall k :: 0 <= k < handlers.Length && k != n ==> handlers[k] == old(handlers[k])
    {
      handlers[n] := handler;
    }

    method KiUpdateTick(regs: Registers) returns (resumed: Option<Registers>)
      requires Valid()
      modifies this`ulTick, table`eoiSent, table.tasks
      ensures ulTick == (old(ulTick) + 1) % TWO_64
      ensures (table.tasks[..], resumed) == Scheduled(old(table.tasks[..]), table.taskCount, regs)
      ensures table.eoiSent == old(table.eoiSent) + if resumed.Some? then 1 else 0
    {
      ulTick := (ulTick + 1) % TWO_64;
      resumed := table.PsScheduleThreads(regs);
    }

    /** The clock's handler acknowledges the interrupt itself; the time it reads is not part of this model. */
    method KiUpdateClock()
      modifies this`pic1
      ensures pic1 == old(pic1) + 1
    {
      pic1 := pic1 + 1;
    }

    /**
     Some registers if the handler switched tasks and never came back here. PIC1 gets exactly one
     end-of-interrupt byte either way, but two from the clock's line; PIC2 gets one for its own lines.
     */
    method HalIRQHandler(regs: Registers) returns (resumed: Option<Registers>)
      requires Valid() && regs.intNo < 256
      modifies this`ulTick, this`pic1, this`pic2, table`eoiSent, table.tasks
      ensures EndOfInterrupts() == old(EndOfInterrupts()) + if handlers[regs.intNo] == UpdateClock then 2 else 1
      ensures pic2 == old(pic2) + if regs.intNo >= IRQ8 && resumed.None? then 1 else 0
      ensures ulTick == if handlers[regs.intNo] == UpdateTick then (old(ulTick) + 1) % TWO_64 else old(ulTick)
      ensures if handlers[regs.intNo] == UpdateTick then
                (table.tasks[..], resumed) == Scheduled(old(table.tasks[..]), table.taskCount, regs)
              else resumed == None && table.tasks[..] == old(table.tasks[..])
    {
      resumed := None;
      match handlers[regs.intNo] {
        case UpdateTick =>
          resumed := KiUpdateTick(regs);
          if resumed.Some? {
            return;
          }
        case UpdateClock => KiUpdateClock();
        case Keyboard | Mouse | NotImplemented | NoHandler =>
      }
      if regs.intNo >= IRQ8 {
        pic2 := pic2 + 1;
      }
      pic1 := pic1 + 1;
    }
  }

  // ---------- the kernel class refines the transition system ----------

  /** The kernel and the processor's registers as one state of the transition system. */
  ghost function MachineOf(kernel: Kernel, pidCount: nat, cpu: Registers): Machine
    reads kernel, kernel.table, kernel.table.tasks
  {
    Machine(State(kernel.table.tasks[..], kernel.table.taskCount, pidCount), cpu, kernel.EndOfInterrupts())
  }

  /**
   A whole timer interrupt is the `Timer` action: the frame goes through the dispatcher to the scheduler,
   and the processor goes on with the resumed registers or with its own.
   */
  method TimerInterrupt(kernel: Kernel, ghost pidCount: nat, cpu: Registers, ghost programs: Programs)
    returns (cpu': Registers)
    requires kernel.Booted()
    modifies kernel`ulTick, kernel`pic1, kernel`pic2, kernel.table`eoiSent, kernel.table.tasks
    ensures MachineOf(kernel, pidCount, cpu') == Act(old(MachineOf(kernel, pidCount, cpu)), Timer, programs)
    ensures kernel.pic2 == old(kernel.pic2)
  {
    var frame := Frame(cpu, IRQ0);
    var resumed := kernel.HalIRQHandler(frame);
    cpu' := Seen(if resumed.Some? then resumed.value else frame);
  }

  /** An interrupt on any other line is the `Device` action; the second controller is told of its lines once. */
  method DeviceInterrupt(kernel: Kernel, ghost pidCount: nat, cpu: Registers, line: Line, ghost programs: Programs)
    returns (cpu': Registers)
    requires kernel.Booted()
    modifies kernel`ulTick, kernel`pic1, kernel`pic2, kernel.table`eoiSent, kernel.table.tasks
    ensures MachineOf(kernel, pidCount, cpu') == Act(old(MachineOf(kernel, pidCount, cpu)), Device(line), programs)
    ensures kernel.pic2 == old(kernel.pic2) + if line >= IRQ8 then 1 else 0
  {
    var frame := Frame(cpu, line);
    var resumed := kernel.HalIRQHandler(frame);
    FrameSeen(cpu, line);
    cpu' := Seen(frame);
  }

  /** The real-time clock's interrupt ends twice at PIC1 and once at PIC2. */
  method ClockInterrupt(kernel: Kernel, cpu: Registers)
    requires kernel.Booted()
    modifies kernel`ulTick, kernel`pic1, kernel`pic2, kernel.table`eoiSent, kernel.table.tasks
    ensures kernel.EndOfInterrupts() == old(kernel.EndOfInterrupts()) + 2 && kernel.pic2 == old(kernel.pic2) + 1
    ensures kernel.table.tasks[..] == old(kernel.table.tasks[..])
  {
    var _ := kernel.HalIRQHandler(Frame(cpu, IRQ8));
  }

  /** A run of the kernel and its tasks, action by action. */
  method Execute(kernel: Kernel, pidCount: nat, cpu: Registers, actions: seq<Action>, programs: Programs)
    returns (pidCount': nat, cpu': Registers)
    requires kernel.Booted()
    modifies kernel`ulTick, kernel`pic1, kernel`pic2, kernel.table, kernel.table.tasks
    ensures MachineOf(kernel, pidCount', cpu') == Acts(old(MachineOf(kernel, pidCount, cpu)), actions, programs)
    ensures kernel.EndOfInterrupts() == old(kernel.EndOfInterrupts()) + Interrupts(actions)
      <==> Device(IRQ8) !in actions
  {
    ghost var start := MachineOf(kernel, pidCount, cpu);
    pidCount', cpu' := pidCount, cpu;
    for n := 0 to |actions|
      invariant kernel.Booted()
      invariant Acts(MachineOf(kernel, pidCount', cpu'), actions[n..], programs) == Acts(start, actions, programs)
    {
      assert actions[n..][0] == actions[n] && actions[n..][1..] == actions[n + 1..];
      match actions[n] {
        case Own => cpu' := Seen(programs(CurrentPid(kernel.table.tasks[..]), cpu'));
        case Timer => cpu' := TimerInterrupt(kernel, pidCount', cpu', programs);
        case Device(line) => cpu' := DeviceInterrupt(kernel, pidCount', cpu', line, programs);
        case Spawn(routine, raw, rsp) =>
          kernel.table.PsLoadTask(NewTask(raw, pidCount', routine, rsp));
          pidCount' := pidCount' + 1;
        case Kill(routine) => kernel.table.PspTerminateThread(routine);
      }
    }
    OneEndPerInterruptIff(start, actions, programs);
  }
}
