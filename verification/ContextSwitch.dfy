/** The processor running tasks under the scheduler: no task can tell that it was interrupted. */
module ContextSwitch {
  import opened Util
  import opened Scheduler
  import opened SchedulerRuns

  /** What one own step of a task does to its registers; by pid. */
  type Programs = (int, Registers) -> Registers

  const IRQ0 := 32
  const IRQ8 := 40

  /** The interrupt vectors of the lines other than the timer's. */
  type Line = n: int | IRQ0 < n < 48 witness 33

  /** The registers a task can see: the two words only an interrupt frame has are blanked. */
  function Seen(r: Registers): Registers { r.(intNo := 0, errorCode := 0) }

  /** The frame an interrupt saves. */
  function Frame(cpu: Registers, line: u64): Registers { cpu.(intNo := line, errorCode := 0) }

  /** Nothing else is hidden: registers that look the same differ in those two words at most. */
  lemma SeenSameIff(a: Registers, b: Registers)
    ensures Seen(a) == Seen(b) <==> a == b.(intNo := a.intNo, errorCode := a.errorCode)
  {}

  lemma FrameSeen(cpu: Registers, line: u64)
    ensures Seen(Frame(cpu, line)) == Seen(cpu) && Frame(cpu, line).intNo == line && Frame(cpu, line).errorCode == 0
  {}

  /** The tasks, the processor's registers, and the end-of-interrupt bytes sent to PIC1. */
  datatype Machine = Machine(s: State, cpu: Registers, eois: nat)

  datatype Action =
    | Own
    | Timer
    | Device(line: Line)
    | Spawn(routine: u64, raw: Task, rsp: u64)
    | Kill(routine: u64)

  /** Code that runs while no slot is running: the boot path, or a thread terminated while it was running. */
  const NOBODY := -1

  function CurrentPid(ts: seq<Task>): int {
    var i := FirstFrom(ts, Running, 0);
    if i < |ts| then ts[i].pid else NOBODY
  }

  function Act(m: Machine, a: Action, programs: Programs): (r: Machine)
    requires |m.s.tasks| == MAX_TASKS
    ensures |r.s.tasks| == MAX_TASKS
  {
    match a
    case Own => m.(cpu := Seen(programs(CurrentPid(m.s.tasks), m.cpu)))
    case Timer =>
      var frame := Frame(m.cpu, IRQ0);
      var resumed := Scheduled(m.s.tasks, m.s.taskCount, frame).1;
      Machine(Step(m.s, Tick(frame)), Seen(if resumed.Some? then resumed.value else frame), m.eois + 1)
    case Device(line) => m.(cpu := Seen(m.cpu), eois := m.eois + if line == IRQ8 then 2 else 1)
    case Spawn(routine, raw, rsp) => m.(s := Step(m.s, Create(routine, raw, rsp)))
    case Kill(routine) => m.(s := Step(m.s, Terminate(routine)))
  }

  function Acts(m: Machine, actions: seq<Action>, programs: Programs): (r: Machine)
    requires |m.s.tasks| == MAX_TASKS
    ensures |r.s.tasks| == MAX_TASKS
    decreases |actions|
  {
    if actions == [] then m else Acts(Act(m, actions[0], programs), actions[1..], programs)
  }

  /** The registers a loaded task would see next: the processor's while it runs, its saved ones while it does not. */
  function Context(m: Machine, i: nat): Registers
    requires i < |m.s.tasks|
  {
    if m.s.tasks[i].status == Running then m.cpu else Seen(m.s.tasks[i].regs)
  }

  /** n own steps of a task, by its pid. */
  function Iterate(programs: Programs, pid: int, n: nat, r: Registers): Registers {
    if n == 0 then r else Seen(programs(pid, Iterate(programs, pid, n - 1, r)))
  }

  /** The number of own steps slot `i` takes during some actions. */
  function OwnSteps(m: Machine, actions: seq<Action>, programs: Programs, i: nat): nat
    requires |m.s.tasks| == MAX_TASKS && i < MAX_TASKS
    decreases |actions|
  {
    if actions == [] then 0
    else
      (if actions[0].Own? && m.s.tasks[i].status == Running then 1 else 0)
      + OwnSteps(Act(m, actions[0], programs), actions[1..], programs, i)
  }

  /** No termination matches the instruction pointer saved in slot `i` at that moment. */
  predicate Spares(m: Machine, actions: seq<Action>, programs: Programs, i: nat)
    requires |m.s.tasks| == MAX_TASKS && i < MAX_TASKS
    decreases |actions|
  {
    actions == []
    || ((actions[0].Kill? ==> m.s.tasks[i].regs.rip != actions[0].routine)
        && Spares(Act(m, actions[0], programs), actions[1..], programs, i))
  }

  /** What every run keeps. */
  ghost predicate Sound(m: Machine) {
    m.cpu == Seen(m.cpu) && exists high :: InvAt(m.s, high)
  }

  lemma {:induction false} IterateStep(programs: Programs, pid: int, n: nat, r: Registers)
    ensures Iterate(programs, pid, n + 1, r) == Iterate(programs, pid, n, Seen(programs(pid, r)))
  {
    if n > 0 { IterateStep(programs, pid, n - 1, r); }
  }

  // ---------- what every run keeps ----------

  /** The machine at boot. */
  lemma SoundAtBoot(m: Machine)
    requires Initial(m.s) && m.cpu == Seen(m.cpu)
    ensures Sound(m)
  {
    assert InvAt(m.s, 0);
  }

  lemma SoundStep(m: Machine, a: Action, programs: Programs)
    requires Sound(m)
    ensures Sound(Act(m, a, programs))
  {
    hide InvAt;
    var high :| InvAt(m.s, high);
    InvTasks(m.s, high);
    match a
    case Own =>
    case Device(_) =>
    case Timer => TickKeeps(m.s, Tick(Frame(m.cpu, IRQ0)), high);
    case Spawn(routine, raw, rsp) => var _ := CreateKeeps(m.s, Create(routine, raw, rsp), high);
    case Kill(routine) => TerminateKeeps(m.s, Terminate(routine), high);
  }

  lemma InvTasks(s: State, high: nat)
    requires InvAt(s, high)
    ensures |s.tasks| == MAX_TASKS
  {}

  lemma {:induction false} SoundAlways(m: Machine, actions: seq<Action>, programs: Programs)
    requires Sound(m)
    ensures |m.s.tasks| == MAX_TASKS && Sound(Acts(m, actions, programs))
    decreases |actions|
  {
    if actions != [] {
      SoundStep(m, actions[0], programs);
      SoundAlways(Act(m, actions[0], programs), actions[1..], programs);
    }
  }

  // ---------- one action ----------

  /** The running slot is the only one, and the first in the table; a lone load is slot 0. */
  lemma OneRunning(m: Machine, i: nat)
    requires Sound(m) && i < MAX_TASKS && m.s.tasks[i].status == Running
    ensures |m.s.tasks| == MAX_TASKS && FirstFrom(m.s.tasks, Running, 0) == i
    ensures m.s.taskCount > 0 && (m.s.taskCount == 1 ==> i == 0)
    ensures forall k :: 0 <= k < MAX_TASKS && k != i ==> m.s.tasks[k].status != Running
  {
    var high :| InvAt(m.s, high);
    forall k | 0 <= k < MAX_TASKS && k != i
      ensures m.s.tasks[k].status != Running
    {
      assert m.s.tasks[Min(i, k)].status != Running || m.s.tasks[Max(i, k)].status != Running;
    }
  }

  /**
   A tick loses no context, whatever is loaded: the stopped one is saved, the resumed one taken up, all
   others kept.
   */
  lemma TickContext(m: Machine, programs: Programs, i: nat)
    requires Sound(m) && i < |m.s.tasks| == MAX_TASKS && Loaded(m.s.tasks[i])
    ensures var m' := Act(m, Timer, programs);
      Loaded(m'.s.tasks[i]) && m'.s.tasks[i].pid == m.s.tasks[i].pid && Context(m', i) == Context(m, i)
  {
    FrameSeen(m.cpu, IRQ0);
    var r := FirstFrom(m.s.tasks, Running, 0);
    if r < MAX_TASKS {
      OneRunning(m, r);
    }
  }

  lemma SpawnContext(m: Machine, a: Action, programs: Programs, i: nat)
    requires i < |m.s.tasks| == MAX_TASKS && a.Spawn? && Loaded(m.s.tasks[i])
    ensures Act(m, a, programs).s.tasks[i] == m.s.tasks[i]
  {}

  lemma ActKeeps(m: Machine, a: Action, programs: Programs, i: nat)
    requires Sound(m) && i < |m.s.tasks| == MAX_TASKS && Loaded(m.s.tasks[i])
    requires a.Kill? ==> m.s.tasks[i].regs.rip != a.routine
    ensures var m' := Act(m, a, programs);
      var pid := m.s.tasks[i].pid;
      && Loaded(m'.s.tasks[i]) && m'.s.tasks[i].pid == pid
      && Context(m', i)
         == if a.Own? && m.s.tasks[i].status == Running then Seen(programs(pid, Context(m, i))) else Context(m, i)
  {
    match a
    case Own =>
      if m.s.tasks[i].status == Running { OneRunning(m, i); }
    case Device(_) =>
    case Spawn(_, _, _) => SpawnContext(m, a, programs, i);
    case Kill(_) =>
    case Timer => TickContext(m, programs, i);
  }

  // ---------- whole runs ----------

  /**
   Main result: over every interleaving of own steps, interrupts, creates and terminations of other
   threads, a task's registers are those its own steps alone would have produced.
   */
  lemma {:induction false} Transparent(m: Machine, actions: seq<Action>, programs: Programs, i: nat)
    requires Sound(m) && i < |m.s.tasks| == MAX_TASKS && Loaded(m.s.tasks[i]) && Spares(m, actions, programs, i)
    ensures var r := Acts(m, actions, programs);
      && Loaded(r.s.tasks[i]) && r.s.tasks[i].pid == m.s.tasks[i].pid
      && Context(r, i) == Iterate(programs, m.s.tasks[i].pid, OwnSteps(m, actions, programs, i), Context(m, i))
    decreases |actions|
  {
    if actions != [] {
      var m' := Act(m, actions[0], programs);
      SoundStep(m, actions[0], programs);
      ActKeeps(m, actions[0], programs, i);
      Transparent(m', actions[1..], programs, i);
      IterateStep(programs, m.s.tasks[i].pid, OwnSteps(m', actions[1..], programs, i), Context(m, i));
    }
  }

  /** A spawned task gets the first free slot and starts from the registers it was created with. */
  lemma SpawnedContext(m: Machine, a: Action, programs: Programs)
    requires |m.s.tasks| == MAX_TASKS && a.Spawn? && HasRoom(m.s.tasks)
    ensures var m' := Act(m, a, programs);
      var i := FirstFrom(m.s.tasks, NoInit, 0);
      && Loaded(m'.s.tasks[i]) && m'.s.tasks[i].pid == m.s.pidCount
      && Context(m', i) == Seen(NewTask(a.raw, m.s.pidCount, a.routine, a.rsp).regs)
  {}

  /**
   From creation on, in any run since boot in which nothing terminates it: k own steps of a thread are
   k applications of its step function to the registers it was created with.
   */
  lemma TransparentSinceSpawn(boot: Machine, before: seq<Action>, a: Action, after: seq<Action>, programs: Programs)
    requires Initial(boot.s) && boot.cpu == Seen(boot.cpu) && a.Spawn?
    requires var m := Acts(boot, before, programs);
      HasRoom(m.s.tasks) && Spares(Act(m, a, programs), after, programs, FirstFrom(m.s.tasks, NoInit, 0))
    ensures var m := Acts(boot, before, programs);
      var m' := Act(m, a, programs);
      var (i, pid) := (FirstFrom(m.s.tasks, NoInit, 0), m.s.pidCount);
      Context(Acts(m', after, programs), i)
      == Iterate(programs, pid, OwnSteps(m', after, programs, i), Seen(NewTask(a.raw, pid, a.routine, a.rsp).regs))
  {
    SoundAtBoot(boot);
    SoundAlways(boot, before, programs);
    var m := Acts(boot, before, programs);
    SpawnedContext(m, a, programs);
    SoundStep(m, a, programs);
    Transparent(Act(m, a, programs), after, programs, FirstFrom(m.s.tasks, NoInit, 0));
  }

  // ---------- termination by start address ----------

  /** A tick that saves the registers of slot `i`. */
  predicate Saves(m: Machine, a: Action, i: nat)
    requires i < |m.s.tasks|
  {
    a.Timer? && m.s.tasks[i].status == Running && m.s.taskCount > 1
  }

  /**
   The number of own steps slot `i` had taken when its registers were last saved; `taken` steps came before
   these actions, and `saved` of them before the last save.
   */
  function StepsSaved(m: Machine, actions: seq<Action>, programs: Programs, i: nat, taken: nat, saved: nat): nat
    requires |m.s.tasks| == MAX_TASKS && i < MAX_TASKS
    decreases |actions|
  {
    if actions == [] then saved
    else
      StepsSaved(Act(m, actions[0], programs), actions[1..], programs, i,
                 taken + if actions[0].Own? && m.s.tasks[i].status == Running then 1 else 0,
                 if Saves(m, actions[0], i) then taken else saved)
  }

  /** The registers in the slot change only when they are saved. */
  lemma ActSaves(m: Machine, a: Action, programs: Programs, i: nat)
    requires Sound(m) && i < |m.s.tasks| == MAX_TASKS && Loaded(m.s.tasks[i])
    requires a.Kill? ==> m.s.tasks[i].regs.rip != a.routine
    ensures Seen(Act(m, a, programs).s.tasks[i].regs)
      == if Saves(m, a, i) then Context(m, i) else Seen(m.s.tasks[i].regs)
  {
    match a
    case Own =>
    case Device(_) =>
    case Spawn(_, _, _) => SpawnContext(m, a, programs, i);
    case Kill(_) =>
    case Timer =>
      FrameSeen(m.cpu, IRQ0);
      var r := FirstFrom(m.s.tasks, Running, 0);
      if r < MAX_TASKS { OneRunning(m, r); }
  }

  lemma {:induction false} SavedSteps(m: Machine, actions: seq<Action>, programs: Programs, i: nat, start: Registers,
                                      taken: nat, saved: nat)
    requires Sound(m) && i < |m.s.tasks| == MAX_TASKS && Loaded(m.s.tasks[i]) && Spares(m, actions, programs, i)
    requires var pid := m.s.tasks[i].pid;
      && Context(m, i) == Iterate(programs, pid, taken, start)
      && Seen(m.s.tasks[i].regs) == Iterate(programs, pid, saved, start)
    ensures Loaded(Acts(m, actions, programs).s.tasks[i])
    ensures Seen(Acts(m, actions, programs).s.tasks[i].regs)
      == Iterate(programs, m.s.tasks[i].pid, StepsSaved(m, actions, programs, i, taken, saved), start)
    decreases |actions|
  {
    if actions != [] {
      var a, ran := actions[0], actions[0].Own? && m.s.tasks[i].status == Running;
      SoundStep(m, a, programs);
      ActKeeps(m, a, programs, i);
      ActSaves(m, a, programs, i);
      hide Context, Act, Sound;
      SavedSteps(Act(m, a, programs), actions[1..], programs, i, start, taken + if ran then 1 else 0,
                 if Saves(m, a, i) then taken else saved);
    }
  }

  /**
   Terminating a thread by its start address clears it exactly when its own steps had brought it back there
   when its registers were last saved: the code compares the saved instruction pointer, not the one the
   thread started from, and for a running thread not the one it is at.
   */
  lemma TerminatesIff(boot: Machine, before: seq<Action>, a: Action, after: seq<Action>, programs: Programs)
    requires Initial(boot.s) && boot.cpu == Seen(boot.cpu) && a.Spawn?
    requires var m := Acts(boot, before, programs);
      HasRoom(m.s.tasks) && Spares(Act(m, a, programs), after, programs, FirstFrom(m.s.tasks, NoInit, 0))
    ensures var m := Acts(boot, before, programs);
      var m' := Act(m, a, programs);
      var (i, pid) := (FirstFrom(m.s.tasks, NoInit, 0), m.s.pidCount);
      var saved := StepsSaved(m', after, programs, i, 0, 0);
      var start := Seen(NewTask(a.raw, pid, a.routine, a.rsp).regs);
      Loaded(Act(Acts(m', after, programs), Kill(a.routine), programs).s.tasks[i])
      <==> Iterate(programs, pid, saved, start).rip != a.routine
  {
    SoundAtBoot(boot);
    SoundAlways(boot, before, programs);
    var m := Acts(boot, before, programs);
    SpawnedContext(m, a, programs);
    SoundStep(m, a, programs);
    var i := FirstFrom(m.s.tasks, NoInit, 0);
    var m' := Act(m, a, programs);
    var start := Seen(NewTask(a.raw, m.s.pidCount, a.routine, a.rsp).regs);
    SavedSteps(m', after, programs, i, start, 0, 0);
    hide Acts, Iterate, StepsSaved, Spares;
    KillClearsIff(Acts(m', after, programs), a.routine, programs, i);
  }

  lemma KillClearsIff(m: Machine, routine: u64, programs: Programs, i: nat)
    requires i < |m.s.tasks| == MAX_TASKS && Loaded(m.s.tasks[i])
    ensures Loaded(Act(m, Kill(routine), programs).s.tasks[i]) <==> Seen(m.s.tasks[i].regs).rip != routine
  {}

  /** While it waits, the last save was after its last step. */
  lemma WaitingTerminatesIff(boot: Machine, before: seq<Action>, a: Action, after: seq<Action>, programs: Programs)
    requires Initial(boot.s) && boot.cpu == Seen(boot.cpu) && a.Spawn?
    requires var m := Acts(boot, before, programs);
      var i := FirstFrom(m.s.tasks, NoInit, 0);
      && HasRoom(m.s.tasks) && Spares(Act(m, a, programs), after, programs, i)
      && Acts(Act(m, a, programs), after, programs).s.tasks[i].status == Stopped
    ensures var m := Acts(boot, before, programs);
      var m' := Act(m, a, programs);
      var (i, pid) := (FirstFrom(m.s.tasks, NoInit, 0), m.s.pidCount);
      var start := Seen(NewTask(a.raw, pid, a.routine, a.rsp).regs);
      Loaded(Act(Acts(m', after, programs), Kill(a.routine), programs).s.tasks[i])
      <==> Iterate(programs, pid, OwnSteps(m', after, programs, i), start).rip != a.routine
  {
    hide Acts, Iterate, OwnSteps, Spares;
    TransparentSinceSpawn(boot, before, a, after, programs);
  }

  /** A thread's step that does nothing but move on to the next instruction. */
  function Advance(pid: int, r: Registers): Registers { r.(rip := (r.rip + 1) % TWO_64) }

  /** The failing case: a thread stopped after its first step outlives its termination. */
  lemma TerminationMissed(boot: Machine, raw: Task)
    requires Initial(boot.s) && boot.cpu == Seen(boot.cpu)
    ensures var actions := [Spawn(0x1000, raw, 0x20000), Spawn(0x2000, raw, 0x40000), Timer, Own, Timer, Kill(0x1000)];
      var r := Acts(boot, actions, Advance);
      Loaded(r.s.tasks[0]) && r.s.tasks[0].pid == 0
  {
    var actions := [Spawn(0x1000, raw, 0x20000), Spawn(0x2000, raw, 0x40000), Timer, Own, Timer, Kill(0x1000)];
    var m1 := Act(boot, actions[0], Advance);
    var m2 := Act(m1, actions[1], Advance);
    var m3 := Act(m2, Timer, Advance);
    var m4 := Act(m3, Own, Advance);
    var m5 := Act(m4, Timer, Advance);
    var m6 := Act(m5, Kill(0x1000), Advance);
    ActsSix(boot, actions, Advance);
    TwoSpawned(boot, raw);
    assert m3.s.tasks[0].status == Running && m3.cpu.rip == 0x1000;
    assert CurrentPid(m4.s.tasks) == 0 && m4.cpu.rip == 0x1001 by { DivModUnique(0x1001, TWO_64, 0, 0x1001); }
    assert m5.s.tasks[0].regs.rip == 0x1001;
  }

  lemma TwoSpawned(boot: Machine, raw: Task)
    requires Initial(boot.s)
    ensures var m := Act(Act(boot, Spawn(0x1000, raw, 0x20000), Advance), Spawn(0x2000, raw, 0x40000), Advance);
      && m.s.taskCount == 2 && (forall k :: 2 <= k < MAX_TASKS ==> m.s.tasks[k].status == NoInit)
      && m.s.tasks[0].status == Stopped && m.s.tasks[0].pid == 0 && m.s.tasks[0].regs.rip == 0x1000
      && m.s.tasks[1].status == Stopped && m.s.tasks[1].regs.rip == 0x2000
  {
    var m1 := Act(boot, Spawn(0x1000, raw, 0x20000), Advance);
    assert FirstFrom(boot.s.tasks, NoInit, 0) == 0;
    assert FirstFrom(m1.s.tasks, NoInit, 0) == 1;
  }

  lemma ActsCons(m: Machine, actions: seq<Action>, programs: Programs)
    requires |m.s.tasks| == MAX_TASKS && actions != []
    ensures Acts(m, actions, programs) == Acts(Act(m, actions[0], programs), actions[1..], programs)
  {}

  lemma ActsSix(m: Machine, actions: seq<Action>, programs: Programs)
    requires |m.s.tasks| == MAX_TASKS && |actions| == 6
    ensures var m3 := Act(Act(Act(m, actions[0], programs), actions[1], programs), actions[2], programs);
      Acts(m, actions, programs)
      == Act(Act(Act(m3, actions[3], programs), actions[4], programs), actions[5], programs)
  {
    hide Act;
    var m1 := Act(m, actions[0], programs);
    var m2 := Act(m1, actions[1], programs);
    var m3 := Act(m2, actions[2], programs);
    var m4 := Act(m3, actions[3], programs);
    var m5 := Act(m4, actions[4], programs);
    ActsCons(m, actions, programs);
    ActsCons(m1, actions[1..], programs);
    ActsCons(m2, actions[2..], programs);
    ActsCons(m3, actions[3..], programs);
    ActsCons(m4, actions[4..], programs);
    ActsCons(m5, actions[5..], programs);
    assert actions[1..][1..] == actions[2..] && actions[2..][1..] == actions[3..];
    assert actions[3..][1..] == actions[4..] && actions[4..][1..] == actions[5..] && actions[5..][1..] == [];
  }

  // ---------- end-of-interrupt bytes ----------

  /** The interrupts among some actions. */
  function Interrupts(actions: seq<Action>): nat {
    if actions == [] then 0 else Interrupts(actions[1..]) + if actions[0].Timer? || actions[0].Device? then 1 else 0
  }

  lemma {:induction false} EndsGrow(m: Machine, actions: seq<Action>, programs: Programs)
    requires |m.s.tasks| == MAX_TASKS
    ensures Acts(m, actions, programs).eois >= m.eois + Interrupts(actions)
    decreases |actions|
  {
    if actions != [] { EndsGrow(Act(m, actions[0], programs), actions[1..], programs); }
  }

  /**
   Over a whole run PIC1 is told the end of every interrupt once, whether the scheduler switched or
   returned, if and only if the real-time clock never interrupts.
   */
  lemma {:induction false} OneEndPerInterruptIff(m: Machine, actions: seq<Action>, programs: Programs)
    requires |m.s.tasks| == MAX_TASKS
    ensures Acts(m, actions, programs).eois == m.eois + Interrupts(actions) <==> Device(IRQ8) !in actions
    decreases |actions|
  {
    if actions != [] {
      var m' := Act(m, actions[0], programs);
      assert actions == [actions[0]] + actions[1..];
      if actions[0] == Device(IRQ8) {
        EndsGrow(m', actions[1..], programs);
      } else {
        OneEndPerInterruptIff(m', actions[1..], programs);
      }
    }
  }
}
