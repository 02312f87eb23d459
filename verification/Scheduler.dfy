/** A table of tasks and the scheduler that moves the processor around it. */
module Scheduler {
  import opened Util

  const MAX_TASKS := 64

  datatype Status = Stopped | Running | NoInit

  /** `struct InterruptRegisters`, field by field. */
  datatype Registers = Registers(
    r15: u64, r14: u64, r13: u64, r12: u64, r11: u64, r10: u64, r9: u64, r8: u64,
    rbp: u64, rdi: u64, rsi: u64, rdx: u64, rcx: u64, rbx: u64, rax: u64,
    intNo: u64, errorCode: u64, rip: u64, cs: u64, rflags: u64, rsp: u64, ss: u64)

  const ZERO_REGISTERS := Registers(0, 0, 0, 0, 0, 0, 0, 0, 0, 0, 0, 0, 0, 0, 0, 0, 0, 0, 0, 0, 0, 0)

  datatype Task = Task(pid: int, status: Status, regs: Registers, flags: int)

  predicate Loaded(t: Task) { t.status != NoInit }

  // ---------- what one call does to the table ----------

  /** The first slot from `i` on with a status, or the length of the table. */
  function FirstFrom(ts: seq<Task>, status: Status, i: nat): (j: nat)
    requires i <= |ts|
    ensures i <= j <= |ts|
    ensures j < |ts| ==> ts[j].status == status
    ensures forall k :: i <= k < j ==> ts[k].status != status
    decreases |ts| - i
  {
    if i == |ts| || ts[i].status == status then i else FirstFrom(ts, status, i + 1)
  }

  /** The slot picked after slot `i` was stopped: the next stopped one, or else the first. */
  function SlotAfter(ts: seq<Task>, i: nat): (j: nat)
    requires i < |ts| && ts[i].status == Stopped
    ensures j < |ts| && ts[j].status == Stopped
  {
    var j := FirstFrom(ts, Stopped, i + 1);
    if j < |ts| then j else FirstFrom(ts, Stopped, 0)
  }

  /** The table with the running slot stopped and its registers saved. */
  function Saved(ts: seq<Task>, i: nat, regs: Registers): seq<Task>
    requires i < |ts|
  {
    ts[i := ts[i].(status := Stopped, regs := regs)]
  }

  /** The slot `iNext` names, and the table at label `end`. */
  function Pick(ts: seq<Task>, count: nat, regs: Registers): (r: (nat, seq<Task>))
    requires |ts| == MAX_TASKS
    ensures r.0 < |r.1| == MAX_TASKS
  {
    var i := FirstFrom(ts, Running, 0);
    if count <= 1 || i == MAX_TASKS then (0, ts)
    else if i == MAX_TASKS - 1 then (0, Saved(ts, i, regs))
    else (SlotAfter(Saved(ts, i, regs), i), Saved(ts, i, regs))
  }

  /** The table after a tick, and the registers resumed if the scheduler does not return. */
  function Scheduled(ts: seq<Task>, count: nat, regs: Registers): (r: (seq<Task>, Option<Registers>))
    requires |ts| == MAX_TASKS
    ensures |r.0| == MAX_TASKS
  {
    if count == 0 then (ts, None)
    else
      var (next, saved) := Pick(ts, count, regs);
      if saved[next].status != Running then
        (saved[next := saved[next].(status := Running)], Some(saved[next].regs))
      else (saved, None)
  }

  /** The table after a load: its argument in the first free slot, if there is one. */
  function WithTask(ts: seq<Task>, task: Task): (r: seq<Task>)
    ensures |r| == |ts|
  {
    var i := FirstFrom(ts, NoInit, 0);
    if i < |ts| then ts[i := task.(status := Stopped)] else ts
  }

  predicate HasRoom(ts: seq<Task>) { FirstFrom(ts, NoInit, 0) < |ts| }

  /** A slot after `PspTerminateThread`: cleared if its saved instruction pointer matches. */
  function Terminated(t: Task, routine: u64): Task {
    if t.regs.rip == routine then t.(status := NoInit, regs := ZERO_REGISTERS) else t
  }

  /** It keeps its pid and flags, and every register becomes zero. */
  lemma TerminatedIs(t: Task, routine: u64)
    ensures Terminated(t, routine)
      == if t.regs.rip != routine then t
         else Task(t.pid, NoInit, Registers(0, 0, 0, 0, 0, 0, 0, 0, 0, 0, 0, 0, 0, 0, 0, 0, 0, 0, 0, 0, 0, 0), t.flags)
  {}

  function WithoutThread(ts: seq<Task>, routine: u64): (r: seq<Task>) {
    seq(|ts|, i requires 0 <= i < |ts| => Terminated(ts[i], routine))
  }

  // ---------- the scheduler ----------

  class Table {
    const tasks: array<Task>
    /** `iTaskCount` */
    var taskCount: nat
    /** End-of-interrupt bytes this file sent to PIC1. */
    var eoiSent: nat

    ghost predicate Valid() reads this { tasks.Length == MAX_TASKS }

    constructor ()
      ensures Valid() && fresh(tasks) && taskCount == 0 && eoiSent == 0
      ensures forall i :: 0 <= i < MAX_TASKS ==> tasks[i].status == NoInit
    {
      tasks := new Task[MAX_TASKS](_ => Task(0, NoInit, ZERO_REGISTERS, 0));
      taskCount := 0;
      eoiSent := 0;
    }

    /** The search for another stopped slot once slot `i` was stopped. */
    method FindAfter(i: nat) returns (next: nat)
      requires Valid() && i < MAX_TASKS - 1 && tasks[i].status == Stopped
      ensures next == SlotAfter(tasks[..], i)
    {
      next := 0;
      for j := i + 1 to MAX_TASKS
        invariant j < MAX_TASKS && FirstFrom(tasks[..], Stopped, i + 1) == FirstFrom(tasks[..], Stopped, j)
      {
        if tasks[j].status == Stopped {
          return j;
        } else if j == MAX_TASKS - 1 {
          for k := 0 to i + 1
            invariant FirstFrom(tasks[..], Stopped, 0) == FirstFrom(tasks[..], Stopped, k)
          {
            if tasks[k].status == Stopped {
              return k;
            }
          }
          assert false;
        }
      }
    }

    /** The search for the running slot, up to label `end`. */
    method PickNext(regs: Registers) returns (next: nat)
      requires Valid() && taskCount > 1
      modifies tasks
      ensures (next, tasks[..]) == Pick(old(tasks[..]), taskCount, regs)
    {
      next := 0;
      ghost var before := tasks[..];
      for i := 0 to MAX_TASKS
        invariant next == 0
        invariant (tasks[..] == before && FirstFrom(before, Running, 0) == FirstFrom(before, Running, i))
               || (i == MAX_TASKS && FirstFrom(before, Running, 0) == MAX_TASKS - 1
                 && tasks[..] == Saved(before, MAX_TASKS - 1, regs))
      {
        if tasks[i].status == Running {
          tasks[i] := tasks[i].(status := Stopped, regs := regs);
          assert tasks[..] == Saved(before, i, regs);
          if i < MAX_TASKS - 1 {
            next := FindAfter(i);
            return;
          }
        }
      }
    }

    method PsScheduleThreads(regs: Registers) returns (resumed: Option<Registers>)
      requires Valid()
      modifies tasks, this`eoiSent
      ensures (tasks[..], resumed) == Scheduled(old(tasks[..]), taskCount, regs)
      ensures eoiSent == old(eoiSent) + if resumed.Some? then 1 else 0
    {
      resumed := None;
      if taskCount == 0 {
        return;
      }
      var next := 0;
      if taskCount > 1 {
        next := PickNext(regs);
      }
      ghost var saved := tasks[..];
      assert (next, saved) == Pick(old(tasks[..]), taskCount, regs);
      if tasks[next].status != Running {
        tasks[next] := tasks[next].(status := Running);
        eoiSent := eoiSent + 1;
        resumed := Some(tasks[next].regs);
        assert tasks[..] == saved[next := saved[next].(status := Running)];
      }
    }

    method PsLoadTask(task: Task)
      requires Valid()
      modifies tasks, this`taskCount
      ensures tasks[..] == WithTask(old(tasks[..]), task)
      ensures taskCount == old(taskCount) + if HasRoom(old(tasks[..])) then 1 else 0
    {
      ghost var before := tasks[..];
      for i := 0 to MAX_TASKS
        invariant tasks[..] == before && taskCount == old(taskCount)
        invariant FirstFrom(before, NoInit, 0) == FirstFrom(before, NoInit, i)
      {
        if tasks[i].status == NoInit {
          tasks[i] := task.(status := Stopped);
          taskCount := taskCount + 1;
          assert tasks[..] == before[i := task.(status := Stopped)];
          return;
        }
      }
    }

    method PspTerminateThread(routine: u64)
      requires Valid()
      modifies tasks
      ensures tasks[..] == WithoutThread(old(tasks[..]), routine)
    {
      for i := 0 to MAX_TASKS
        invariant forall k :: 0 <= k < i ==> tasks[k] == Terminated(old(tasks[k]), routine)
        invariant forall k :: i <= k < MAX_TASKS ==> tasks[k] == old(tasks[k])
      {
        if tasks[i].regs.rip == routine {
          tasks[i] := tasks[i].(status := NoInit, regs := ZERO_REGISTERS);
        }
      }
    }
  }
}
