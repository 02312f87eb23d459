/** Whole runs of the scheduler: creates, terminations and timer ticks in any order. */
module SchedulerRuns {
  import opened Util
  import opened Scheduler

  datatype State = State(tasks: seq<Task>, taskCount: nat, pidCount: nat)

  datatype Event =
    | Create(routine: u64, raw: Task, rsp: u64)
    | Terminate(routine: u64)
    | Tick(regs: Registers)

  const KERNEL_CODE := 0x28
  const KERNEL_DATA := 0x30
  /** The interrupt-enable flag and the bit that is always one. */
  const INITIAL_RFLAGS := 0x202
  /** The constant assigned to `flags`, cut to a byte. */
  const KERNEL_FLAGS := 0x202 % 0x100

  /** The record `PspCreateThread` fills in; `raw` is what the allocated memory held before. */
  function NewTask(raw: Task, pid: int, routine: u64, rsp: u64): Task {
    raw.(pid := pid, flags := KERNEL_FLAGS,
         regs := raw.regs.(rip := routine, rflags := INITIAL_RFLAGS, cs := KERNEL_CODE, ss := KERNEL_DATA, rsp := rsp))
  }

  function Step(s: State, e: Event): State
    requires |s.tasks| == MAX_TASKS
  {
    match e
    case Create(routine, raw, rsp) =>
      State(WithTask(s.tasks, NewTask(raw, s.pidCount, routine, rsp)),
            s.taskCount + if HasRoom(s.tasks) then 1 else 0, s.pidCount + 1)
    case Terminate(routine) => s.(tasks := WithoutThread(s.tasks, routine))
    case Tick(regs) => s.(tasks := Scheduled(s.tasks, s.taskCount, regs).0)
  }

  function Run(s: State, events: seq<Event>): (r: State)
    requires |s.tasks| == MAX_TASKS
    ensures |r.tasks| == MAX_TASKS
    decreases |events|
  {
    if events == [] then s
    else
      assert |Step(s, events[0]).tasks| == MAX_TASKS;
      Run(Step(s, events[0]), events[1..])
  }

  /** After `PsThreadsInit`: every slot is free, whatever else the memory holds. */
  predicate Initial(s: State) {
    |s.tasks| == MAX_TASKS && s.taskCount == 0 && s.pidCount == 0
    && forall i :: 0 <= i < MAX_TASKS ==> s.tasks[i].status == NoInit
  }

  // ---------- safety ----------

  predicate AtMostOneRunning(ts: seq<Task>) {
    forall i, j :: 0 <= i < j < |ts| ==> !(ts[i].status == Running && ts[j].status == Running)
  }

  /**
   `high` slots were ever used; dead ones keep their pid, so that even a dead slot that is resumed
   again has a pid of its own.
   */
  predicate InvAt(s: State, high: nat) {
    && |s.tasks| == MAX_TASKS && high <= MAX_TASKS && high <= s.taskCount && (s.taskCount > 0 ==> high > 0)
    && (forall i :: high <= i < MAX_TASKS ==> s.tasks[i].status == NoInit)
    && (forall i :: 0 <= i < high ==> 0 <= s.tasks[i].pid < s.pidCount)
    && (forall i, j :: 0 <= i < j < high ==> s.tasks[i].pid != s.tasks[j].pid)
    && AtMostOneRunning(s.tasks)
  }

  lemma CreateKeeps(s: State, e: Event, high: nat) returns (high': nat)
    requires InvAt(s, high) && e.Create?
    ensures InvAt(Step(s, e), high')
  {
    var i := FirstFrom(s.tasks, NoInit, 0);
    high' := if i == high < MAX_TASKS then high + 1 else high;
    if high < MAX_TASKS { assert s.tasks[high].status == NoInit; }
  }

  lemma TerminateKeeps(s: State, e: Event, high: nat)
    requires InvAt(s, high) && e.Terminate?
    ensures InvAt(Step(s, e), high)
  {
    var s' := Step(s, e);
    assert forall i :: 0 <= i < MAX_TASKS ==> s'.tasks[i] == Terminated(s.tasks[i], e.routine);
  }

  /** A tick stops the running slot and sets one other; the dead slot 0 is the only one it can revive. */
  lemma TickShape(ts: seq<Task>, count: nat, regs: Registers)
    requires |ts| == MAX_TASKS && count > 0
    ensures var (next, saved) := Pick(ts, count, regs);
      var ts' := Scheduled(ts, count, regs).0;
      && next < MAX_TASKS && |saved| == |ts'| == MAX_TASKS
      && (forall k :: 0 <= k < MAX_TASKS ==> ts'[k].pid == ts[k].pid)
      && (forall k :: 0 <= k < MAX_TASKS && k != next ==> ts'[k].status == saved[k].status)
      && ts'[next].status == Running
      && (next != 0 ==> ts[next].status != NoInit)
      && (forall k :: 0 <= k < MAX_TASKS ==> (saved[k].status == NoInit <==> ts[k].status == NoInit))
  {}

  lemma TickKeeps(s: State, e: Event, high: nat)
    requires InvAt(s, high) && e.Tick?
    ensures InvAt(Step(s, e), high)
  {
    if s.taskCount > 0 {
      TickShape(s.tasks, s.taskCount, e.regs);
      var (next, saved) := Pick(s.tasks, s.taskCount, e.regs);
      var i := FirstFrom(s.tasks, Running, 0);
      var s' := Step(s, e);
      assert next < high;
      if s.taskCount > 1 {
        assert forall k :: 0 <= k < MAX_TASKS ==> saved[k].status != Running;
      } else {
        assert forall k :: 1 <= k < MAX_TASKS ==> saved[k].status == NoInit;
      }
      assert forall k :: 0 <= k < MAX_TASKS && k != next ==> s'.tasks[k].status != Running;
    }
  }

  lemma {:induction false} RunKeeps(s: State, events: seq<Event>, high: nat) returns (high': nat)
    requires InvAt(s, high)
    ensures InvAt(Run(s, events), high')
    decreases |events|
  {
    high' := high;
    if events != [] {
      match events[0] {
        case Create(_, _, _) => high' := CreateKeeps(s, events[0], high);
        case Terminate(_) => TerminateKeeps(s, events[0], high);
        case Tick(_) => TickKeeps(s, events[0], high);
      }
      high' := RunKeeps(Step(s, events[0]), events[1..], high');
    }
  }

  function LoadedSlots(ts: seq<Task>): set<int> { set i | 0 <= i < |ts| && Loaded(ts[i]) }

  /** The number of creates that found a free slot. */
  function AcceptedLoads(s: State, events: seq<Event>): nat
    requires |s.tasks| == MAX_TASKS
    decreases |events|
  {
    if events == [] then 0
    else (if events[0].Create? && HasRoom(s.tasks) then 1 else 0) + AcceptedLoads(Step(s, events[0]), events[1..])
  }

  lemma {:induction false} CountsLoads(s: State, events: seq<Event>)
    requires |s.tasks| == MAX_TASKS
    ensures Run(s, events).taskCount == s.taskCount + AcceptedLoads(s, events)
    decreases |events|
  {
    if events != [] { CountsLoads(Step(s, events[0]), events[1..]); }
  }

  function Below(n: nat): (r: set<int>)
    ensures forall i :: i in r <==> 0 <= i < n
  {
    if n == 0 then {} else Below(n - 1) + {n - 1}
  }

  lemma {:induction false} BelowSize(n: nat)
    ensures |Below(n)| == n
  {
    if n > 0 { BelowSize(n - 1); }
  }

  lemma SubsetSize(a: set<int>, b: set<int>)
    requires a <= b
    ensures |a| <= |b|
  {
    assert b == a + (b - a);
  }

  /** Main result: what holds after any sequence of creates, terminations and ticks. */
  lemma Safety(s: State, events: seq<Event>)
    requires Initial(s)
    ensures var r := Run(s, events);
      && AtMostOneRunning(r.tasks)
      && (forall i :: 0 <= i < MAX_TASKS && Loaded(r.tasks[i]) ==> 0 <= r.tasks[i].pid < r.pidCount)
      && (forall i, j :: 0 <= i < j < MAX_TASKS && Loaded(r.tasks[i]) && Loaded(r.tasks[j]) ==>
            r.tasks[i].pid != r.tasks[j].pid)
      && r.taskCount == AcceptedLoads(s, events) && |LoadedSlots(r.tasks)| <= r.taskCount
  {
    var high := RunKeeps(s, events, 0);
    CountsLoads(s, events);
    BelowSize(high);
    SubsetSize(LoadedSlots(Run(s, events).tasks), Below(high));
  }

  // ---------- runs without terminations ----------

  predicate NoTerminations(events: seq<Event>) { forall i :: 0 <= i < |events| ==> !events[i].Terminate? }

  /** The loaded slots are the first `taskCount`. */
  predicate Prefix(s: State) {
    && |s.tasks| == MAX_TASKS && s.taskCount <= MAX_TASKS
    && forall i :: 0 <= i < MAX_TASKS ==> (Loaded(s.tasks[i]) <==> i < s.taskCount)
  }

  lemma PrefixStep(s: State, e: Event)
    requires Prefix(s) && !e.Terminate?
    ensures Prefix(Step(s, e))
  {
    if e.Create? {
      var i := FirstFrom(s.tasks, NoInit, 0);
      if s.taskCount < MAX_TASKS { assert !Loaded(s.tasks[s.taskCount]); }
      if i < MAX_TASKS { assert !Loaded(s.tasks[i]); }
      assert i == s.taskCount;
    } else if s.taskCount > 0 {
      TickShape(s.tasks, s.taskCount, e.regs);
    }
  }

  lemma {:induction false} PrefixRun(s: State, events: seq<Event>)
    requires Prefix(s) && NoTerminations(events)
    ensures Prefix(Run(s, events))
    decreases |events|
  {
    if events != [] {
      PrefixStep(s, events[0]);
      PrefixRun(Step(s, events[0]), events[1..]);
    }
  }

  /** With nothing terminated, the loaded slots are exactly a prefix of `taskCount` slots, no more and no fewer. */
  lemma CountsExactly(s: State, events: seq<Event>)
    requires Initial(s) && NoTerminations(events)
    ensures var r := Run(s, events); Prefix(r) && |LoadedSlots(r.tasks)| == r.taskCount
  {
    PrefixRun(s, events);
    var r := Run(s, events);
    BelowSize(r.taskCount);
    assert LoadedSlots(r.tasks) == Below(r.taskCount);
  }

  lemma RoomMeansFewer(ts: seq<Task>, i: nat)
    requires i < |ts| && !Loaded(ts[i])
    ensures |LoadedSlots(ts)| < |ts|
  {
    BelowSize(|ts|);
    SubsetSize(LoadedSlots(ts), Below(|ts|) - {i});
  }

  /** A create that finds the table full changes no slot, but uses up a pid. */
  lemma FullTable(s: State, routine: u64, raw: Task, rsp: u64)
    requires |s.tasks| == MAX_TASKS && |LoadedSlots(s.tasks)| == MAX_TASKS
    ensures Step(s, Create(routine, raw, rsp)) == s.(pidCount := s.pidCount + 1)
  {
    var i := FirstFrom(s.tasks, NoInit, 0);
    if i < MAX_TASKS { RoomMeansFewer(s.tasks, i); }
  }
}
