/** The order in which timer ticks dispatch the slots of a task table. */
module RoundRobin {
  import opened Util
  import opened Scheduler
  import opened SchedulerRuns

  // ---------- dispatching loaded slots ----------

  /** The slot a tick leaves running. */
  function Dispatched(ts: seq<Task>, count: nat, regs: Registers): nat
    requires |ts| == MAX_TASKS
  {
    Pick(ts, count, regs).0
  }

  /**
   The dispatched slot was loaded exactly when slot 0 is, or when some slot below 63 was running
   among at least two loads: otherwise slot 0 is taken unchecked.
   */
  lemma DispatchesLoadedIff(ts: seq<Task>, count: nat, regs: Registers)
    requires |ts| == MAX_TASKS && count > 0
    ensures Loaded(ts[Dispatched(ts, count, regs)])
      <==> Loaded(ts[0]) || (count > 1 && FirstFrom(ts, Running, 0) < MAX_TASKS - 1)
  {
    TickShape(ts, count, regs);
    var i := FirstFrom(ts, Running, 0);
    if count > 1 && i < MAX_TASKS - 1 {
      var saved := Saved(ts, i, regs);
      assert saved[SlotAfter(saved, i)].status == Stopped;
    }
  }

  /** The failing case: one thread created, terminated by its start address, and a tick resumes the cleared slot. */
  lemma RevivesDeadSlot(s: State, raw: Task, regs: Registers)
    requires Initial(s)
    ensures var r := Run(s, [Create(0x1000, raw, 0x20000), Terminate(0x1000)]);
      && !Loaded(r.tasks[0])
      && Scheduled(r.tasks, r.taskCount, regs).1 == Some(ZERO_REGISTERS)
      && Step(r, Tick(regs)).tasks[0].status == Running
  {
    var events := [Create(0x1000, raw, 0x20000), Terminate(0x1000)];
    var s1 := Step(s, events[0]);
    var s2 := Step(s1, events[1]);
    assert events[1..] == [events[1]] && [events[1]][1..] == [];
    assert Run(s, events) == Run(s1, events[1..]) == s2;
    assert s1.tasks[0] == NewTask(raw, 0, 0x1000, 0x20000).(status := Stopped);
    assert s2.tasks[0] == Terminated(s1.tasks[0], 0x1000);
  }

  // ---------- cyclic order ----------

  /** `k` lies strictly between `i` and `j` going round the table. */
  predicate Between(i: nat, k: nat, j: nat) {
    if i < j then i < k < j else k > i || k < j
  }

  /** `j` is the loaded slot that comes next after `i`, going round. */
  ghost predicate IsNextLoaded(ts: seq<Task>, i: nat, j: nat) {
    && j < |ts| && Loaded(ts[j])
    && forall k :: 0 <= k < |ts| && Between(i, k, j) ==> !Loaded(ts[k])
  }

  /** A table that round robin works on: slot 0 loaded, one slot running, and a lone load in slot 0. */
  predicate Rotating(ts: seq<Task>, count: nat, i: nat) {
    && |ts| == MAX_TASKS && i < MAX_TASKS && Loaded(ts[0]) && ts[i].status == Running
    && (forall k :: 0 <= k < MAX_TASKS && k != i ==> ts[k].status != Running)
    && count >= 1 && (count == 1 ==> forall k :: 1 <= k < MAX_TASKS ==> !Loaded(ts[k]))
  }

  /** Every state of a run with slot 0 loaded and some slot running is such a table. */
  lemma ReachableRotates(s: State, events: seq<Event>, i: nat)
    requires Initial(s) && i < MAX_TASKS
    requires var r := Run(s, events); Loaded(r.tasks[0]) && r.tasks[i].status == Running
    ensures Rotating(Run(s, events).tasks, Run(s, events).taskCount, i)
  {
    var r := Run(s, events);
    var high := RunKeeps(s, events, 0);
    forall k | 0 <= k < MAX_TASKS && k != i
      ensures r.tasks[k].status != Running
    {
      assert r.tasks[Min(i, k)].status != Running || r.tasks[Max(i, k)].status != Running;
    }
  }

  /** Main step: a tick moves the running slot to the cyclically next loaded one and saves the one it stops. */
  lemma TickRotates(ts: seq<Task>, count: nat, i: nat, regs: Registers) returns (j: nat)
    requires Rotating(ts, count, i)
    ensures IsNextLoaded(ts, i, j)
    ensures var ts' := Scheduled(ts, count, regs).0;
      && Rotating(ts', count, j)
      && (forall k :: 0 <= k < MAX_TASKS ==> (Loaded(ts'[k]) <==> Loaded(ts[k])))
      && (forall k :: 0 <= k < MAX_TASKS && k != i ==> ts'[k].regs == ts[k].regs)
      && (count > 1 ==> ts'[i].regs == regs)
      && Scheduled(ts, count, regs).1 == if count > 1 then Some(ts'[j].regs) else None
  {
    j := Dispatched(ts, count, regs);
    assert FirstFrom(ts, Running, 0) == i;
    if count > 1 {
      var saved := Saved(ts, i, regs);
      if i < MAX_TASKS - 1 {
        assert j == SlotAfter(saved, i);
        assert forall k :: 0 <= k < MAX_TASKS ==> (Loaded(ts[k]) <==> saved[k].status == Stopped);
      }
    }
  }

  // ---------- fairness ----------

  /** The number of loaded slots below `i`. */
  function Rank(ts: seq<Task>, i: nat): (r: nat)
    requires i <= |ts|
    ensures r <= i
  {
    if i == 0 then 0 else Rank(ts, i - 1) + if Loaded(ts[i - 1]) then 1 else 0
  }

  lemma {:induction false} RankMonotone(ts: seq<Task>, i: nat, j: nat)
    requires i <= j <= |ts|
    ensures Rank(ts, i) <= Rank(ts, j)
    ensures i < j && Loaded(ts[i]) ==> Rank(ts, i) < Rank(ts, j)
  {
    if i < j { RankMonotone(ts, i, j - 1); }
  }

  lemma {:induction false} RankGap(ts: seq<Task>, i: nat, j: nat)
    requires i <= j <= |ts| && forall k :: i <= k < j ==> !Loaded(ts[k])
    ensures Rank(ts, i) == Rank(ts, j)
  {
    if i < j { RankGap(ts, i, j - 1); }
  }

  lemma {:induction false} RankSame(ts: seq<Task>, ts': seq<Task>, i: nat)
    requires i <= |ts| == |ts'| && forall k :: 0 <= k < |ts| ==> (Loaded(ts'[k]) <==> Loaded(ts[k]))
    ensures Rank(ts, i) == Rank(ts', i)
  {
    if i > 0 { RankSame(ts, ts', i - 1); }
  }

  /** Going to the next loaded slot adds one to the rank, round the number of loaded slots. */
  lemma RankAdvances(ts: seq<Task>, i: nat, j: nat)
    requires |ts| == MAX_TASKS && i < MAX_TASKS && Loaded(ts[i]) && Loaded(ts[0]) && IsNextLoaded(ts, i, j)
    ensures Rank(ts, MAX_TASKS) > 0 && Rank(ts, j) == (Rank(ts, i) + 1) % Rank(ts, MAX_TASKS)
  {
    var loaded := Rank(ts, MAX_TASKS);
    RankMonotone(ts, j, MAX_TASKS);
    assert Rank(ts, i + 1) == Rank(ts, i) + 1;
    if i < j {
      assert forall k :: i + 1 <= k < j ==> Between(i, k, j);
      RankGap(ts, i + 1, j);
      DivModUnique(Rank(ts, i) + 1, loaded, 0, Rank(ts, j));
    } else {
      WrapsToZero(ts, i, j);
      DivModUnique(Rank(ts, i) + 1, loaded, 1, 0);
    }
  }

  /** Past the last loaded slot the order starts again at slot 0. */
  lemma WrapsToZero(ts: seq<Task>, i: nat, j: nat)
    requires |ts| == MAX_TASKS && i < MAX_TASKS && Loaded(ts[i]) && Loaded(ts[0]) && IsNextLoaded(ts, i, j) && j <= i
    ensures j == 0 && Rank(ts, MAX_TASKS) == Rank(ts, i) + 1
  {
    assert !Between(i, 0, j);
    assert forall k :: i + 1 <= k < MAX_TASKS ==> Between(i, k, j);
    RankGap(ts, i + 1, MAX_TASKS);
  }

  /** The table after ticks that interrupt with the given registers. */
  function Ticks(ts: seq<Task>, count: nat, frames: seq<Registers>): (r: seq<Task>)
    requires |ts| == MAX_TASKS
    ensures |r| == MAX_TASKS
    decreases |frames|
  {
    if frames == [] then ts else Ticks(Scheduled(ts, count, frames[0]).0, count, frames[1..])
  }

  /** After n ticks the rank of the running slot has advanced by n, round the number of loaded slots. */
  lemma {:induction false} TicksRotate(ts: seq<Task>, count: nat, i: nat, frames: seq<Registers>) returns (j: nat)
    requires Rotating(ts, count, i)
    ensures Rotating(Ticks(ts, count, frames), count, j)
    ensures Rank(ts, MAX_TASKS) > 0 && Rank(ts, j) == (Rank(ts, i) + |frames|) % Rank(ts, MAX_TASKS)
    ensures forall k :: 0 <= k < MAX_TASKS ==> (Loaded(Ticks(ts, count, frames)[k]) <==> Loaded(ts[k]))
    decreases |frames|
  {
    var loaded := Rank(ts, MAX_TASKS);
    if frames == [] {
      j := i;
      RankMonotone(ts, i, MAX_TASKS);
      DivModUnique(Rank(ts, i), loaded, 0, Rank(ts, i));
    } else {
      var next := TickRotates(ts, count, i, frames[0]);
      RankAdvances(ts, i, next);
      var ts' := Scheduled(ts, count, frames[0]).0;
      j := TicksRotate(ts', count, next, frames[1..]);
      RankSame(ts, ts', next);
      RankSame(ts, ts', j);
      RankSame(ts, ts', MAX_TASKS);
      ModAdd(Rank(ts, i) + 1, |frames| - 1, loaded);
    }
  }

  lemma ModAdd(a: int, b: int, m: int)
    requires m > 0
    ensures (a % m + b) % m == (a + b) % m
  {
    var q, r := a / m, (a % m + b) % m;
    var p := (a % m + b) / m;
    assert a + b == (q + p) * m + r;
    DivModUnique(a + b, m, q + p, r);
  }

  predicate RunsAt(ts: seq<Task>, s: nat) { s < |ts| && ts[s].status == Running }

  lemma ModHits(a: nat, t: nat, m: nat) returns (n: nat)
    requires a < m && t < m
    ensures 1 <= n <= m && (a + n) % m == t
  {
    n := if a < t then t - a else t + m - a;
    DivModUnique(a + n, m, if a < t then 0 else 1, t);
  }

  lemma ModHitsOnce(a: nat, n: nat, n': nat, m: nat)
    requires a < m && 1 <= n <= m && 1 <= n' <= m && (a + n) % m == (a + n') % m
    ensures n == n'
  {
    DivModUnique(a + n, m, if a + n < m then 0 else 1, if a + n < m then a + n else a + n - m);
    DivModUnique(a + n', m, if a + n' < m then 0 else 1, if a + n' < m then a + n' else a + n' - m);
  }

  /**
   Main result: with L loaded slots, and nothing created or terminated, every loaded slot is the
   running one after exactly one of any L consecutive ticks.
   */
  lemma Fairness(ts: seq<Task>, count: nat, i: nat, frames: seq<Registers>, s: nat) returns (n: nat)
    requires Rotating(ts, count, i) && |frames| == Rank(ts, MAX_TASKS) && s < MAX_TASKS && Loaded(ts[s])
    ensures 1 <= n <= |frames| && RunsAt(Ticks(ts, count, frames[..n]), s)
    ensures forall n' :: 1 <= n' <= |frames| && RunsAt(Ticks(ts, count, frames[..n']), s) ==> n' == n
  {
    hide Ticks, Rank;
    RotatingRank(ts, count, i);
    RankMonotone(ts, s, MAX_TASKS);
    n := ModHits(Rank(ts, i), Rank(ts, s), Rank(ts, MAX_TASKS));
    RunsAfter(ts, count, i, frames[..n], s);
    forall n' | 1 <= n' <= |frames| && RunsAt(Ticks(ts, count, frames[..n']), s)
      ensures n' == n
    {
      RunsAfter(ts, count, i, frames[..n'], s);
      ModHitsOnce(Rank(ts, i), n, n', Rank(ts, MAX_TASKS));
    }
  }

  lemma RotatingRank(ts: seq<Task>, count: nat, i: nat)
    requires Rotating(ts, count, i)
    ensures Rank(ts, i) < Rank(ts, MAX_TASKS)
  {
    RankMonotone(ts, i, MAX_TASKS);
  }

  /** A loaded slot runs after n ticks exactly when its rank is n further on. */
  lemma RunsAfter(ts: seq<Task>, count: nat, i: nat, frames: seq<Registers>, s: nat)
    requires Rotating(ts, count, i) && s < MAX_TASKS && Loaded(ts[s])
    ensures Rank(ts, MAX_TASKS) > 0
    ensures RunsAt(Ticks(ts, count, frames), s) <==> (Rank(ts, i) + |frames|) % Rank(ts, MAX_TASKS) == Rank(ts, s)
  {
    var j := TicksRotate(ts, count, i, frames);
    if Rank(ts, j) == Rank(ts, s) { RankInjective(ts, j, s); }
  }

  lemma RankInjective(ts: seq<Task>, i: nat, j: nat)
    requires i < |ts| && j < |ts| && Loaded(ts[i]) && Loaded(ts[j]) && Rank(ts, i) == Rank(ts, j)
    ensures i == j
  {
    if i < j { RankMonotone(ts, i, j); } else if j < i { RankMonotone(ts, j, i); }
  }

  /** With nothing terminated the step is (i + 1) mod the number of tasks. */
  lemma PrefixRotates(s: State, i: nat, regs: Registers)
    requires Prefix(s) && Rotating(s.tasks, s.taskCount, i)
    ensures var j := (i + 1) % s.taskCount;
      RunsAt(Scheduled(s.tasks, s.taskCount, regs).0, j) && IsNextLoaded(s.tasks, i, j)
  {
    var j := TickRotates(s.tasks, s.taskCount, i, regs);
    var n := s.taskCount;
    if i + 1 < n {
      DivModUnique(i + 1, n, 0, i + 1);
      assert Loaded(s.tasks[i + 1]);
      assert !Between(i, i + 1, j);
    } else {
      DivModUnique(i + 1, n, 1, 0);
      assert !Between(i, 0, j);
    }
  }

  // ---------- waiting while threads come and go ----------

  /** How many slots further on round the table `t` is from `i`. */
  function Distance(i: nat, t: nat): (d: nat)
    requires i < MAX_TASKS && t < MAX_TASKS
    ensures d < MAX_TASKS && (d == 0 <==> i == t)
  {
    if i <= t then t - i else t + MAX_TASKS - i
  }

  /** A tick never passes a waiting slot by, whatever else is loaded: slot 0 may even be dead. */
  lemma TickNearer(s: State, high: nat, regs: Registers, i: nat, t: nat) returns (j: nat)
    requires InvAt(s, high) && i < MAX_TASKS && t < MAX_TASKS && i != t
    requires s.tasks[i].status == Running && Loaded(s.tasks[t])
    ensures j < MAX_TASKS && Distance(j, t) < Distance(i, t)
    ensures var s' := Step(s, Tick(regs)); s'.tasks[j].status == Running && Loaded(s'.tasks[t])
  {
    assert s.tasks[Min(i, t)].status != Running || s.tasks[Max(i, t)].status != Running;
    OnlyRunning(s.tasks, i);
    j := Dispatched(s.tasks, s.taskCount, regs);
    TickShape(s.tasks, s.taskCount, regs);
    if i < MAX_TASKS - 1 {
      var saved := Saved(s.tasks, i, regs);
      assert j == SlotAfter(saved, i) && saved[t].status == Stopped;
    }
  }

  lemma OnlyRunning(ts: seq<Task>, i: nat)
    requires AtMostOneRunning(ts) && i < |ts| && ts[i].status == Running
    ensures FirstFrom(ts, Running, 0) == i
    ensures forall k :: 0 <= k < |ts| && k != i ==> ts[k].status != Running
  {
    forall k | 0 <= k < |ts| && k != i
      ensures ts[k].status != Running
    {
      assert ts[Min(i, k)].status != Running || ts[Max(i, k)].status != Running;
    }
  }

  /** No termination matches a slot that is running, or slot `t`, at that moment. */
  predicate Spares(s: State, events: seq<Event>, t: nat)
    requires |s.tasks| == MAX_TASKS && t < MAX_TASKS
    decreases |events|
  {
    events == []
    || ((events[0].Terminate? ==>
           forall k :: 0 <= k < MAX_TASKS && (s.tasks[k].status == Running || k == t) ==>
             s.tasks[k].regs.rip != events[0].routine)
        && Spares(Step(s, events[0]), events[1..], t))
  }

  function TickCount(events: seq<Event>): (n: nat)
    ensures n <= |events|
  {
    if events == [] then 0 else TickCount(events[1..]) + if events[0].Tick? then 1 else 0
  }

  /** Creates and such terminations leave the running slot and a loaded one as they are. */
  lemma OtherEvent(s: State, high: nat, e: Event, i: nat, t: nat) returns (high': nat)
    requires InvAt(s, high) && !e.Tick? && i < MAX_TASKS && t < MAX_TASKS
    requires s.tasks[i].status == Running && Loaded(s.tasks[t]) && Spares(s, [e], t)
    ensures var s' := Step(s, e);
      InvAt(s', high') && s'.tasks[i].status == Running && Loaded(s'.tasks[t])
  {
    if e.Create? {
      high' := CreateKeeps(s, e, high);
    } else {
      high' := high;
      TerminateKeeps(s, e, high);
    }
  }

  lemma {:induction false} Reaches(s: State, high: nat, events: seq<Event>, i: nat, t: nat) returns (n: nat)
    requires InvAt(s, high) && i < MAX_TASKS && t < MAX_TASKS
    requires s.tasks[i].status == Running && Loaded(s.tasks[t])
    requires Spares(s, events, t) && TickCount(events) >= Distance(i, t)
    ensures n <= |events| && TickCount(events[..n]) <= Distance(i, t) && RunsAt(Run(s, events[..n]).tasks, t)
    decreases |events|
  {
    n := 0;
    if i != t {
      var e, s', rest := events[0], Step(s, events[0]), events[1..];
      var j, high' := i, high;
      if e.Tick? {
        j := TickNearer(s, high, e.regs, i, t);
        TickKeeps(s, e, high);
      } else {
        assert [e][1..] == [];
        high' := OtherEvent(s, high, e, i, t);
      }
      hide Step, InvAt, Distance;
      n := Reaches(s', high', rest, j, t);
      n := n + 1;
      assert events[..n][0] == e && events[..n][1..] == rest[..n - 1];
    }
  }

  /**
   Main result: in any run since boot, a loaded slot is the running one within 63 ticks, whatever is created
   and terminated meanwhile, as long as no termination hits it or a running slot.
   */
  lemma WaitsAtMost(s: State, before: seq<Event>, after: seq<Event>, i: nat, t: nat) returns (n: nat)
    requires Initial(s) && i < MAX_TASKS && t < MAX_TASKS
    requires var m := Run(s, before);
      m.tasks[i].status == Running && Loaded(m.tasks[t]) && Spares(m, after, t)
    requires TickCount(after) >= MAX_TASKS - 1
    ensures n <= |after| && TickCount(after[..n]) <= MAX_TASKS - 1
    ensures RunsAt(Run(Run(s, before), after[..n]).tasks, t)
  {
    var high := RunKeeps(s, before, 0);
    n := Reaches(Run(s, before), high, after, i, t);
  }

  // ---------- starvation ----------

  /** A tick to slot 1, the termination of what runs there, a create, and a tick back to slot 0. */
  function Round(routine: u64, raw: Task, rsp: u64, frame: Registers): seq<Event> {
    [Tick(frame), Terminate(routine), Create(routine, raw, rsp), Tick(frame)]
  }

  function Rounds(n: nat, routine: u64, raw: Task, rsp: u64, frame: Registers): (es: seq<Event>)
    ensures |es| == 4 * n
  {
    if n == 0 then [] else Round(routine, raw, rsp, frame) + Rounds(n - 1, routine, raw, rsp, frame)
  }

  /** Slot 0 is running, slot 1 waits with a start address of its own, and so does slot 2. */
  predicate Starving(s: State, routine: u64) {
    && |s.tasks| == MAX_TASKS && s.taskCount > 1 && AtMostOneRunning(s.tasks) && s.tasks[0].status == Running
    && s.tasks[1].status == Stopped && s.tasks[1].regs.rip == routine
    && s.tasks[2].status == Stopped && s.tasks[2].regs.rip != routine
  }

  /** A slot waits at every moment of a run. */
  predicate Waits(s: State, events: seq<Event>, t: nat)
    requires |s.tasks| == MAX_TASKS && t < MAX_TASKS
    decreases |events|
  {
    s.tasks[t].status == Stopped && (events == [] || Waits(Step(s, events[0]), events[1..], t))
  }

  lemma TickToOne(s: State, routine: u64, frame: Registers)
    requires Starving(s, routine)
    ensures var s' := Step(s, Tick(frame));
      && s'.taskCount == s.taskCount && AtMostOneRunning(s'.tasks) && s'.tasks[1].status == Running
      && s'.tasks[0] == s.tasks[0].(status := Stopped, regs := frame)
      && s'.tasks[1].regs == s.tasks[1].regs && s'.tasks[2] == s.tasks[2]
  {
    OnlyRunning(s.tasks, 0);
    assert SlotAfter(Saved(s.tasks, 0, frame), 0) == 1;
  }

  lemma KillAndCreate(s: State, routine: u64, raw: Task, rsp: u64)
    requires |s.tasks| == MAX_TASKS && AtMostOneRunning(s.tasks) && s.tasks[1].status == Running
    requires s.tasks[0].status == Stopped && s.tasks[2].status == Stopped && s.tasks[1].regs.rip == routine
    requires s.tasks[0].regs.rip != routine && s.tasks[2].regs.rip != routine
    ensures var killed := Step(s, Terminate(routine));
      var s' := Step(killed, Create(routine, raw, rsp));
      && |killed.tasks| == MAX_TASKS && killed.tasks[2] == s.tasks[2]
      && s'.taskCount == s.taskCount + 1 && s'.tasks[0] == s.tasks[0] && s'.tasks[2] == s.tasks[2]
      && s'.tasks[1].status == Stopped && s'.tasks[1].regs.rip == routine
      && forall k :: 0 <= k < MAX_TASKS ==> s'.tasks[k].status != Running
  {
    OnlyRunning(s.tasks, 1);
    var killed := Step(s, Terminate(routine));
    assert FirstFrom(killed.tasks, NoInit, 0) == 1;
  }

  lemma TickToZero(s: State, routine: u64, frame: Registers)
    requires |s.tasks| == MAX_TASKS && s.taskCount > 1 && s.tasks[0].status == Stopped
    requires s.tasks[1].status == Stopped && s.tasks[1].regs.rip == routine
    requires s.tasks[2].status == Stopped && s.tasks[2].regs.rip != routine
    requires forall k :: 0 <= k < MAX_TASKS ==> s.tasks[k].status != Running
    ensures Starving(Step(s, Tick(frame)), routine)
  {}

  lemma WaitsCons(s: State, e: Event, events: seq<Event>, t: nat)
    requires |s.tasks| == MAX_TASKS && t < MAX_TASKS && s.tasks[t].status == Stopped && Waits(Step(s, e), events, t)
    ensures Waits(s, [e] + events, t)
  {
    assert ([e] + events)[1..] == events;
  }

  /**
   Main result: the running slot must be spared. With slots 0, 1 and 2 loaded, terminating the thread in
   slot 1 whenever it runs sends every other tick back to slot 0, and slot 2 waits for ever.
   */
  lemma {:induction false} Starves(s: State, n: nat, routine: u64, raw: Task, rsp: u64, frame: Registers)
    requires Starving(s, routine) && frame.rip != routine
    ensures Waits(s, Rounds(n, routine, raw, rsp, frame), 2)
    ensures TickCount(Rounds(n, routine, raw, rsp, frame)) == 2 * n
    decreases n
  {
    if n > 0 {
      var s1 := Step(s, Tick(frame));
      TickToOne(s, routine, frame);
      var s2 := Step(s1, Terminate(routine));
      var s3 := Step(s2, Create(routine, raw, rsp));
      KillAndCreate(s1, routine, raw, rsp);
      var s4 := Step(s3, Tick(frame));
      TickToZero(s3, routine, frame);
      var rest := Rounds(n - 1, routine, raw, rsp, frame);
      Starves(s4, n - 1, routine, raw, rsp, frame);
      hide Step, Waits, Starving, AtMostOneRunning;
      WaitsCons(s3, Tick(frame), rest, 2);
      WaitsCons(s2, Create(routine, raw, rsp), [Tick(frame)] + rest, 2);
      WaitsCons(s1, Terminate(routine), [Create(routine, raw, rsp)] + ([Tick(frame)] + rest), 2);
      var tail := [Terminate(routine)] + ([Create(routine, raw, rsp)] + ([Tick(frame)] + rest));
      WaitsCons(s, Tick(frame), tail, 2);
      assert Rounds(n, routine, raw, rsp, frame) == [Tick(frame)] + tail;
      RoundTicks(routine, raw, rsp, frame, rest);
    }
  }

  lemma RoundTicks(routine: u64, raw: Task, rsp: u64, frame: Registers, rest: seq<Event>)
    ensures TickCount(Round(routine, raw, rsp, frame) + rest) == 2 + TickCount(rest)
  {
    var es := Round(routine, raw, rsp, frame) + rest;
    assert es[0].Tick? && es[1].Terminate? && es[2].Create? && es[3].Tick?;
    assert es[1..][1..] == es[2..] && es[2..][1..] == es[3..] && es[3..][1..] == rest;
    assert TickCount(es) == TickCount(es[1..]) + 1 && TickCount(es[1..]) == TickCount(es[2..]);
    assert TickCount(es[2..]) == TickCount(es[3..]) == TickCount(rest) + 1;
  }

  /** Such a state comes up: three creates and a tick. */
  lemma StarvingReached(s: State, raw: Task, frame: Registers)
    requires Initial(s)
    ensures var events := [Create(0x1000, raw, 0), Create(0x2000, raw, 0), Create(0x3000, raw, 0), Tick(frame)];
      Starving(Run(s, events), 0x2000)
  {
    var events := [Create(0x1000, raw, 0), Create(0x2000, raw, 0), Create(0x3000, raw, 0), Tick(frame)];
    var s1 := Step(s, events[0]);
    assert FirstFrom(s.tasks, NoInit, 0) == 0;
    var s2 := Step(s1, events[1]);
    assert FirstFrom(s1.tasks, NoInit, 0) == 1;
    assert s2.tasks[0].status == s2.tasks[1].status == Stopped && s2.tasks[2].status == NoInit;
    var s3 := Step(s2, events[2]);
    assert FirstFrom(s2.tasks, NoInit, 0) == 2;
    var s4 := Step(s3, events[3]);
    assert Starving(s4, 0x2000);
    RunCons(s, events);
    RunCons(s1, events[1..]);
    RunCons(s2, events[2..]);
    RunCons(s3, events[3..]);
    assert events[1..][1..] == events[2..] && events[2..][1..] == events[3..] && events[3..][1..] == [];
  }

  lemma RunCons(s: State, events: seq<Event>)
    requires |s.tasks| == MAX_TASKS && events != []
    ensures Run(s, events) == Run(Step(s, events[0]), events[1..])
  {}
}
