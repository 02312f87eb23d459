/** Loads into the table of tasks, and terminations, that interrupt one another: both run with interrupts enabled. */
module ConcurrentLoads {
  import opened Util
  import opened Scheduler
  import R = SchedulerRuns

  type Slot = n: int | 0 <= n < MAX_TASKS

  /** Where a call of `PsLoadTask` is: what it has done to the slot it found free. */
  datatype Progress =
    | Scanning(i: nat)
    | Claimed(slot: Slot)
    | Copied(slot: Slot)
    | Marked(slot: Slot)
    | Done(slot: Slot)
    | Full

  /** `cleared` says that a termination found this call's record in the slot. */
  datatype Loader = Loader(task: Task, at: Progress, cleared: bool)

  datatype World = World(tasks: seq<Task>, taskCount: nat, loaders: seq<Loader>)

  /** A call goes one step further, a timer tick moves the processor on, or `PspTerminateThread` visits a slot. */
  datatype Event = Go(l: nat) | Tick(regs: Registers) | Clear(slot: Slot, routine: u64)

  predicate Shaped(w: World) { |w.tasks| == MAX_TASKS }

  function SlotOf(p: Progress): Option<Slot> {
    match p
    case Claimed(i) => Some(i)
    case Copied(i) => Some(i)
    case Marked(i) => Some(i)
    case Done(i) => Some(i)
    case _ => None
  }

  function Moved(w: World, l: nat, at: Progress): World
    requires l < |w.loaders|
  {
    w.(loaders := w.loaders[l := w.loaders[l].(at := at)])
  }

  function Next(w: World, l: nat): World
    requires Shaped(w) && l < |w.loaders|
  {
    match w.loaders[l].at
    case Scanning(i) =>
      if i >= MAX_TASKS then Moved(w, l, Full)
      else if w.tasks[i].status == NoInit then Moved(w, l, Claimed(i))
      else Moved(w, l, Scanning(i + 1))
    case Claimed(i) => Moved(w.(tasks := w.tasks[i := w.loaders[l].task]), l, Copied(i))
    case Copied(i) => Moved(w.(tasks := w.tasks[i := w.tasks[i].(status := Stopped)]), l, Marked(i))
    case Marked(i) => Moved(w.(taskCount := w.taskCount + 1), l, Done(i))
    case Done(_) => w
    case Full => w
  }

  /** The call has copied its record to the slot. */
  predicate Written(p: Progress, slot: int) {
    match p
    case Copied(i) => i == slot
    case Marked(i) => i == slot
    case Done(i) => i == slot
    case _ => false
  }

  /** The termination is told of by the call whose record it finds. */
  function Told(p: Loader, slot: Slot, pid: int): Loader {
    if Written(p.at, slot) && p.task.pid == pid then p.(cleared := true) else p
  }

  function Visited(w: World, slot: Slot, routine: u64): World
    requires Shaped(w)
  {
    if w.tasks[slot].regs.rip != routine then w
    else
      w.(tasks := w.tasks[slot := Terminated(w.tasks[slot], routine)],
         loaders := seq(|w.loaders|, k requires 0 <= k < |w.loaders| => Told(w.loaders[k], slot, w.tasks[slot].pid)))
  }

  function Step(w: World, e: Event): (r: World)
    requires Shaped(w)
    ensures Shaped(r) && |r.loaders| == |w.loaders|
  {
    match e
    case Go(l) => if l < |w.loaders| then Next(w, l) else w
    case Tick(regs) => w.(tasks := Scheduled(w.tasks, w.taskCount, regs).0)
    case Clear(slot, routine) => Visited(w, slot, routine)
  }

  function Run(w: World, events: seq<Event>): (r: World)
    requires Shaped(w)
    ensures Shaped(r) && |r.loaders| == |w.loaders|
    decreases |events|
  {
    if events == [] then w else Run(Step(w, events[0]), events[1..])
  }

  // ---------- taking a slot ----------

  /** No two calls have the same slot. */
  predicate Apart(w: World) {
    forall a, b :: 0 <= a < b < |w.loaders| ==>
      SlotOf(w.loaders[a].at).Some? ==> SlotOf(w.loaders[a].at) != SlotOf(w.loaders[b].at)
  }

  predicate Takes(w: World, l: nat, slot: nat) {
    l < |w.loaders| && SlotOf(w.loaders[l].at) == Some(slot)
  }

  /** A call finds a slot free that another call has found free before. */
  predicate DoubleClaim(w: World, e: Event)
    requires Shaped(w)
  {
    && e.Go? && e.l < |w.loaders| && w.loaders[e.l].at.Scanning? && w.loaders[e.l].at.i < MAX_TASKS
    && w.tasks[w.loaders[e.l].at.i].status == NoInit
    && exists m :: 0 <= m < |w.loaders| && Takes(w, m, w.loaders[e.l].at.i)
  }

  predicate NoDoubleClaim(w: World, events: seq<Event>)
    requires Shaped(w)
    decreases |events|
  {
    events == [] || (!DoubleClaim(w, events[0]) && NoDoubleClaim(Step(w, events[0]), events[1..]))
  }

  /** A call never leaves the slot it found, and only a claim gives it one. */
  lemma SlotStep(w: World, e: Event, l: nat)
    requires Shaped(w) && l < |w.loaders|
    ensures var p, p' := SlotOf(w.loaders[l].at), SlotOf(Step(w, e).loaders[l].at);
      && (p.Some? ==> p' == p)
      && (p.None? && p'.Some? ==>
            e == Go(l) && w.loaders[l].at == Scanning(p'.value) && w.tasks[p'.value].status == NoInit)
    ensures Step(w, e).loaders[l].task == w.loaders[l].task
  {}

  lemma ApartPair(w: World, a: nat, b: nat)
    requires Apart(w) && a < |w.loaders| && b < |w.loaders| && a != b
    ensures SlotOf(w.loaders[a].at).Some? ==> SlotOf(w.loaders[a].at) != SlotOf(w.loaders[b].at)
  {
    if b < a { assert SlotOf(w.loaders[b].at).Some? ==> SlotOf(w.loaders[b].at) != SlotOf(w.loaders[a].at); }
  }

  lemma ApartStep(w: World, e: Event)
    requires Shaped(w) && Apart(w) && !DoubleClaim(w, e)
    ensures Apart(Step(w, e))
  {
    var w' := Step(w, e);
    forall a, b | 0 <= a < b < |w'.loaders| && SlotOf(w'.loaders[a].at).Some?
      ensures SlotOf(w'.loaders[a].at) != SlotOf(w'.loaders[b].at)
    {
      SlotStep(w, e, a);
      SlotStep(w, e, b);
      hide Step;
      ApartPair(w, a, b);
      if SlotOf(w.loaders[a].at).None? {
        assert !Takes(w, b, SlotOf(w'.loaders[a].at).value);
      } else if SlotOf(w.loaders[b].at).None? && SlotOf(w'.loaders[b].at).Some? {
        assert !Takes(w, a, SlotOf(w'.loaders[b].at).value);
      }
    }
  }

  lemma SharedStep(w: World, e: Event)
    requires Shaped(w) && (!Apart(w) || DoubleClaim(w, e))
    ensures !Apart(Step(w, e))
  {
    var w' := Step(w, e);
    if !Apart(w) {
      var a, b :| 0 <= a < b < |w.loaders| && SlotOf(w.loaders[a].at).Some?
                  && SlotOf(w.loaders[a].at) == SlotOf(w.loaders[b].at);
      SlotStep(w, e, a);
      SlotStep(w, e, b);
    } else {
      var m :| 0 <= m < |w.loaders| && Takes(w, m, w.loaders[e.l].at.i);
      SlotStep(w, e, m);
      var (a, b) := (Min(m, e.l), Max(m, e.l));
      assert SlotOf(w'.loaders[a].at) == SlotOf(w'.loaders[b].at);
    }
  }

  /** Two calls have the same slot in the end exactly when one found it free after the other did. */
  lemma {:induction false} ApartIff(w: World, events: seq<Event>)
    requires Shaped(w)
    ensures Apart(Run(w, events)) <==> Apart(w) && NoDoubleClaim(w, events)
    decreases |events|
  {
    if events != [] {
      ApartIff(Step(w, events[0]), events[1..]);
      if Apart(w) && !DoubleClaim(w, events[0]) {
        ApartStep(w, events[0]);
      } else {
        SharedStep(w, events[0]);
      }
    }
  }

  // ---------- keeping a slot ----------

  predicate DistinctPids(w: World) {
    forall a, b :: 0 <= a < b < |w.loaders| ==> w.loaders[a].task.pid != w.loaders[b].task.pid
  }

  lemma {:induction false} PidsKept(w: World, events: seq<Event>)
    requires Shaped(w) && DistinctPids(w)
    ensures DistinctPids(Run(w, events))
    decreases |events|
  {
    if events != [] {
      var w' := Step(w, events[0]);
      forall l | 0 <= l < |w.loaders|
        ensures w'.loaders[l].task == w.loaders[l].task
      {
        SlotStep(w, events[0], l);
      }
      PidsKept(w', events[1..]);
    }
  }

  /**
   The table is right about a load: once copied, its record stands in its slot, marked loaded by the end;
   unless it was terminated, and then it does not stand there as loaded.
   */
  predicate Right(w: World, p: Loader)
    requires Shaped(w)
  {
    match p.at
    case Copied(i) => if p.cleared then !Stands(w, p, i) else w.tasks[i].pid == p.task.pid
    case Marked(i) => p.cleared != Stands(w, p, i)
    case Done(i) => p.cleared != Stands(w, p, i)
    case _ => !p.cleared
  }

  predicate Stands(w: World, p: Loader, i: Slot)
    requires Shaped(w)
  {
    w.tasks[i].pid == p.task.pid && Loaded(w.tasks[i])
  }

  predicate AllRight(w: World)
    requires Shaped(w)
  {
    forall l :: 0 <= l < |w.loaders| ==> Right(w, w.loaders[l])
  }

  /** A terminated record lies in a slot. */
  predicate Buried(w: World, m: nat, slot: Slot)
    requires Shaped(w)
  {
    && m < |w.loaders| && w.loaders[m].cleared && Written(w.loaders[m].at, slot)
    && w.tasks[slot].pid == w.loaders[m].task.pid
  }

  /** A load copies its record over one that was not terminated. */
  predicate Overwrites(w: World, e: Event)
    requires Shaped(w)
  {
    && e.Go? && e.l < |w.loaders| && w.loaders[e.l].at.Claimed?
    && exists m :: 0 <= m < |w.loaders| && !w.loaders[m].cleared && Written(w.loaders[m].at, w.loaders[e.l].at.slot)
  }

  /** A load stores the status of a slot whose record was terminated after it was copied. */
  predicate Undoes(w: World, e: Event)
    requires Shaped(w)
  {
    && e.Go? && e.l < |w.loaders| && w.loaders[e.l].at.Copied?
    && exists m :: 0 <= m < |w.loaders| && Buried(w, m, w.loaders[e.l].at.slot)
  }

  /** A tick takes slot 0 unchecked and finds a terminated record there. */
  predicate Revives(w: World, e: Event)
    requires Shaped(w)
  {
    && e.Tick? && w.taskCount > 0 && Pick(w.tasks, w.taskCount, e.regs).0 == 0
    && exists m :: 0 <= m < |w.loaders| && Buried(w, m, 0)
  }

  predicate Races(w: World, e: Event)
    requires Shaped(w)
  {
    Overwrites(w, e) || Undoes(w, e) || Revives(w, e)
  }

  predicate NoRace(w: World, events: seq<Event>)
    requires Shaped(w)
    decreases |events|
  {
    events == [] || (!Races(w, events[0]) && NoRace(Step(w, events[0]), events[1..]))
  }

  /** The table is right about every load at every moment of a run. */
  predicate AlwaysRight(w: World, events: seq<Event>)
    requires Shaped(w)
    decreases |events|
  {
    AllRight(w) && (events == [] || AlwaysRight(Step(w, events[0]), events[1..]))
  }

  lemma ClearRight(w: World, e: Event)
    requires Shaped(w) && AllRight(w) && e.Clear?
    ensures AllRight(Step(w, e))
  {
    var w' := Step(w, e);
    forall l | 0 <= l < |w'.loaders|
      ensures Right(w', w'.loaders[l])
    {
      assert Right(w, w.loaders[l]);
    }
  }

  lemma TickRightIff(w: World, regs: Registers)
    requires Shaped(w) && AllRight(w)
    ensures AllRight(Step(w, Tick(regs))) <==> !Revives(w, Tick(regs))
  {
    var w' := Step(w, Tick(regs));
    if w.taskCount > 0 { R.TickShape(w.tasks, w.taskCount, regs); }
    hide Scheduled;
    if Revives(w, Tick(regs)) {
      var m :| 0 <= m < |w.loaders| && Buried(w, m, 0);
      assert !Right(w', w'.loaders[m]);
    } else {
      forall l | 0 <= l < |w'.loaders|
        ensures Right(w', w'.loaders[l])
      {
        assert Right(w, w.loaders[l]);
        assert Pick(w.tasks, w.taskCount, regs).0 != 0 || w.taskCount == 0 || !Buried(w, l, 0);
      }
    }
  }

  lemma GoRaces(w: World, l: nat)
    requires Shaped(w) && AllRight(w) && DistinctPids(w) && l < |w.loaders| && Races(w, Go(l))
    ensures !AllRight(Step(w, Go(l)))
  {
    var w' := Next(w, l);
    if Overwrites(w, Go(l)) {
      var m :| 0 <= m < |w.loaders| && !w.loaders[m].cleared && Written(w.loaders[m].at, w.loaders[l].at.slot);
      PidsDiffer(w, l, m);
      assert !Right(w', w'.loaders[m]);
    } else {
      var m :| 0 <= m < |w.loaders| && Buried(w, m, w.loaders[l].at.slot);
      assert !Right(w', w'.loaders[m]);
    }
  }

  lemma PidsDiffer(w: World, a: nat, b: nat)
    requires DistinctPids(w) && a < |w.loaders| && b < |w.loaders| && a != b
    ensures w.loaders[a].task.pid != w.loaders[b].task.pid
  {
    if a < b { assert w.loaders[a].task.pid != w.loaders[b].task.pid; }
  }

  lemma GoRight(w: World, l: nat, m: nat)
    requires Shaped(w) && AllRight(w) && DistinctPids(w) && l < |w.loaders| && !Races(w, Go(l)) && m < |w.loaders|
    ensures Right(Next(w, l), Next(w, l).loaders[m])
  {
    assert Right(w, w.loaders[m]) && Right(w, w.loaders[l]);
    if m != l { PidsDiffer(w, l, m); }
    var at := w.loaders[l].at;
    if at.Claimed? {
      assert !(!w.loaders[m].cleared && Written(w.loaders[m].at, at.slot));
    } else if at.Copied? {
      assert !Buried(w, m, at.slot);
    }
  }

  lemma GoRightIff(w: World, l: nat)
    requires Shaped(w) && AllRight(w) && DistinctPids(w) && l < |w.loaders|
    ensures AllRight(Step(w, Go(l))) <==> !Races(w, Go(l))
  {
    if Races(w, Go(l)) {
      GoRaces(w, l);
    } else {
      forall m | 0 <= m < |w.loaders|
        ensures Right(Next(w, l), Next(w, l).loaders[m])
      {
        GoRight(w, l, m);
      }
    }
  }

  lemma PidsKeptStep(w: World, e: Event)
    requires Shaped(w) && DistinctPids(w)
    ensures DistinctPids(Step(w, e))
  {
    assert Step(w, e) == Run(w, [e]) by { assert [e][1..] == []; }
    PidsKept(w, [e]);
  }

  /**
   Main result with terminations among the steps: the table is right about every load at every moment if and
   only if no load overwrites a record that was not terminated, no load marks a record that was, and no tick
   revives one in slot 0.
   */
  lemma {:induction false} AlwaysRightIff(w: World, events: seq<Event>)
    requires Shaped(w) && AllRight(w) && DistinctPids(w)
    ensures AlwaysRight(w, events) <==> NoRace(w, events)
    decreases |events|
  {
    if events != [] {
      match events[0] {
        case Go(l) => if l < |w.loaders| { GoRightIff(w, l); }
        case Tick(regs) => TickRightIff(w, regs);
        case Clear(_, _) => ClearRight(w, events[0]);
      }
      PidsKeptStep(w, events[0]);
      if AllRight(Step(w, events[0])) { AlwaysRightIff(Step(w, events[0]), events[1..]); }
    }
  }

  /**
   A slot is found free twice only between the other call's test of it and its store of the status, or
   after the other call's record was terminated.
   */
  lemma OnlyInWindow(w: World, e: Event) returns (m: nat)
    requires Shaped(w) && AllRight(w) && DoubleClaim(w, e)
    ensures m < |w.loaders| && w.loaders[e.l].at.i < MAX_TASKS
    ensures var slot := w.loaders[e.l].at.i;
      w.loaders[m].at == Claimed(slot) || w.loaders[m].at == Copied(slot) || w.loaders[m].cleared
  {
    m :| 0 <= m < |w.loaders| && Takes(w, m, w.loaders[e.l].at.i);
    assert Right(w, w.loaders[m]);
  }

  // ---------- whole runs ----------

  /** Calls that are about to start, each with a task of its own. */
  predicate Start(w: World) {
    && Shaped(w)
    && (forall l :: 0 <= l < |w.loaders| ==> w.loaders[l].at == Scanning(0) && !w.loaders[l].cleared)
    && DistinctPids(w)
  }

  predicate Finished(w: World) {
    forall l :: 0 <= l < |w.loaders| ==> w.loaders[l].at.Done? || w.loaders[l].at.Full?
  }

  predicate NoTerminations(events: seq<Event>) { forall k :: 0 <= k < |events| ==> !events[k].Clear? }

  predicate NoneCleared(w: World) { forall l :: 0 <= l < |w.loaders| ==> !w.loaders[l].cleared }

  lemma StartRight(w: World)
    requires Start(w)
    ensures AllRight(w) && Apart(w) && NoneCleared(w)
  {}

  lemma ApartNoRace(w: World, e: Event)
    requires Shaped(w) && Apart(w) && NoneCleared(w) && !e.Clear?
    ensures !Races(w, e) && NoneCleared(Step(w, e))
  {
    if Overwrites(w, e) {
      var m :| 0 <= m < |w.loaders| && !w.loaders[m].cleared && Written(w.loaders[m].at, w.loaders[e.l].at.slot);
      ApartPair(w, m, e.l);
      assert false;
    }
  }

  /** With nothing terminated, calls that keep their slots apart never race. */
  lemma {:induction false} NeverRaces(w: World, events: seq<Event>)
    requires Shaped(w) && Apart(w) && NoneCleared(w) && NoTerminations(events) && NoDoubleClaim(w, events)
    ensures NoRace(w, events)
    decreases |events|
  {
    if events != [] {
      ApartNoRace(w, events[0]);
      ApartStep(w, events[0]);
      NeverRaces(Step(w, events[0]), events[1..]);
    }
  }

  lemma {:induction false} ClearedNever(w: World, events: seq<Event>)
    requires Shaped(w) && NoneCleared(w) && NoTerminations(events)
    ensures NoneCleared(Run(w, events))
    decreases |events|
  {
    if events != [] { ClearedNever(Step(w, events[0]), events[1..]); }
  }

  lemma {:induction false} RightAtEnd(w: World, events: seq<Event>)
    requires Shaped(w) && AlwaysRight(w, events)
    ensures AllRight(Run(w, events))
    decreases |events|
  {
    if events != [] { RightAtEnd(Step(w, events[0]), events[1..]); }
  }

  lemma SharedLoses(w: World)
    requires Shaped(w) && Finished(w) && DistinctPids(w) && NoneCleared(w) && !Apart(w)
    ensures !AllRight(w)
  {
    var a, b :| 0 <= a < b < |w.loaders| && SlotOf(w.loaders[a].at).Some?
                && SlotOf(w.loaders[a].at) == SlotOf(w.loaders[b].at);
    assert !(Right(w, w.loaders[a]) && Right(w, w.loaders[b]));
  }

  /**
   Main result: whatever order the steps of any loads and the ticks come in, and with nothing terminated,
   every load that found a slot ends with its task in the table if and only if no slot is found free twice.
   */
  lemma AllLoadedIff(w: World, events: seq<Event>)
    requires Start(w) && NoTerminations(events) && Finished(Run(w, events))
    ensures AllRight(Run(w, events)) <==> NoDoubleClaim(w, events)
    ensures NoneCleared(Run(w, events))
  {
    StartRight(w);
    ApartIff(w, events);
    ClearedNever(w, events);
    if NoDoubleClaim(w, events) {
      NeverRaces(w, events);
      AlwaysRightIff(w, events);
      RightAtEnd(w, events);
    } else {
      PidsKept(w, events);
      SharedLoses(Run(w, events));
    }
  }

  // ---------- terminations alone, and undone ----------

  /** The visits of one call of `PspTerminateThread`. */
  function Visits(from: nat, routine: u64): seq<Event>
    requires from <= MAX_TASKS
    decreases MAX_TASKS - from
  {
    if from == MAX_TASKS then [] else [Clear(from, routine)] + Visits(from + 1, routine)
  }

  /** Left alone they are the atomic termination. */
  lemma {:induction false} VisitsTerminate(w: World, from: nat, routine: u64)
    requires Shaped(w) && from <= MAX_TASKS
    ensures Run(w, Visits(from, routine)).tasks == w.tasks[..from] + WithoutThread(w.tasks, routine)[from..]
    decreases MAX_TASKS - from
  {
    if from < MAX_TASKS {
      var w' := Step(w, Clear(from, routine));
      assert Visits(from, routine)[1..] == Visits(from + 1, routine);
      assert w'.tasks == w.tasks[from := Terminated(w.tasks[from], routine)];
      VisitsTerminate(w', from + 1, routine);
      assert WithoutThread(w'.tasks, routine)[from + 1..] == WithoutThread(w.tasks, routine)[from + 1..];
      assert w'.tasks[..from + 1] == w.tasks[..from] + [Terminated(w.tasks[from], routine)];
    } else {
      assert w.tasks[..from] == w.tasks && WithoutThread(w.tasks, routine)[from..] == [];
    }
  }

  /**
   The failing case: a record terminated between its copy and the store of its status ends up loaded, with
   its registers gone.
   */
  lemma TerminationUndone(w: World, routine: u64)
    requires Start(w) && |w.loaders| == 1 && w.tasks[0].status == NoInit && w.loaders[0].task.regs.rip == routine
    ensures var r := Run(w, [Go(0), Go(0), Clear(0, routine), Go(0)]);
      r.loaders[0].cleared && Stands(r, r.loaders[0], 0) && r.tasks[0].regs == ZERO_REGISTERS
  {
    var es := [Go(0), Go(0), Clear(0, routine), Go(0)];
    var w1 := Step(w, es[0]);
    var w2 := Step(w1, es[1]);
    var w3 := Step(w2, es[2]);
    assert w3.loaders[0].cleared && w3.loaders[0].at == Copied(0);
    var w4 := Step(w3, es[3]);
    RunCons(w, es);
    RunCons(w1, es[1..]);
    RunCons(w2, es[2..]);
    RunCons(w3, es[3..]);
    assert es[1..][1..] == es[2..] && es[2..][1..] == es[3..] && es[3..][1..] == [];
  }

  // ---------- the count ----------

  function Dones(loaders: seq<Loader>): nat {
    if loaders == [] then 0
    else Dones(loaders[..|loaders| - 1]) + if loaders[|loaders| - 1].at.Done? then 1 else 0
  }

  lemma {:induction false} DonesUpdate(loaders: seq<Loader>, l: nat, p: Loader)
    requires l < |loaders|
    ensures Dones(loaders[l := p])
      == Dones(loaders) - (if loaders[l].at.Done? then 1 else 0) + if p.at.Done? then 1 else 0
    decreases |loaders|
  {
    var n := |loaders| - 1;
    if l == n {
      assert loaders[l := p][..n] == loaders[..n];
    } else {
      assert loaders[l := p][..n] == loaders[..n][l := p];
      DonesUpdate(loaders[..n], l, p);
    }
  }

  lemma {:induction false} DonesSame(a: seq<Loader>, b: seq<Loader>)
    requires |a| == |b| && forall k :: 0 <= k < |a| ==> a[k].at == b[k].at
    ensures Dones(a) == Dones(b)
  {
    if a != [] { DonesSame(a[..|a| - 1], b[..|b| - 1]); }
  }

  /** `iTaskCount` grows by the loads that found a slot, those that were overwritten included. */
  lemma {:induction false} CountsDones(w: World, events: seq<Event>)
    requires Shaped(w)
    ensures Run(w, events).taskCount - Dones(Run(w, events).loaders) == w.taskCount - Dones(w.loaders)
    decreases |events|
  {
    if events != [] {
      var w' := Step(w, events[0]);
      if events[0].Go? && events[0].l < |w.loaders| {
        DonesUpdate(w.loaders, events[0].l, w'.loaders[events[0].l]);
        GoUpdates(w, events[0].l);
      } else if events[0].Clear? {
        DonesSame(w.loaders, w'.loaders);
      }
      CountsDones(w', events[1..]);
    }
  }

  lemma GoUpdates(w: World, l: nat)
    requires Shaped(w) && l < |w.loaders|
    ensures Next(w, l).loaders == w.loaders[l := Next(w, l).loaders[l]]
    ensures Next(w, l).taskCount
      == w.taskCount + if Next(w, l).loaders[l].at.Done? && !w.loaders[l].at.Done? then 1 else 0
    ensures w.loaders[l].at.Done? ==> Next(w, l).loaders[l].at.Done?
  {}

  // ---------- one load at a time ----------

  /** A call left alone is the atomic load. */
  lemma {:induction false} Alone(w: World, l: nat) returns (events: seq<Event>)
    requires Shaped(w) && l < |w.loaders| && w.loaders[l].at.Scanning? && w.loaders[l].at.i <= MAX_TASKS
    requires FirstFrom(w.tasks, NoInit, 0) == FirstFrom(w.tasks, NoInit, w.loaders[l].at.i)
    ensures forall k :: 0 <= k < |events| ==> events[k] == Go(l)
    ensures Run(w, events).tasks == WithTask(w.tasks, w.loaders[l].task)
    ensures Run(w, events).taskCount == w.taskCount + if HasRoom(w.tasks) then 1 else 0
    decreases MAX_TASKS - w.loaders[l].at.i
  {
    var i := w.loaders[l].at.i;
    if i < MAX_TASKS && w.tasks[i].status != NoInit {
      var rest := Alone(Next(w, l), l);
      events := [Go(l)] + rest;
      assert events[1..] == rest;
    } else if i == MAX_TASKS {
      events := [];
    } else {
      events := [Go(l), Go(l), Go(l), Go(l)];
      FourSteps(w, l);
    }
  }

  lemma FourSteps(w: World, l: nat)
    requires Shaped(w) && l < |w.loaders| && w.loaders[l].at.Scanning? && w.loaders[l].at.i < MAX_TASKS
    requires w.tasks[w.loaders[l].at.i].status == NoInit
    ensures var r := Run(w, [Go(l), Go(l), Go(l), Go(l)]);
      && r.tasks == w.tasks[w.loaders[l].at.i := w.loaders[l].task.(status := Stopped)]
      && r.taskCount == w.taskCount + 1
  {
    var es := [Go(l), Go(l), Go(l), Go(l)];
    var w1 := Next(w, l);
    var w2 := Next(w1, l);
    var w3 := Next(w2, l);
    var w4 := Next(w3, l);
    RunCons(w, es);
    RunCons(w1, es[1..]);
    RunCons(w2, es[1..][1..]);
    RunCons(w3, es[1..][1..][1..]);
    assert Run(w, es) == w4;
  }

  lemma RunCons(w: World, events: seq<Event>)
    requires Shaped(w) && events != []
    ensures Run(w, events) == Run(Step(w, events[0]), events[1..])
  {}

  /** The failing case: a second load starts before the first has written, and both take slot 0. */
  lemma TwoLoadsOneSlot(w: World, regs: Registers)
    requires Start(w) && |w.loaders| == 2 && w.tasks[0].status == NoInit && w.taskCount == 0
    ensures var events := [Go(0), Tick(regs), Go(1)];
      !NoDoubleClaim(w, events) && !Apart(Run(w, events))
  {
    var events := [Go(0), Tick(regs), Go(1)];
    var w1 := Step(w, Go(0));
    assert events[1..] == [Tick(regs), Go(1)] && events[1..][1..] == [Go(1)];
    assert Step(w1, Tick(regs)) == w1;
    assert Takes(w1, 0, 0) && DoubleClaim(w1, Go(1));
    assert !NoDoubleClaim(w1, [Go(1)]);
    assert !NoDoubleClaim(w1, [Tick(regs), Go(1)]);
    ApartIff(w, events);
  }
}
