/** Thread creation: a task record and a stack from the heap, and a slot in the table. */
module Threads {
  import opened Util
  import opened BumpHeap
  import opened Scheduler
  import opened SchedulerRuns

  const STACK_SIZE := 0x10000
  /** Two ints, 22 words and a byte, padded to a multiple of 4. */
  const TASK_SIZE := 188

  /** What the kernel asks the heap for. */
  datatype Purpose = TaskTable | TaskRecord | ThreadStack | Other(size: u64)

  function Size(p: Purpose): u64 {
    match p
    case TaskTable => TASK_SIZE * MAX_TASKS
    case TaskRecord => TASK_SIZE
    case ThreadStack => STACK_SIZE
    case Other(size) => size
  }

  function Requests(ps: seq<Purpose>): (rs: seq<Request>)
    ensures |rs| == |ps| && Calls(rs) == |ps|
    ensures forall i :: 0 <= i < |ps| ==> rs[i] == Alloc(Size(ps[i]))
  {
    if ps == [] then [] else [Alloc(Size(ps[0]))] + Requests(ps[1..])
  }

  /** The block each purpose got, in order. */
  function BlocksFor(base: u64, ps: seq<Purpose>): (bs: seq<Block>)
    ensures |bs| == |ps|
  { BumpHeap.Blocks(base, Requests(ps)) }

  /** The initial stack pointer: the block's address and size in 32-bit unsigned arithmetic. */
  function StackTop(addr: u64): u64 { (addr % TWO_32 + STACK_SIZE) % TWO_32 }

  /** In one remainder: the end of the stack, cut to 32 bits. */
  lemma StackTopIs(addr: u64)
    ensures StackTop(addr) == (addr + STACK_SIZE) % TWO_32
  {
    var r := (addr % TWO_32 + STACK_SIZE) % TWO_32;
    DivModUnique(addr + STACK_SIZE, TWO_32, addr / TWO_32 + (addr % TWO_32 + STACK_SIZE) / TWO_32, r);
  }

  /** The registers of a new thread, one by one: five are set, the others are what the memory held. */
  function FirstRegisters(routine: u64, stack: u64, held: Registers): Registers {
    Registers(held.r15, held.r14, held.r13, held.r12, held.r11, held.r10, held.r9, held.r8,
              held.rbp, held.rdi, held.rsi, held.rdx, held.rcx, held.rbx, held.rax, held.intNo, held.errorCode,
              routine, 0x28, 0x202, (stack + 0x10000) % TWO_32, 0x30)
  }

  lemma NewTaskIs(raw: Task, pid: int, routine: u64, stack: u64)
    ensures NewTask(raw, pid, routine, StackTop(stack))
      == Task(pid, raw.status, FirstRegisters(routine, stack, raw.regs), 2)
  {
    StackTopIs(stack);
  }

  lemma {:induction false} BaseAfterSnoc(base: u64, rs: seq<Request>, r: Request)
    requires r.Alloc?
    ensures BaseAfter(base, rs + [r]) == Balloc(BaseAfter(base, rs), r.count, 4).1
    ensures BumpHeap.Blocks(base, rs + [r])
      == BumpHeap.Blocks(base, rs) + [Block(Balloc(BaseAfter(base, rs), r.count, 4).0, r.count)]
    decreases |rs|
  {
    if rs == [] {
      assert rs + [r] == [r] && [r][1..] == [];
    } else {
      assert (rs + [r])[1..] == rs[1..] + [r];
      if rs[0].Release? {
        BaseAfterSnoc(base, rs[1..], r);
      } else {
        BaseAfterSnoc(Balloc(base, rs[0].count, 4).1, rs[1..], r);
      }
    }
  }

  lemma {:induction false} RequestsSnoc(ps: seq<Purpose>, p: Purpose)
    ensures Requests(ps + [p]) == Requests(ps) + [Alloc(Size(p))]
  {
    if ps == [] {
      assert ps + [p] == [p];
    } else {
      assert (ps + [p])[1..] == ps[1..] + [p];
      RequestsSnoc(ps[1..], p);
    }
  }

  /** Allocation from the kernel's heap and thread creation in its task table. */
  class ThreadKernel {
    const heap: Heap
    const table: Table
    /** `iPidCount` */
    var pidCount: nat
    ghost const start: u64
    /** What the heap was asked for, in order. */
    ghost var purposes: seq<Purpose>
    /** Which of those requests got the stack of each slot. */
    ghost var stacks: seq<nat>

    /** The slots loaded are those of the stacks, and each has the end of its stack as its stack pointer. */
    ghost predicate Stacked()
      reads this, table, table.tasks
    {
      && table.Valid() && |stacks| == table.taskCount <= MAX_TASKS
      && (forall k :: 0 <= k < |stacks| ==> HasStack(table.tasks[k], stacks[k]))
      && (forall k :: |stacks| <= k < MAX_TASKS ==> table.tasks[k].status == NoInit)
      && (forall i, j :: 0 <= i < j < |stacks| ==> stacks[i] < stacks[j])
    }

    ghost predicate HasStack(t: Task, request: nat)
      reads this
    {
      && Loaded(t) && request < |purposes| && purposes[request] == ThreadStack
      && t.regs.rsp == StackTop(BlocksFor(start, purposes)[request].addr)
    }

    ghost predicate Valid()
      reads this, heap, table
    {
      table.Valid() && heap.base == BaseAfter(start, Requests(purposes))
    }

    /** `PsThreadsInit` */
    constructor ()
      ensures Valid() && fresh(heap) && fresh(table) && fresh(table.tasks)
      ensures Stacked() && purposes == [TaskTable] && Size(TaskTable) == 188 * 64 && start == 0x1000000
      ensures Initial(State(table.tasks[..], table.taskCount, pidCount))
    {
      heap := new Heap();
      table := new Table();
      pidCount := 0;
      start := 0x1000000;
      purposes := [];
      stacks := [];
      new;
      var addr := Allocate(TaskTable);
    }

    method Allocate(p: Purpose) returns (addr: u64)
      requires Valid()
      modifies heap, this`purposes
      ensures Valid() && purposes == old(purposes) + [p]
      ensures BlocksFor(start, purposes) == BlocksFor(start, old(purposes)) + [Block(addr, Size(p))]
      ensures old(Stacked()) ==> Stacked()
    {
      addr := heap.Malloc(Size(p));
      RequestsSnoc(purposes, p);
      BaseAfterSnoc(start, Requests(purposes), Alloc(Size(p)));
      purposes := purposes + [p];
      assert old(Stacked()) ==> forall k :: 0 <= k < |stacks| ==> old(HasStack(table.tasks[k], stacks[k]));
    }

    /** `raw` is what the record's memory held before. */
    method PspCreateThread(routine: u64, raw: Task) returns (ghost record: u64, ghost stack: u64)
      requires Valid()
      modifies heap, table`taskCount, table.tasks, this`pidCount, this`purposes, this`stacks
      ensures Valid() && purposes == old(purposes) + [TaskRecord, ThreadStack]
      ensures BlocksFor(start, purposes)
        == BlocksFor(start, old(purposes)) + [Block(record, 188), Block(stack, 0x10000)]
      ensures State(table.tasks[..], table.taskCount, pidCount)
        == Step(old(State(table.tasks[..], table.taskCount, pidCount)), Create(routine, raw, StackTop(stack)))
      ensures old(HasRoom(table.tasks[..])) ==>
        var i := FirstFrom(old(table.tasks[..]), NoInit, 0);
        && table.tasks[i] == Task(old(pidCount), Stopped, FirstRegisters(routine, stack, raw.regs), 2)
        && forall k :: 0 <= k < MAX_TASKS && k != i ==> table.tasks[k] == old(table.tasks[k])
      ensures old(Stacked()) ==> Stacked()
    {
      hide BumpHeap.Blocks, BaseAfter, Requests, WithTask;
      ghost var stacked := Stacked();
      assert stacked ==> forall k :: 0 <= k < |stacks| ==> HasStack(table.tasks[k], stacks[k]);
      record := Allocate(TaskRecord);
      var pid := pidCount;
      pidCount := pidCount + 1;
      var stackAddress := Allocate(ThreadStack);
      stack := stackAddress;
      LoadNew(NewTask(raw, pid, routine, StackTop(stackAddress)), stackAddress, stacked);
      NewTaskIs(raw, pid, routine, stackAddress);
      assert purposes == old(purposes) + [TaskRecord, ThreadStack];
    }

    /** The load of a record whose stack was the last thing asked for. */
    method LoadNew(task: Task, ghost stack: u64, ghost stacked: bool)
      requires Valid() && purposes != [] && purposes[|purposes| - 1] == ThreadStack
      requires BlocksFor(start, purposes)[|purposes| - 1].addr == stack && task.regs.rsp == StackTop(stack)
      requires stacked ==> Stacked() && forall k :: 0 <= k < |stacks| ==> stacks[k] < |purposes| - 1
      modifies table`taskCount, table.tasks, this`stacks
      ensures table.tasks[..] == WithTask(old(table.tasks[..]), task)
      ensures table.taskCount == old(table.taskCount) + if HasRoom(old(table.tasks[..])) then 1 else 0
      ensures old(HasRoom(table.tasks[..])) ==>
        var i := FirstFrom(old(table.tasks[..]), NoInit, 0);
        && table.tasks[i] == task.(status := Stopped)
        && forall k :: 0 <= k < MAX_TASKS && k != i ==> table.tasks[k] == old(table.tasks[k])
      ensures stacked ==> Stacked()
    {
      ghost var before := table.tasks[..];
      table.PsLoadTask(task);
      assert forall k :: 0 <= k < MAX_TASKS ==> table.tasks[k] == WithTask(before, task)[k];
      if stacked {
        assert forall k :: 0 <= k < |stacks| ==> before[k] == old(table.tasks[k]) && Loaded(before[k]);
        assert forall k :: |stacks| <= k < MAX_TASKS ==> before[k].status == NoInit;
        FirstFree(before, |stacks|);
        if HasRoom(before) { stacks := stacks + [|purposes| - 1]; }
      }
    }

    /** Any run of creates and of other requests to the heap. */
    method Perform(jobs: seq<Job>)
      requires Valid() && Stacked()
      modifies heap, table`taskCount, table.tasks, this`pidCount, this`purposes, this`stacks
      ensures Valid() && Stacked()
      ensures NoOverflow(start, Requests(purposes)) && heap.base < TWO_32 ==>
        forall i, j :: 0 <= i < j < table.taskCount ==> StacksApart(table.tasks[i].regs.rsp, table.tasks[j].regs.rsp)
    {
      for n := 0 to |jobs|
        invariant Valid() && Stacked()
      {
        match jobs[n] {
          case Thread(routine, raw) => var _, _ := PspCreateThread(routine, raw);
          case Memory(size) => var _ := Allocate(Other(size));
        }
      }
      if NoOverflow(start, Requests(purposes)) && heap.base < TWO_32 {
        forall i, j | 0 <= i < j < table.taskCount
          ensures StacksApart(table.tasks[i].regs.rsp, table.tasks[j].regs.rsp)
        {
          SlotsSeparate(this, i, j);
        }
      }
    }
  }

  /** What is asked of the kernel: a thread, or memory for something else. */
  datatype Job = Thread(routine: u64, raw: Task) | Memory(size: u64)

  lemma FirstFree(ts: seq<Task>, n: nat)
    requires n <= |ts| && (forall k :: 0 <= k < n ==> Loaded(ts[k]))
    requires forall k :: n <= k < |ts| ==> ts[k].status == NoInit
    ensures FirstFrom(ts, NoInit, 0) == n
  {
    FirstFreeFrom(ts, 0, n);
  }

  lemma {:induction false} FirstFreeFrom(ts: seq<Task>, i: nat, n: nat)
    requires i <= n <= |ts| && (forall k :: i <= k < n ==> Loaded(ts[k])) && (n < |ts| ==> ts[n].status == NoInit)
    ensures FirstFrom(ts, NoInit, i) == n
    decreases n - i
  {
    if i < n {
      assert Loaded(ts[i]);
      FirstFreeFrom(ts, i + 1, n);
    }
  }

  /** The STACK_SIZE bytes below two stack pointers have none in common. */
  predicate StacksApart(a: int, b: int) {
    0x10000 <= a && 0x10000 <= b && (a <= b - 0x10000 || b <= a - 0x10000)
  }

  /**
   Main result: as long as the heap base stays below 2^32, the stack pointers in the table are the ends of
   stacks that share no byte with each other or with anything else on the heap.
   */
  lemma SlotsSeparate(kernel: ThreadKernel, i: nat, j: nat)
    requires kernel.Valid() && kernel.Stacked() && i < kernel.table.taskCount && j < kernel.table.taskCount && i != j
    requires NoOverflow(kernel.start, Requests(kernel.purposes)) && kernel.heap.base < TWO_32
    ensures var bs := BlocksFor(kernel.start, kernel.purposes);
      var rsp := kernel.table.tasks[i].regs.rsp;
      && StacksApart(rsp, kernel.table.tasks[j].regs.rsp)
      && kernel.stacks[i] < |bs| && bs[kernel.stacks[i]] == Block(rsp - 0x10000, 0x10000)
      && forall m :: 0 <= m < |bs| && m != kernel.stacks[i] ==> Disjoint(bs[kernel.stacks[i]], bs[m])
  {
    var base, ps := kernel.start, kernel.purposes;
    var a, b := kernel.stacks[i], kernel.stacks[j];
    assert kernel.HasStack(kernel.table.tasks[i], a) && kernel.HasStack(kernel.table.tasks[j], b);
    assert a != b by { if i < j { assert a < b; } else { assert b < a; } }
    hide BumpHeap.Blocks, BaseAfter, Requests, StackTop, BlocksFor;
    StacksSeparate(base, ps, a, b);
    StacksSeparate(base, ps, b, a);
    forall m | 0 <= m < |ps| && m != a
      ensures Disjoint(BlocksFor(base, ps)[a], BlocksFor(base, ps)[m])
    {
      StacksSeparate(base, ps, a, m);
    }
  }

  /**
   Main result: as long as the heap base stays below 2^32, every stack is the STACK_SIZE bytes below the
   stack pointer its thread starts with, and no two blocks overlap: stacks, records, the table itself
   and whatever else was allocated in between.
   */
  lemma StacksSeparate(base: u64, ps: seq<Purpose>, i: nat, j: nat)
    requires NoOverflow(base, Requests(ps)) && BaseAfter(base, Requests(ps)) < TWO_32
    requires i < |ps| && j < |ps| && ps[i] == ThreadStack
    ensures var bs := BlocksFor(base, ps);
      && bs[i].size == STACK_SIZE && StackTop(bs[i].addr) == bs[i].addr + STACK_SIZE
      && (i != j ==> Disjoint(bs[i], bs[j]))
      && bs[j].size == Size(ps[j])
  {
    hide BumpHeap.Blocks, BaseAfter, Requests, StackTop, Ordered;
    BlocksOrdered(base, Requests(ps));
    BlockSizes(base, ps);
    OrderedDisjoint(BlocksFor(base, ps), base, BaseAfter(base, Requests(ps)), i, j);
    StackTopExact(BlocksFor(base, ps)[i].addr);
  }

  lemma StackTopExact(addr: u64)
    ensures addr + STACK_SIZE < TWO_32 ==> StackTop(addr) == addr + STACK_SIZE
  {
    if addr + STACK_SIZE < TWO_32 {
      DivModUnique(addr, TWO_32, 0, addr);
      DivModUnique(addr + STACK_SIZE, TWO_32, 0, addr + STACK_SIZE);
    }
  }

  lemma {:induction false} BlockSizes(base: u64, ps: seq<Purpose>)
    ensures forall i :: 0 <= i < |ps| ==> BlocksFor(base, ps)[i].size == Size(ps[i])
    decreases |ps|
  {
    if ps != [] {
      assert Requests(ps)[1..] == Requests(ps[1..]);
      BlockSizes(Balloc(base, Size(ps[0]), 4).1, ps[1..]);
    }
  }
}
