/** The calls of module Tasks run in place, on the task and process tables themselves, and
    tied to the page tables underneath: an address space exists exactly as long as a
    process record holds it, and CR3 always holds the root of a space that exists. */
module Scheduler {
  import opened Words
  import opened T = Tasks
  import opened Lifecycle
  import PT = PageTables
  import U = UserPages
  import Img = ElfImage
  import L = LoadSteps
  import Elf

  // ------------------------------------------------- processes and page tables

  predicate Has(p: Process, d: nat) { p.used && p.space == UserSpace(d) }

  /** The task's CR3 is the root of its address space. */
  ghost predicate RootOk(t: Task, node: map<PT.Node, nat>) {
    t.space.UserSpace? && PT.Root(PT.User(t.space.d)) in node && node[PT.Root(PT.User(t.space.d))] == t.cr3
  }

  /** The user address spaces are those that process records hold, and live user tasks
      run on their roots. */
  ghost predicate Coupled(k: Kernel, node: map<PT.Node, nat>) {
    && (forall d: nat :: PT.Root(PT.User(d)) in node <==> exists j :: 0 <= j < |k.procs| && Has(k.procs[j], d))
    && (forall i :: 0 <= i < |k.tasks| && Live(k.tasks[i]) && k.tasks[i].isUser ==> RootOk(k.tasks[i], node))
  }

  /** No task comes to life or changes its space, and no record changes hold. */
  ghost predicate NoNewHold(k: Kernel, r: Kernel) {
    && |r.tasks| == |k.tasks| && |r.procs| == |k.procs|
    && (forall j, d: nat :: 0 <= j < |k.procs| ==> (Has(r.procs[j], d) <==> Has(k.procs[j], d)))
    && (forall i :: 0 <= i < |k.tasks| && Live(r.tasks[i]) && r.tasks[i].isUser ==> SameRun(k.tasks[i], r.tasks[i]))
  }

  predicate SameRun(t: Task, u: Task) {
    Live(t) && t.isUser && u.space == t.space && u.cr3 == t.cr3
  }

  lemma CoupledKept(k: Kernel, r: Kernel, node: map<PT.Node, nat>)
    requires Coupled(k, node) && NoNewHold(k, r)
    ensures Coupled(r, node)
  {
    forall d: nat | exists j :: 0 <= j < |r.procs| && Has(r.procs[j], d) ensures PT.Root(PT.User(d)) in node {
      var j :| 0 <= j < |r.procs| && Has(r.procs[j], d);
      assert Has(k.procs[j], d);
    }
    forall d: nat | PT.Root(PT.User(d)) in node ensures exists j :: 0 <= j < |r.procs| && Has(r.procs[j], d) {
      var j :| 0 <= j < |k.procs| && Has(k.procs[j], d);
      assert Has(r.procs[j], d);
    }
    forall i | 0 <= i < |r.tasks| && Live(r.tasks[i]) && r.tasks[i].isUser ensures RootOk(r.tasks[i], node) {
      assert SameRun(k.tasks[i], r.tasks[i]);
    }
  }

  /** Tables other than roots do not matter. */
  lemma CoupledGrows(k: Kernel, node: map<PT.Node, nat>, node': map<PT.Node, nat>)
    requires Coupled(k, node) && U.SameSpaces(node, node')
    ensures Coupled(k, node')
  {
    forall d: nat ensures U.SameSpace(node, node', PT.User(d)) {}
    forall d: nat ensures PT.Root(PT.User(d)) in node' <==> PT.Root(PT.User(d)) in node {
      assert U.SameSpace(node, node', PT.User(d));
    }
    forall i | 0 <= i < |k.tasks| && Live(k.tasks[i]) && k.tasks[i].isUser ensures RootOk(k.tasks[i], node') {
      assert RootOk(k.tasks[i], node) && U.SameSpace(node, node', PT.User(k.tasks[i].space.d));
    }
  }

  // ----------------------------------------------------------------- reaping

  /** The tables left after the first i records were looked at. */
  ghost function Reaped(node: map<PT.Node, nat>, procs: seq<Process>, here: Space, i: nat): map<PT.Node, nat>
    requires i <= |procs|
  {
    if i == 0 then node
    else
      var m := Reaped(node, procs, here, i - 1);
      if Doomed(procs[i - 1], here) && procs[i - 1].space.UserSpace? then PT.Without(m, PT.User(procs[i - 1].space.d))
      else m
  }

  ghost predicate Destroyed(procs: seq<Process>, here: Space, i: nat, o: PT.Owner)
    requires i <= |procs|
  {
    exists j :: 0 <= j < i && Doomed(procs[j], here) && procs[j].space.UserSpace? && o == PT.User(procs[j].space.d)
  }

  lemma {:induction false} ReapedRoot(node: map<PT.Node, nat>, procs: seq<Process>, here: Space, i: nat, o: PT.Owner)
    requires i <= |procs|
    ensures var m := Reaped(node, procs, here, i);
            && (PT.Root(o) in m <==> PT.Root(o) in node && !Destroyed(procs, here, i, o))
            && (PT.Root(o) in m ==> m[PT.Root(o)] == node[PT.Root(o)])
  {
    if i > 0 {
      ReapedRoot(node, procs, here, i - 1, o);
      assert Destroyed(procs, here, i, o) <==>
             || Destroyed(procs, here, i - 1, o)
             || (Doomed(procs[i - 1], here) && procs[i - 1].space.UserSpace?
                 && o == PT.User(procs[i - 1].space.d));
    }
  }

  /** A space has one holder. */
  lemma OneHolder(k: Kernel, i: nat, j: nat, d: nat)
    requires Core(k) && i < |k.procs| && j < |k.procs| && Has(k.procs[i], d) && Has(k.procs[j], d)
    ensures i == j
  {
    assert (i < j ==> Apart(k.procs[i], k.procs[j])) && (j < i ==> Apart(k.procs[j], k.procs[i]));
  }

  lemma NotDestroyed(k: Kernel, here: Space, n: nat, i: nat, d: nat)
    requires Core(k) && n <= |k.procs| && i < |k.procs| && Has(k.procs[i], d) && (n <= i || !Doomed(k.procs[i], here))
    ensures !Destroyed(k.procs, here, n, PT.User(d))
  {
    forall j | 0 <= j < n && Has(k.procs[j], d) ensures !Doomed(k.procs[j], here) { OneHolder(k, i, j, d); }
  }

  /** A record that is about to be reaped holds a space that is still there. */
  lemma StillThere(k: Kernel, node: map<PT.Node, nat>, here: Space, i: nat)
    requires Core(k) && Coupled(k, node) && i < |k.procs| && Doomed(k.procs[i], here)
    ensures k.procs[i].space.UserSpace? && PT.Root(PT.User(k.procs[i].space.d)) in Reaped(node, k.procs, here, i)
  {
    assert ProcOk(k, i);
    var d := k.procs[i].space.d;
    assert Has(k.procs[i], d);
    ReapedRoot(node, k.procs, here, i, PT.User(d));
    NotDestroyed(k, here, i, i, d);
  }

  lemma ReapCoupled(k: Kernel, node: map<PT.Node, nat>)
    requires Core(k) && Coupled(k, node)
    ensures Coupled(Reap(k), Reaped(node, k.procs, CurrentSpace(k), |k.procs|))
  {
    var r, n, here := Reap(k), |k.procs|, CurrentSpace(k);
    var m := Reaped(node, k.procs, here, n);
    forall d: nat ensures PT.Root(PT.User(d)) in m <==> exists j :: 0 <= j < n && Has(r.procs[j], d) {
      ReapedRoot(node, k.procs, here, n, PT.User(d));
      HeldAfter(k, d);
    }
    forall i | 0 <= i < |r.tasks| && Live(r.tasks[i]) && r.tasks[i].isUser ensures RootOk(r.tasks[i], m) {
      assert RootOk(k.tasks[i], node);
      var o := PT.User(k.tasks[i].space.d);
      ReapedRoot(node, k.procs, here, n, o);
      if Destroyed(k.procs, here, n, o) {
        var j :| 0 <= j < n && Doomed(k.procs[j], here) && k.procs[j].space.UserSpace?
            && o == PT.User(k.procs[j].space.d);
        ReapSafe(k, j, i);
      }
    }
  }

  /** A space is held after the reaping if it was held and is not gone. */
  lemma HeldAfter(k: Kernel, d: nat)
    requires Core(k)
    ensures (exists j :: 0 <= j < |k.procs| && Has(Reap(k).procs[j], d)) <==>
            && (exists j :: 0 <= j < |k.procs| && Has(k.procs[j], d))
            && !Destroyed(k.procs, CurrentSpace(k), |k.procs|, PT.User(d))
  {
    var r, here := Reap(k), CurrentSpace(k);
    forall j | 0 <= j < |k.procs| && Has(r.procs[j], d)
      ensures Has(k.procs[j], d) && !Destroyed(k.procs, here, |k.procs|, PT.User(d))
    {
      NotDestroyed(k, here, |k.procs|, j, d);
    }
    if !Destroyed(k.procs, here, |k.procs|, PT.User(d)) {
      forall j | 0 <= j < |k.procs| && Has(k.procs[j], d) ensures Has(r.procs[j], d) {}
    }
  }

  // ------------------------------------------------------- what the calls hold

  lemma SwitchHolds(k: Kernel, rsp: nat)
    requires Between(k, IDLE) && k.slice < TICKS_PER_SLICE
    ensures NoNewHold(Reap(k), SwitchFrom(k, rsp).0)
  {
    SwitchKeeps(k, IDLE, rsp);
  }

  lemma WakeHolds(k: Kernel, tid: int)
    requires Shaped(k)
    ensures NoNewHold(k, Wake(k, tid))
  {
  }

  lemma KillHolds(k: Kernel, pid: int, code: int)
    requires Shaped(k)
    ensures NoNewHold(k, Kill(k, pid, code).0)
  {
  }

  lemma CreateHolds(k: Kernel, root: nat, entry: Code, stack: nat)
    requires Shaped(k)
    ensures NoNewHold(k, T.CreateTask(k, 0, KernelSpace, root, InKernel(entry), stack).0)
  {
  }

  lemma WaitHolds(k: Kernel, pid: int)
    requires Shaped(k)
    ensures NoNewHold(k, WaitPoll(k, pid).0)
  {
  }

  /** kernel_main creates the shell task in slot 0 and the idle task in slot 1. */
  const IDLE: nat := 1

  class Machine {
    const loader: Elf.Loader
    const tasks: array<Task>
    const procs: array<Process>
    var current: int
    var slice: nat
    var switches: nat
    var nextPid: int
    var cr3: nat

    ghost function K(): Kernel
      reads this, tasks, procs
    {
      Kernel(tasks[..], current, slice, switches, procs[..], nextPid)
    }

    ghost function Now(): U.State
      reads loader.vm`mem, loader.vm`node, loader.vm.pmm`free
    {
      loader.Now()
    }

    ghost function Nodes(): map<PT.Node, nat>
      reads loader.vm
    {
      loader.vm.node
    }

    ghost predicate Shape()
      reads this, tasks, procs
    {
      tasks.Length == MAX_TASKS && procs.Length == MAX_PROCESSES && -1 <= current < MAX_TASKS && Separate()
    }

    /** The tables and the allocator's bitmap are different arrays. */
    ghost predicate Separate() {
      var t: object, p: object, b: object := tasks, procs, loader.vm.pmm.bitmap;
      t != p && t != b && p != b
    }

    /** The root that task_switch_address_space loads for a task. */
    function RootFor(t: Task): nat {
      if t.isUser then t.cr3 else loader.vm.kernelRoot
    }

    /** The tables agree with the page tables underneath, and CR3 with the current task. */
    ghost predicate Tied()
      reads this, tasks, procs, loader, loader.vm, loader.vm.pmm, loader.vm.pmm.bitmap
    {
      && Shape() && loader.Valid() && Coupled(K(), loader.vm.node)
      && (current >= 0 ==> cr3 == RootFor(tasks[current]))
    }

    ghost predicate Valid()
      reads this, tasks, procs, loader, loader.vm, loader.vm.pmm, loader.vm.pmm.bitmap
    {
      Tied() && Inv(K(), IDLE)
    }

    /** task_init and process_init, after vmm_init. */
    constructor (l: Elf.Loader)
      requires l.Valid() && forall d :: PT.Root(PT.User(d)) !in l.vm.node
      ensures Tied() && K() == Initial() && loader == l && fresh(tasks) && fresh(procs)
    {
      loader := l;
      tasks := new Task[MAX_TASKS](_ => Task(0, New, 0, 0, 0, 0, false, NoSpace, 0, NoFrame));
      procs := new Process[MAX_PROCESSES](_ => Process(false, 0, NoSpace, -1, false, 0, false));
      current, slice, switches, nextPid := -1, 0, 0, 1;
      cr3 := l.vm.kernelRoot;
      new;
      assert tasks[..] == Initial().tasks && procs[..] == Initial().procs;
    }

    /** CR3 holds the root of an address space that exists. */
    lemma Cr3Live()
      requires Valid()
      ensures exists o :: loader.vm.Live(o) && loader.vm.node[PT.Root(o)] == cr3
    {
      var t := tasks[current];
      assert TaskOk(K(), current);
      if t.isUser { assert RootOk(K().tasks[current], loader.vm.node); } else { assert loader.vm.Live(PT.Kernel); }
    }

    /** pick_next_runnable */
    method PickNextRunnable() returns (r: int)
      requires Shape()
      ensures r == Pick(tasks[..], current)
    {
      var start := if current < 0 then 0 else (current + 1) % MAX_TASKS;
      var i := 0;
      while i < MAX_TASKS
        invariant 0 <= i <= MAX_TASKS && Pick(tasks[..], current) == PickFrom(tasks[..], current, i)
      {
        var idx := (start + i) % MAX_TASKS;
        if tasks[idx].state == Runnable || tasks[idx].state == Running { return idx; }
        i := i + 1;
      }
      return -1;
    }

    /** process_reap_deferred */
    method ReapDeferred()
      requires Tied() && Core(K())
      modifies procs, loader.vm`node, loader.vm.pmm`freePages, loader.vm.pmm`free, loader.vm.pmm.bitmap
      ensures K() == Reap(old(K())) && Tied()
      ensures loader.vm.node == Reaped(old(loader.vm.node), old(procs[..]), CurrentSpace(old(K())), MAX_PROCESSES)
    {
      hide Elf.Loader.Valid, Coupled, Core, Reaped, PT.Without;
      ghost var k, node := K(), loader.vm.node;
      var here := if current < 0 then NoSpace else tasks[current].space;
      var i := 0;
      ReapedNone(node, k.procs, here);
      while i < MAX_PROCESSES
        invariant 0 <= i <= MAX_PROCESSES && loader.Valid()
        invariant tasks[..] == k.tasks && loader.vm.node == Reaped(node, k.procs, here, i)
        invariant forall j :: 0 <= j < MAX_PROCESSES ==>
                    procs[j] == if j < i then ReapOne(k.procs[j], here) else k.procs[j]
      {
        var p := procs[i];
        ReapedNext(node, k.procs, here, i);
        if p.used && p.reapPending {
          if p.space == NoSpace {
            procs[i] := p.(reapPending := false, mainTid := -1);
          } else if p.space != here {
            StillThere(k, node, here, i);
            loader.DropSpace(p.space.d);
            procs[i] := p.(space := NoSpace, reapPending := false, mainTid := -1);
          }
        }
        i := i + 1;
      }
      assert procs[..] == Reap(k).procs;
      ReapCoupled(k, node);
    }

    /** task_switch_address_space; its assertions are the precondition. */
    method LoadRoot(t: Task)
      requires t.isUser ==> t.space != NoSpace && t.cr3 != 0
      modifies this`cr3
      ensures cr3 == RootFor(t)
    {
      cr3 := RootFor(t);
    }

    /** context_switch_from, first part: the current task is put away. */
    method PutCurrentAway(rsp: nat)
      requires Shape()
      modifies tasks
      ensures K() == PutAway(old(K()), rsp)
    {
      ghost var k := K();
      if current >= 0 {
        var t := tasks[current];
        tasks[current] := t.(rsp := rsp, state := if t.state == Running then Runnable else t.state);
      }
      assert tasks[..] == PutAway(k, rsp).tasks;
    }

    /** context_switch_from, last part: task n runs next. */
    method RunNext(n: int) returns (next: nat)
      requires Shape() && -1 <= n < MAX_TASKS && (current >= 0 ==> cr3 == RootFor(tasks[current]))
      requires n >= 0 && tasks[n].isUser ==> tasks[n].space != NoSpace && tasks[n].cr3 != 0
      modifies this`current, this`switches, this`cr3, tasks
      ensures Shape() && (K(), next) == Enter(old(K()), n) && (current >= 0 ==> cr3 == RootFor(tasks[current]))
    {
      ghost var k := K();
      next := 0;
      if n < 0 {
        if current >= 0 { tasks[current] := tasks[current].(state := Running); }
      } else if n == current {
        tasks[n] := tasks[n].(state := Running);
      } else {
        current := n;
        tasks[n] := tasks[n].(state := Running, timeslice := (tasks[n].timeslice + 1) % U32);
        LoadRoot(tasks[n]);
        switches := switches + 1;
        next := tasks[n].rsp;
      }
      assert tasks[..] == Enter(k, n).0.tasks;
    }

    /** context_switch_from */
    method ContextSwitchFrom(rsp: nat) returns (next: nat)
      requires Tied() && Between(K(), IDLE) && slice < TICKS_PER_SLICE
      modifies this`current, this`switches, this`cr3, tasks, procs
      modifies loader.vm`node, loader.vm.pmm`freePages, loader.vm.pmm`free, loader.vm.pmm.bitmap
      ensures Valid() && (K(), next) == SwitchFrom(old(K()), rsp)
    {
      hide Elf.Loader.Valid, Coupled, Reap, Between, Inv, NoNewHold, Reaped, Enter, Core;
      ghost var k := K();
      BetweenCore(k);
      ReapDeferred();
      PutCurrentAway(rsp);
      var n := PickNextRunnable();
      PickedRoot(k, rsp);
      next := RunNext(n);
      SwitchKeeps(k, IDLE, rsp);
      SwitchHolds(k, rsp);
      CoupledKept(Reap(k), K(), loader.vm.node);
    }

    /** schedule_on_tick */
    method ScheduleOnTick(rsp: nat) returns (next: nat)
      requires Tied() && Between(K(), IDLE) && slice < TICKS_PER_SLICE && current >= 0
      modifies this`current, this`slice, this`switches, this`cr3, tasks, procs
      modifies loader.vm`node, loader.vm.pmm`freePages, loader.vm.pmm`free, loader.vm.pmm.bitmap
      ensures Valid() && (K(), next) == Tick(old(K()), rsp)
    {
      hide Elf.Loader.Valid, Coupled, Between, Inv, NoNewHold, SwitchFrom;
      ghost var k := K();
      TickKeeps(k, IDLE, rsp);
      if current >= 0 && tasks[current].state == Running {
        slice := slice + 1;
        if slice < TICKS_PER_SLICE {
          TickHolds(k, slice);
          CoupledKept(k, K(), loader.vm.node);
          return 0;
        }
      }
      slice := 0;
      TickHolds(k, slice);
      CoupledKept(k, K(), loader.vm.node);
      BetweenSlice(k, slice);
      next := ContextSwitchFrom(rsp);
    }

    /** task_sleep, through the software timer interrupt it raises. */
    method TaskSleep(rsp: nat) returns (next: nat)
      requires Valid() && !tasks[current].isUser && current != IDLE
      modifies this`current, this`slice, this`switches, this`cr3, tasks, procs
      modifies loader.vm`node, loader.vm.pmm`freePages, loader.vm.pmm`free, loader.vm.pmm.bitmap
      ensures Valid() && (K(), next) == Sleep(old(K()), rsp)
    {
      hide Elf.Loader.Valid, Coupled, NoNewHold, Tick;
      ghost var k := K();
      tasks[current] := tasks[current].(state := Waiting);
      assert K() == SetTask(k, current, k.tasks[current].(state := Waiting));
      Resting(k, Waiting);
      CoupledKept(k, K(), loader.vm.node);
      next := ScheduleOnTick(rsp);
    }

    /** task_wake */
    method TaskWake(tid: int)
      requires Valid()
      modifies tasks
      ensures Valid() && K() == Wake(old(K()), tid)
    {
      hide Elf.Loader.Valid, Coupled, NoNewHold, Inv;
      ghost var k := K();
      if tid < 0 || tid >= MAX_TASKS { WakeKeeps(k, IDLE, tid); return; }
      if tasks[tid].state == Waiting { tasks[tid] := tasks[tid].(state := Runnable); }
      assert tasks[..] == Wake(k, tid).tasks;
      WakeKeeps(k, IDLE, tid);
      WakeHolds(k, tid);
      CoupledKept(k, K(), loader.vm.node);
    }

    /** find_free_slot; kfree of a zombie's stack is the clearing of its stack field. The
        second of its three loops looks for less than the first and finds nothing. */
    method FindFreeSlot() returns (slot: int)
      requires Shape()
      modifies tasks
      ensures slot == if FreeSlot(old(tasks[..])) == MAX_TASKS then -1 else FreeSlot(old(tasks[..]))
      ensures tasks[..] == if slot < 0 then old(tasks[..]) else old(tasks[..])[slot := old(tasks[slot]).(stack := 0)]
    {
      var i := 0;
      while i < MAX_TASKS
        invariant 0 <= i <= MAX_TASKS && FirstEmpty(tasks[..], 0) == FirstEmpty(tasks[..], i)
      {
        if (tasks[i].state == Zombie || tasks[i].state == New) && tasks[i].stack == 0 {
          assert tasks[..] == tasks[..][i := tasks[i].(stack := 0)];
          return i;
        }
        i := i + 1;
      }
      i := 0;
      while i < MAX_TASKS
        invariant 0 <= i <= MAX_TASKS && FirstZombie(tasks[..], 0) == FirstZombie(tasks[..], i)
      {
        if tasks[i].state == Zombie {
          tasks[i] := tasks[i].(stack := 0);
          return i;
        }
        i := i + 1;
      }
      return -1;
    }

    /** task_create_kernel and task_create_user; stack is the answer of kmalloc. */
    method CreateTask(pid: int, space: Space, root: nat, how: Mode, stack: nat) returns (tid: int)
      requires Shape()
      modifies tasks
      ensures Shape() && (K(), tid) == T.CreateTask(old(K()), pid, space, root, how, stack)
    {
      ghost var k := K();
      var slot := FindFreeSlot();
      if slot < 0 { return -1; }
      if stack == 0 { return -1; }
      var top := (stack + STACK_SIZE) / 16 * 16;
      tasks[slot] := Task(pid, Runnable, top - FRAME_BYTES, root, 0, 0, how.ForUser?, space, stack,
                          InitialFrame(how, top));
      assert tasks[..] == T.CreateTask(k, pid, space, root, how, stack).0.tasks;
      return slot;
    }

    /** task_create_kernel */
    method CreateKernelTask(entry: Code, stack: nat) returns (tid: int)
      requires Tied() && Core(K()) && (current >= 0 ==> Live(tasks[current]))
      modifies tasks
      ensures Tied() && Core(K()) && OnlyAdds(old(K()), K())
      ensures (K(), tid) == T.CreateTask(old(K()), 0, KernelSpace, loader.vm.kernelRoot, InKernel(entry), stack)
    {
      hide Elf.Loader.Valid, Coupled, Core, T.CreateTask, NoNewHold;
      ghost var k := K();
      CreateKernelCore(k, loader.vm.kernelRoot, entry, stack);
      CreateHolds(k, loader.vm.kernelRoot, entry, stack);
      tid := CreateTask(0, KernelSpace, loader.vm.kernelRoot, InKernel(entry), stack);
      CoupledKept(k, K(), loader.vm.node);
    }

    /** alloc_process_slot */
    method AllocProcessSlot() returns (slot: int)
      requires Shape()
      ensures slot == if ProcSlot(procs[..], 0) == MAX_PROCESSES then -1 else ProcSlot(procs[..], 0)
    {
      var i := 0;
      while i < MAX_PROCESSES
        invariant 0 <= i <= MAX_PROCESSES && ProcSlot(procs[..], 0) == ProcSlot(procs[..], i)
      {
        var p := procs[i];
        if !p.used { return i; }
        if p.used && p.exited && p.space == NoSpace && p.mainTid < 0 { return i; }
        i := i + 1;
      }
      return -1;
    }

    /** find_process_by_pid */
    method FindProcess(pid: int) returns (i: nat)
      requires Shape()
      ensures i == FindPid(procs[..], pid, 0)
    {
      i := 0;
      while i < MAX_PROCESSES
        invariant 0 <= i <= MAX_PROCESSES && FindPid(procs[..], pid, 0) == FindPid(procs[..], pid, i)
      {
        if procs[i].used && procs[i].pid == pid { return; }
        i := i + 1;
      }
    }

    /** process_task_exited */
    method TaskExited(pid: int, code: int)
      requires Shape()
      modifies procs
      ensures K() == T.TaskExited(old(K()), pid, code)
    {
      ghost var k := K();
      var i := FindProcess(pid);
      if i == MAX_PROCESSES { return; }
      procs[i] := procs[i].(exited := true, exitCode := code, reapPending := true);
      assert procs[..] == T.TaskExited(k, pid, code).procs;
    }

    /** sys_exit and the switch that syscall_dispatch makes after it. */
    method SysExit(code: int, rsp: nat) returns (next: nat)
      requires Valid() && tasks[current].isUser
      modifies this`current, this`switches, this`cr3, tasks, procs
      modifies loader.vm`node, loader.vm.pmm`freePages, loader.vm.pmm`free, loader.vm.pmm.bitmap
      ensures Valid() && (K(), next) == T.SysExit(old(K()), code, rsp)
    {
      hide Elf.Loader.Valid, Coupled, NoNewHold, SwitchFrom, Inv, Between, T.TaskExited;
      ghost var k := K();
      Current(k);
      TaskExited(tasks[current].pid, code);
      tasks[current] := tasks[current].(exitCode := code, state := Zombie);
      assert tasks[..] == k.tasks[current := k.tasks[current].(exitCode := code, state := Zombie)];
      ExitStops(k, code);
      CoupledKept(k, K(), loader.vm.node);
      next := ContextSwitchFrom(rsp);
    }

    /** A system call that returned 0, and the switch that syscall_dispatch makes after it. */
    method SysYield(rsp: nat) returns (next: nat)
      requires Valid()
      modifies this`current, this`switches, this`cr3, tasks, procs
      modifies loader.vm`node, loader.vm.pmm`freePages, loader.vm.pmm`free, loader.vm.pmm.bitmap
      ensures Valid() && (K(), next) == T.SysYield(old(K()), rsp)
    {
      hide Elf.Loader.Valid, Coupled, NoNewHold, SwitchFrom;
      ghost var k := K();
      var t := tasks[current];
      if t.state != Waiting && t.state != Zombie { tasks[current] := t.(state := Runnable); }
      assert tasks[..] == k.tasks[current := k.tasks[current].(state := Runnable)];
      Resting(k, Runnable);
      CoupledKept(k, K(), loader.vm.node);
      next := ContextSwitchFrom(rsp);
    }

    /** process_kill and task_kill_pid, from a kernel task. */
    method ProcessKill(pid: int, code: int) returns (r: int)
      requires Valid() && !tasks[current].isUser
      modifies tasks, procs
      ensures Valid() && (K(), r) == Kill(old(K()), pid, code)
    {
      hide Elf.Loader.Valid, Coupled, NoNewHold, Inv;
      ghost var k := K();
      Current(k);
      KillKeeps(k, IDLE, pid, code);
      KillHolds(k, pid, code);
      var i := FindProcess(pid);
      if i == MAX_PROCESSES { return -1; }
      if procs[i].exited { return 1; }
      if pid <= 0 { return -1; }
      var v := FindTask(pid);
      if v == MAX_TASKS { return -1; }
      tasks[v] := tasks[v].(exitCode := code, state := Zombie);
      procs[i] := procs[i].(exited := true, exitCode := code, reapPending := true);
      assert tasks[..] == Kill(k, pid, code).0.tasks && procs[..] == Kill(k, pid, code).0.procs;
      CoupledKept(k, K(), loader.vm.node);
      return 0;
    }

    method FindTask(pid: int) returns (v: nat)
      requires Shape()
      ensures v == FindVictim(tasks[..], pid, 0)
    {
      v := 0;
      while v < MAX_TASKS
        invariant 0 <= v <= MAX_TASKS && FindVictim(tasks[..], pid, 0) == FindVictim(tasks[..], pid, v)
      {
        if tasks[v].pid == pid && !(tasks[v].state == New || tasks[v].state == Zombie) { return; }
        v := v + 1;
      }
    }

    /** process_wait_poll */
    method WaitPoll(pid: int) returns (r: int, code: int)
      requires Valid()
      modifies procs
      ensures Valid() && (K(), r, code) == T.WaitPoll(old(K()), pid)
    {
      hide Elf.Loader.Valid, Coupled, NoNewHold, Inv;
      ghost var k := K();
      WaitKeeps(k, IDLE, pid);
      WaitHolds(k, pid);
      var i := FindProcess(pid);
      if i == MAX_PROCESSES { return -1, 0; }
      if !procs[i].exited { return 0, 0; }
      code := procs[i].exitCode;
      if !procs[i].reapPending && procs[i].space == NoSpace {
        procs[i] := Process(false, 0, NoSpace, -1, false, 0, false);
      }
      assert procs[..] == T.WaitPoll(k, pid).0.procs;
      CoupledKept(k, K(), loader.vm.node);
      r := 1;
    }

    /** task_self_check */
    method SelfCheck() returns (ok: bool)
      requires Shape()
      ensures ok <==> T.SelfCheck(K())
    {
      var running, i := 0, 0;
      while i < MAX_TASKS
        invariant 0 <= i <= MAX_TASKS && running + RunningCount(tasks[i..]) == RunningCount(tasks[..])
        invariant forall j :: 0 <= j < i && tasks[j].isUser && tasks[j].state != New ==>
                    tasks[j].space != NoSpace && tasks[j].cr3 != 0
      {
        assert tasks[i..][1..] == tasks[i + 1..];
        if tasks[i].state == Running { running := running + 1; }
        if tasks[i].isUser && tasks[i].state != New && (tasks[i].space == NoSpace || tasks[i].cr3 == 0) {
          assert tasks[i] in tasks[..];
          return false;
        }
        i := i + 1;
      }
      if running > 1 { return false; }
      if current >= 0 && tasks[current].state != Running { return false; }
      return true;
    }

    /** The part of process_spawn_from_elf after the image and its stack are in place. */
    method EnterProcess(slot: nat, d: nat, root: nat, start: nat, sp: nat, stack: nat) returns (pid: int)
      requires Shape() && slot == ProcSlot(procs[..], 0) < MAX_PROCESSES && nextPid > 0
      modifies this`nextPid, tasks, procs
      ensures Shape() && (K(), pid) == Spawn(old(K()), Loaded(d, root, start, sp, stack))
    {
      hide T.CreateTask, ProcSlot;
      ghost var k := K();
      pid := nextPid;
      nextPid := nextPid + 1;
      var tid := CreateTask(pid, UserSpace(d), root, ForUser(start, sp), stack);
      if tid < 0 { return -1; }
      procs[slot] := Process(true, pid, UserSpace(d), tid, false, 0, false);
      assert procs[..] == Spawn(k, Loaded(d, root, start, sp, stack)).0.procs;
    }

    /** The rest of process_spawn_from_elf: the process enters the tables, or its space goes. */
    method FinishSpawn(slot: nat, d: nat, root: nat, start: nat, sp: nat, stack: nat, ghost node: map<PT.Node, nat>)
      returns (pid: int)
      requires Shape() && loader.Valid() && Core(K()) && Coupled(K(), node) && NewIn(node, Nodes(), d, root)
      requires current >= 0 ==> Live(tasks[current]) && cr3 == RootFor(tasks[current])
      requires slot == ProcSlot(procs[..], 0) < MAX_PROCESSES
      modifies this`nextPid, tasks, procs
      modifies loader.vm`node, loader.vm.pmm`freePages, loader.vm.pmm`free, loader.vm.pmm.bitmap
      ensures Tied() && Spawned(old(K()), Loaded(d, root, start, sp, stack), K(), pid)
      ensures Now() == if pid < 0 then U.Dropped(old(Now()), d) else old(Now())
      ensures U.NoNewHuge(old(Now()), Now())
    {
      U.ExtendsItself(Now());
      hide U.NoNewHuge, Elf.Loader.Valid, Coupled, Core, Spawn, ProcSlot, NewIn, Spawned;
      ghost var k, image := K(), Loaded(d, root, start, sp, stack);
      SpawnAdds(k, node, Nodes(), image);
      pid := EnterProcess(slot, d, root, start, sp, stack);
      if pid < 0 {
        SpawnFails(k, node, Nodes(), image);
        loader.DropSpace(d);
      } else {
        SpawnCoupled(k, node, Nodes(), image);
      }
    }

    /** process_spawn_from_elf; stack is the answer of kmalloc for the task's kernel stack. */
    method SpawnFromElf(b: seq<Byte>, stack: nat)
      returns (r: Elf.Progress, pid: int, ghost image: Image, ghost done: nat)
      requires Tied() && Core(K()) && (current >= 0 ==> Live(tasks[current]))
      requires |b| < U64 && Img.NoWrap(b) && L.ClearOfHuge(Now(), PT.Kernel, b)
      modifies this`nextPid, tasks, procs
      modifies loader.vm`mem, loader.vm`node, loader.vm.pmm`freePages, loader.vm.pmm`free, loader.vm.pmm.bitmap
      ensures r.Panicked? || (Tied() && Spawned(old(K()), image, K(), pid))
      ensures r.Panicked? || (U.NoNewHuge(old(Now()), Now()) && L.SpawnEffect(old(Now()), Now(), b, done))
      ensures r.Fine? ==>
                && pid > 0 && image.Loaded? && L.Ready(old(Now()), Now(), PT.User(image.d), b)
                && done == Img.Phnum(b) && image.start == Img.EntryPoint(b) && image.sp == U.STACK_TOP
      ensures r.Rejected? ==> pid < 0
    {
      ghost var s0 := Now();
      Elf.NothingSpawned(s0, b);
      hide U.NoNewHuge, Elf.Loader.Valid, Coupled, Core, L.Ready, Img.NoWrap, L.ClearOfHuge, NewIn, ProcSlot, Spawned;
      hide U.SameSpaces, Tied, L.SpawnEffect;
      image, pid, done := Nothing, -1, 0;
      TiedParts();
      ghost var k, node := K(), Nodes();
      SpawnNothing(k);
      var slot := AllocProcessSlot();
      if slot < 0 { return Elf.Rejected, -1, image, 0; }
      loader.SoundNow();
      var d, root, start, sp;
      r, d, root, start, sp, done := loader.MakeSpace(b);
      if r.Rejected? {
        CoupledGrows(k, node, Nodes());
        TieUp();
      }
      if !r.Fine? { return; }
      image := Loaded(d, root, start, sp, stack);
      NewInIs(node, Nodes(), d, root);
      ghost var made := Now();
      loader.SoundNow();
      Elf.DropMade(s0, loader.vm.pmm.totalPages, made, d, b, done);
      pid := FinishSpawn(slot, d, root, start, sp, stack, node);
      U.HugeOn(s0, made, Now());
      SpawnedPid(k, image, K(), pid);
      if pid < 0 { r := Elf.Rejected; }
    }

    lemma TiedParts()
      requires Tied()
      ensures Shape() && loader.Valid() && Coupled(K(), loader.vm.node)
      ensures (current >= 0 ==> cr3 == RootFor(tasks[current]))
    {
    }

    lemma TieUp()
      requires Shape() && loader.Valid() && Coupled(K(), loader.vm.node)
      requires (current >= 0 ==> cr3 == RootFor(tasks[current]))
      ensures Tied()
    {
    }
  }

  /** Space d, with root table f, is the one space that node' has and node has not. */
  ghost predicate NewIn(node: map<PT.Node, nat>, node': map<PT.Node, nat>, d: nat, f: nat) {
    && PT.Root(PT.User(d)) !in node && PT.Root(PT.User(d)) in node' && node'[PT.Root(PT.User(d))] == f && f != 0
    && forall t :: t != PT.User(d) ==> U.SameSpace(node, node', t)
  }

  lemma NewInIs(node: map<PT.Node, nat>, node': map<PT.Node, nat>, d: nat, f: nat)
    requires PT.Root(PT.User(d)) !in node && PT.Root(PT.User(d)) in node' && node'[PT.Root(PT.User(d))] == f != 0
    requires forall t :: t != PT.User(d) ==> U.SameSpace(node, node', t)
    ensures NewIn(node, node', d, f)
  {
  }

  /** r and pid are what process_spawn_from_elf makes of k with a new image. */
  ghost predicate Spawned(k: Kernel, image: Image, r: Kernel, pid: int) {
    Core(k) && FreshImage(k, image) && (r, pid) == Spawn(k, image) && Core(r) && OnlyAdds(k, r)
  }

  lemma SpawnNothing(k: Kernel)
    requires Core(k)
    ensures Spawned(k, Nothing, k, -1)
  {
    SpawnCore(k, Nothing);
  }

  lemma SpawnedPid(k: Kernel, image: Image, r: Kernel, pid: int)
    requires Spawned(k, image, r, pid)
    ensures pid == -1 || pid > 0
  {
  }

  lemma SpawnAdds(k: Kernel, node: map<PT.Node, nat>, node': map<PT.Node, nat>, image: Image)
    requires Core(k) && Coupled(k, node) && image.Loaded? && NewIn(node, node', image.d, image.cr3)
    ensures var (r, pid) := Spawn(k, image);
            Spawned(k, image, r, pid) && k.nextPid > 0 && PT.Root(PT.User(image.d)) in node'
    ensures k.current >= 0 && Live(k.tasks[k.current]) ==> Spawn(k, image).0.tasks[k.current] == k.tasks[k.current]
  {
    forall j | 0 <= j < |k.procs| && k.procs[j].used ensures k.procs[j].space != UserSpace(image.d) {
      assert !Has(k.procs[j], image.d);
    }
    SpawnCore(k, image);
  }

  /** When no task could be made, the space is dropped again and nothing is held anew. */
  lemma SpawnFails(k: Kernel, node: map<PT.Node, nat>, node': map<PT.Node, nat>, image: Image)
    requires Core(k) && Coupled(k, node) && image.Loaded? && NewIn(node, node', image.d, image.cr3)
    requires Spawn(k, image).1 < 0 && ProcSlot(k.procs, 0) < |k.procs|
    ensures Coupled(Spawn(k, image).0, PT.Without(node', PT.User(image.d)))
  {
    var m := PT.Without(node', PT.User(image.d));
    forall t ensures U.SameSpace(node, m, t) { assert t != PT.User(image.d) ==> U.SameSpace(node, node', t); }
    CoupledGrows(k, node, m);
    CoupledKept(k, Spawn(k, image).0, m);
  }

  lemma SpawnCoupled(k: Kernel, node: map<PT.Node, nat>, node': map<PT.Node, nat>, image: Image)
    requires Core(k) && Coupled(k, node) && image.Loaded? && NewIn(node, node', image.d, image.cr3)
    requires Spawn(k, image).1 >= 0 && ProcSlot(k.procs, 0) < |k.procs|
    ensures Coupled(Spawn(k, image).0, node')
  {
    var r, s, c := Spawn(k, image).0, ProcSlot(k.procs, 0), FreeSlot(k.tasks);
    assert Has(r.procs[s], image.d);
    forall d: nat | d != image.d
      ensures PT.Root(PT.User(d)) in node' <==> exists j :: 0 <= j < |r.procs| && Has(r.procs[j], d)
    {
      assert U.SameSpace(node, node', PT.User(d));
      assert forall j :: 0 <= j < |r.procs| ==> (Has(r.procs[j], d) <==> Has(k.procs[j], d));
    }
    forall i | 0 <= i < |r.tasks| && Live(r.tasks[i]) && r.tasks[i].isUser ensures RootOk(r.tasks[i], node') {
      if i != c {
        assert RootOk(k.tasks[i], node);
        assert k.tasks[i].space.d != image.d && U.SameSpace(node, node', PT.User(k.tasks[i].space.d));
      }
    }
  }

  lemma Current(k: Kernel)
    requires Inv(k, IDLE)
    ensures k.current >= 0
  {
  }

  /** A user task that exits leaves a state from which the scan finds another. */
  lemma ExitStops(k: Kernel, code: int)
    requires Inv(k, IDLE) && k.tasks[k.current].isUser
    ensures var r := Exited(k, code); Between(r, IDLE) && NoNewHold(k, r) && r.slice < TICKS_PER_SLICE
  {
    ExitBetween(k, IDLE, code);
    assert k.tasks[k.current].state == Running;
  }

  lemma BetweenCore(k: Kernel)
    requires Between(k, IDLE)
    ensures Core(k)
  {
  }

  lemma BetweenSlice(k: Kernel, slice: nat)
    requires Between(k, IDLE)
    ensures Between(k.(slice := slice), IDLE)
  {
    CoreScalars(k, k.current, slice, k.switches);
  }

  /** The task that is chosen passes the checks of task_switch_address_space. */
  lemma PickedRoot(k: Kernel, rsp: nat)
    requires Between(k, IDLE)
    ensures var a := PutAway(Reap(k), rsp);
            var n := Pick(a.tasks, a.current);
            n >= 0 && a.tasks[n].isUser ==> a.tasks[n].space != NoSpace && a.tasks[n].cr3 != 0
  {
    PutAwayKeeps(k, IDLE, rsp);
    var a := PutAway(Reap(k), rsp);
    PickNearest(a.tasks, a.current);
    if Pick(a.tasks, a.current) >= 0 { assert TaskOk(a, Pick(a.tasks, a.current)); }
  }

  lemma TickHolds(k: Kernel, slice: nat)
    ensures NoNewHold(k, k.(slice := slice))
  {
  }

  /** The current task stops: it waits, or may be chosen again. */
  lemma Resting(k: Kernel, s: State)
    requires Inv(k, IDLE) && (s == Runnable || (s == Waiting && k.current != IDLE))
    ensures var r := SetTask(k, k.current, k.tasks[k.current].(state := s)); Between(r, IDLE) && NoNewHold(k, r)
  {
    TouchTask(k, k.current, k.tasks[k.current].(state := s));
  }

  lemma ReapedNone(node: map<PT.Node, nat>, procs: seq<Process>, here: Space)
    ensures Reaped(node, procs, here, 0) == node
  {
  }

  lemma ReapedNext(node: map<PT.Node, nat>, procs: seq<Process>, here: Space, i: nat)
    requires i < |procs|
    ensures Reaped(node, procs, here, i + 1) ==
            if Doomed(procs[i], here) && procs[i].space.UserSpace?
            then PT.Without(Reaped(node, procs, here, i), PT.User(procs[i].space.d))
            else Reaped(node, procs, here, i)
  {
  }
}
