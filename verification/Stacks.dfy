/** The kernel stacks of tasks as blocks of the kernel heap: kernel/scheduler/task.c calls
    kmalloc for each new task and kfree when a zombie's slot is used again. */
module Stacks {
  import opened Words
  import opened T = Tasks
  import opened Lifecycle
  import Runs = SchedulerRuns
  import H = Heap

  datatype World = World(kernel: Kernel, heap: seq<H.Block>)

  /** Block b is a live block of the heap, with its payload at p and room for a stack. */
  ghost predicate IsStack(heap: seq<H.Block>, p: nat, b: H.Block) {
    b in H.Live(heap) && b.addr + H.HEADER == p && b.size >= STACK_SIZE
  }

  ghost predicate HasStack(heap: seq<H.Block>, p: nat) {
    exists b :: IsStack(heap, p, b)
  }

  /** Every live task has a stack, every stack is a live block, and no two tasks share one. */
  ghost predicate StacksOk(tasks: seq<Task>, heap: seq<H.Block>) {
    && (forall i :: 0 <= i < |tasks| && Live(tasks[i]) ==> tasks[i].stack != 0)
    && (forall i :: 0 <= i < |tasks| && tasks[i].stack != 0 ==> HasStack(heap, tasks[i].stack))
    && (forall i, j :: 0 <= i < j < |tasks| && tasks[i].stack != 0 ==> tasks[i].stack != tasks[j].stack)
  }

  /** So the stacks of two tasks share no byte. */
  lemma StacksDisjoint(tasks: seq<Task>, heap: seq<H.Block>, i: nat, j: nat)
    requires StacksOk(tasks, heap) && H.Apart(heap) && i < |tasks| && j < |tasks| && i != j
    requires tasks[i].stack != 0 && tasks[j].stack != 0
    ensures tasks[i].stack + STACK_SIZE <= tasks[j].stack || tasks[j].stack + STACK_SIZE <= tasks[i].stack
  {
    var b :| IsStack(heap, tasks[i].stack, b);
    var c :| IsStack(heap, tasks[j].stack, c);
    H.LiveApart(heap);
    var x :| 0 <= x < |H.Live(heap)| && H.Live(heap)[x] == b;
    var y :| 0 <= y < |H.Live(heap)| && H.Live(heap)[y] == c;
    hide H.Live, H.Apart, HasStack;
    if x < y { H.ApartPair(H.Live(heap), x, y); } else { H.ApartPair(H.Live(heap), y, x); }
  }

  // ------------------------------------------------------------------ the calls

  /** The index of the block that find_free_slot frees, if it frees one. */
  function StackIndex(heap: seq<H.Block>, p: nat): nat {
    if p < H.HEADER then |heap| else H.IndexOf(heap, p - H.HEADER)
  }

  /** find_free_slot frees the stack of the zombie whose slot it returns. */
  predicate Recycles(tasks: seq<Task>) {
    FreeSlot(tasks) < |tasks| && tasks[FreeSlot(tasks)].stack != 0
  }

  /** The heap when a slot has been found. */
  function Recycled(tasks: seq<Task>, heap: seq<H.Block>): seq<H.Block> {
    if Recycles(tasks) && StackIndex(heap, tasks[FreeSlot(tasks)].stack) < |heap|
    then H.Free(heap, StackIndex(heap, tasks[FreeSlot(tasks)].stack)) else heap
  }

  /** The kfree of find_free_slot merges only blocks that touch. */
  predicate RecycleSafe(tasks: seq<Task>, heap: seq<H.Block>) {
    var i := if Recycles(tasks) then StackIndex(heap, tasks[FreeSlot(tasks)].stack) else |heap|;
    i < |heap| && !heap[i].free ==> H.MergesTouch(H.Freed(heap, i))
  }

  lemma StackRequest()
    ensures STACK_SIZE < U64 && H.Sane(STACK_SIZE)
  {
  }

  /** task_create_kernel and task_create_user with their heap calls; extent is where the
      frame allocator would put a new extent. */
  function Create(w: World, pid: int, space: Space, cr3: nat, how: Mode, extent: nat): World
    requires Shaped(w.kernel)
  {
    StackRequest();
    if FreeSlot(w.kernel.tasks) == |w.kernel.tasks| then w
    else
      var heap := Recycled(w.kernel.tasks, w.heap);
      World(CreateTask(w.kernel, pid, space, cr3, how, H.Pointer(heap, STACK_SIZE, extent)).0,
            H.Malloc(heap, STACK_SIZE, extent).0)
  }

  /** The heap calls of a creation are ones that the code follows. */
  predicate CreateSafe(w: World, extent: nat) {
    StackRequest();
    && extent % PAGE_SIZE == 0 && RecycleSafe(w.kernel.tasks, w.heap)
    && H.Safe(Recycled(w.kernel.tasks, w.heap), H.KMalloc(STACK_SIZE, extent))
  }

  /** The zombie's stack goes, every other task keeps its own. */
  lemma RecycledOk(tasks: seq<Task>, heap: seq<H.Block>)
    requires StacksOk(tasks, heap) && H.Good(heap) && RecycleSafe(tasks, heap) && FreeSlot(tasks) < |tasks|
    ensures H.Good(Recycled(tasks, heap))
    ensures StacksOk(tasks[FreeSlot(tasks) := tasks[FreeSlot(tasks)].(stack := 0)], Recycled(tasks, heap))
  {
    var c, s := FreeSlot(tasks), Recycled(tasks, heap);
    hide FreeSlot, H.Free, H.MergesTouch, H.Apart, H.Aligned, H.Pairs, H.Live;
    if tasks[c].stack != 0 {
      var b :| IsStack(heap, tasks[c].stack, b);
      H.FindLive(heap, b);
      var i := StackIndex(heap, tasks[c].stack);
      assert heap[i] == b;
      H.DoKeeps(heap, H.KFree(i));
      H.DoApart(heap, H.KFree(i));
      forall j | 0 <= j < |tasks| && j != c && tasks[j].stack != 0 ensures HasStack(s, tasks[j].stack) {
        var d :| IsStack(heap, tasks[j].stack, d);
        H.FreeSpares(heap, i, d);
        assert IsStack(s, tasks[j].stack, d);
      }
    }
  }

  /** A creation gives the new task a stack of its own and leaves every other one alone. */
  lemma CreateKeeps(w: World, pid: int, space: Space, cr3: nat, how: Mode, extent: nat)
    requires Shaped(w.kernel) && StacksOk(w.kernel.tasks, w.heap) && H.Good(w.heap) && CreateSafe(w, extent)
    ensures var r := Create(w, pid, space, cr3, how, extent); StacksOk(r.kernel.tasks, r.heap) && H.Good(r.heap)
  {
    StackRequest();
    var k, c := w.kernel, FreeSlot(w.kernel.tasks);
    if c < |k.tasks| {
      RecycledOk(k.tasks, w.heap);
      var heap, tasks := Recycled(k.tasks, w.heap), k.tasks[c := k.tasks[c].(stack := 0)];
      hide FreeSlot, Recycled, H.Malloc, H.Pointer, H.Safe, H.Good, H.Live;
      MallocGood(heap, extent);
      var r := Create(w, pid, space, cr3, how, extent);
      GiveStack(tasks, heap, extent, c, r.kernel.tasks[c]);
      assert r.kernel.tasks == tasks[c := r.kernel.tasks[c]];
    }
  }

  lemma MallocGood(heap: seq<H.Block>, extent: nat)
    requires H.Good(heap) && extent % PAGE_SIZE == 0 && H.Sane(STACK_SIZE)
    requires H.Safe(heap, H.KMalloc(STACK_SIZE, extent))
    ensures H.Good(H.Malloc(heap, STACK_SIZE, extent).0)
  {
    hide H.Apart, H.Aligned, H.Pairs, H.Safe, H.Malloc, H.Sane;
    H.DoKeeps(heap, H.KMalloc(STACK_SIZE, extent));
    H.DoApart(heap, H.KMalloc(STACK_SIZE, extent));
  }

  lemma GiveStack(tasks: seq<Task>, heap: seq<H.Block>, extent: nat, c: nat, t: Task)
    requires StacksOk(tasks, heap) && H.Good(heap) && c < |tasks| && tasks[c].stack == 0 && !Live(tasks[c])
    requires extent % PAGE_SIZE == 0 && H.Sane(STACK_SIZE) && H.Safe(heap, H.KMalloc(STACK_SIZE, extent))
    requires t.stack == H.Pointer(heap, STACK_SIZE, extent) && (t.stack == 0 ==> !Live(t))
    ensures StacksOk(tasks[c := t], H.Malloc(heap, STACK_SIZE, extent).0)
  {
    hide H.Apart, H.Aligned, H.Pairs, H.Safe, H.Malloc, H.Sane, H.Pointer, H.Live;
    var s := H.Malloc(heap, STACK_SIZE, extent).0;
    forall i | 0 <= i < |tasks| && i != c && tasks[i].stack != 0 ensures HasStack(s, tasks[i].stack) {
      var d :| IsStack(heap, tasks[i].stack, d);
      H.MallocSpares(heap, STACK_SIZE, extent, d);
      assert IsStack(s, tasks[i].stack, d);
    }
    if t.stack != 0 {
      var b := H.MallocGives(heap, STACK_SIZE, extent);
      assert IsStack(s, t.stack, b);
      forall i | 0 <= i < |tasks| && i != c && tasks[i].stack != 0 ensures tasks[i].stack != t.stack {
        var d :| IsStack(heap, tasks[i].stack, d);
      }
    }
  }

  // ---------------------------------------------------------------------- runs

  /** A call of the scheduler or the process table, with the place of a new extent should
      it need one, or a heap call that some other part of the kernel makes. */
  datatype Event = Sched(c: Runs.Call, extent: nat) | Other(h: H.Call)

  /** The call gets as far as find_free_slot and kmalloc. */
  predicate Creates(k: Kernel, c: Runs.Call) {
    && FreeSlot(k.tasks) < |k.tasks|
    && (c.NewKernelTask? || (c.SpawnImage? && c.image.Loaded? && ProcSlot(k.procs, 0) < |k.procs|))
  }

  /** The stack that the call was given. */
  function Given(c: Runs.Call): nat {
    if c.NewKernelTask? then c.stack else if c.SpawnImage? && c.image.Loaded? then c.image.stack else 0
  }

  ghost predicate Step(w: World, idle: nat, e: Event, w': World) {
    match e
    case Other(h) =>
      && H.Allowed(w.heap, h) && H.Safe(w.heap, h) && w' == World(w.kernel, H.Do(w.heap, h))
      && (h.KFree? ==> forall i :: 0 <= i < |w.kernel.tasks| ==>
           w.kernel.tasks[i].stack != w.heap[h.index].addr + H.HEADER)
    case Sched(c, extent) =>
      && Shaped(w.kernel) && w.kernel.current >= 0 && Runs.Allowed(w.kernel, idle, c)
      && w'.kernel == Runs.Do(w.kernel, c)
      && if Creates(w.kernel, c) then Served(w, c, extent, w'.heap) else w'.heap == w.heap
  }

  /** The stack that the call was given is what kmalloc answers on this heap. */
  ghost predicate Served(w: World, c: Runs.Call, extent: nat, heap: seq<H.Block>)
    requires Shaped(w.kernel)
  {
    StackRequest();
    && CreateSafe(w, extent) && Given(c) == H.Pointer(Recycled(w.kernel.tasks, w.heap), STACK_SIZE, extent)
    && heap == H.Malloc(Recycled(w.kernel.tasks, w.heap), STACK_SIZE, extent).0
  }

  ghost predicate StepAt(ws: seq<World>, es: seq<Event>, idle: nat, n: nat)
    requires |ws| == |es| + 1 && n < |es|
  {
    Step(ws[n], idle, es[n], ws[n + 1])
  }

  ghost predicate Holds(w: World, idle: nat) {
    Inv(w.kernel, idle) && StacksOk(w.kernel.tasks, w.heap) && H.Good(w.heap)
  }

  ghost predicate Run(ws: seq<World>, es: seq<Event>, idle: nat) {
    |ws| == |es| + 1 && Holds(ws[0], idle) && forall n :: 0 <= n < |es| ==> StepAt(ws, es, idle, n)
  }

  /** No stack changes hands and no task comes to life. */
  ghost predicate StacksStay(k: Kernel, r: Kernel) {
    && |r.tasks| == |k.tasks|
    && forall i :: 0 <= i < |k.tasks| ==>
         r.tasks[i].stack == k.tasks[i].stack && (Live(r.tasks[i]) ==> Live(k.tasks[i]))
  }

  lemma StayOk(k: Kernel, r: Kernel, heap: seq<H.Block>)
    requires StacksStay(k, r) && StacksOk(k.tasks, heap)
    ensures StacksOk(r.tasks, heap)
  {
    hide HasStack;
  }

  lemma SwitchStays(k: Kernel, idle: nat, rsp: nat)
    requires Between(k, idle) && k.slice < TICKS_PER_SLICE
    ensures StacksStay(k, SwitchFrom(k, rsp).0)
  {
    SwitchKeeps(k, idle, rsp);
  }

  lemma TickStays(k: Kernel, idle: nat, rsp: nat)
    requires Between(k, idle) && k.slice < TICKS_PER_SLICE && k.current >= 0
    ensures StacksStay(k, Tick(k, rsp).0)
  {
    if !(k.tasks[k.current].state == Running && k.slice + 1 < TICKS_PER_SLICE) {
      CoreScalars(k, k.current, 0, k.switches);
      SwitchStays(k.(slice := 0), idle, rsp);
    }
  }

  lemma SleepStays(k: Kernel, idle: nat, rsp: nat)
    requires Inv(k, idle) && k.current != idle
    ensures StacksStay(k, Sleep(k, rsp).0)
  {
    var t := k.tasks[k.current].(state := Waiting);
    TouchTask(k, k.current, t);
    TickStays(SetTask(k, k.current, t), idle, rsp);
  }

  lemma YieldStays(k: Kernel, idle: nat, rsp: nat)
    requires Inv(k, idle)
    ensures StacksStay(k, SysYield(k, rsp).0)
  {
    var t := k.tasks[k.current].(state := Runnable);
    TouchTask(k, k.current, t);
    SwitchStays(SetTask(k, k.current, t), idle, rsp);
  }

  lemma ExitStays(k: Kernel, idle: nat, code: int, rsp: nat)
    requires Inv(k, idle) && k.tasks[k.current].isUser
    ensures StacksStay(k, SysExit(k, code, rsp).0)
  {
    ExitBetween(k, idle, code);
    SwitchStays(Exited(k, code), idle, rsp);
    assert StacksStay(k, Exited(k, code));
  }

  /** Every call that creates no task leaves the stacks where they are. */
  lemma CallStays(k: Kernel, idle: nat, c: Runs.Call)
    requires Inv(k, idle) && Runs.Allowed(k, idle, c) && !Creates(k, c)
    ensures StacksStay(k, Runs.Do(k, c))
  {
    hide Tick, Sleep, SysExit, SysYield, Inv;
    Current(k, idle);
    match c
    case TimerTick(rsp) => TickStays(k, idle, rsp);
    case GoToSleep(rsp) => SleepStays(k, idle, rsp);
    case WakeUp(_) =>
    case NewKernelTask(_, _, _) =>
    case SpawnImage(_) =>
    case KillProcess(_, _) =>
    case WaitFor(_) =>
    case ReapNow =>
    case ExitProcess(code, rsp) => ExitStays(k, idle, code, rsp);
    case YieldCpu(rsp) => YieldStays(k, idle, rsp);
  }

  lemma Current(k: Kernel, idle: nat)
    requires Inv(k, idle)
    ensures Between(k, idle) && k.slice < TICKS_PER_SLICE && k.current >= 0
  {
  }

  /** A call that creates a task does to the task table what Create does. */
  lemma CallCreates(w: World, idle: nat, c: Runs.Call, extent: nat, heap: seq<H.Block>)
    requires Shaped(w.kernel) && w.kernel.current >= 0 && Creates(w.kernel, c) && Served(w, c, extent, heap)
    requires StacksOk(w.kernel.tasks, w.heap) && H.Good(w.heap)
    ensures StacksOk(Runs.Do(w.kernel, c).tasks, heap) && H.Good(heap)
  {
    var k := w.kernel;
    hide StacksOk, H.Good, FreeSlot, CreateSafe, H.Malloc, H.Pointer, Recycled, ProcSlot;
    if c.NewKernelTask? {
      CreateKeeps(w, 0, KernelSpace, c.cr3, InKernel(c.entry), extent);
    } else {
      SpawnStacks(w, c.image, extent, heap);
    }
  }

  lemma SpawnStacks(w: World, image: Image, extent: nat, heap: seq<H.Block>)
    requires Shaped(w.kernel) && Creates(w.kernel, Runs.SpawnImage(image))
    requires Served(w, Runs.SpawnImage(image), extent, heap) && StacksOk(w.kernel.tasks, w.heap) && H.Good(w.heap)
    ensures StacksOk(Spawn(w.kernel, image).0.tasks, heap) && H.Good(heap)
  {
    var k := w.kernel;
    hide StacksOk, H.Good, FreeSlot, CreateSafe, H.Malloc, H.Pointer, Recycled, ProcSlot;
    var v := World(k.(nextPid := k.nextPid + 1), w.heap);
    assert CreateSafe(v, extent) by { SafeTables(w, v, extent); }
    CreateKeeps(v, k.nextPid, UserSpace(image.d), image.cr3, ForUser(image.start, image.sp), extent);
  }

  lemma SafeTables(w: World, v: World, extent: nat)
    requires CreateSafe(w, extent) && v.heap == w.heap && v.kernel.tasks == w.kernel.tasks
    ensures CreateSafe(v, extent)
  {
  }

  lemma StepKeeps(w: World, idle: nat, e: Event, w': World)
    requires Holds(w, idle) && Step(w, idle, e, w')
    ensures Holds(w', idle)
  {
    hide StacksOk, Inv, H.Good, H.Safe, H.Do, Served, Creates;
    match e
    case Other(h) => OtherKeeps(w, h);
    case Sched(c, extent) =>
      Runs.DoKeeps(w.kernel, idle, c);
      if Creates(w.kernel, c) {
        CallCreates(w, idle, c, extent, w'.heap);
      } else {
        CallStays(w.kernel, idle, c);
        StayOk(w.kernel, w'.kernel, w.heap);
      }
  }

  lemma OtherKeeps(w: World, h: H.Call)
    requires StacksOk(w.kernel.tasks, w.heap) && H.Good(w.heap) && H.Allowed(w.heap, h) && H.Safe(w.heap, h)
    requires h.KFree? ==> forall i :: 0 <= i < |w.kernel.tasks| ==>
               w.kernel.tasks[i].stack != w.heap[h.index].addr + H.HEADER
    ensures StacksOk(w.kernel.tasks, H.Do(w.heap, h)) && H.Good(H.Do(w.heap, h))
  {
    hide H.Apart, H.Aligned, H.Pairs, H.Safe, H.Malloc, H.Live, H.Free;
    H.DoKeeps(w.heap, h);
    H.DoApart(w.heap, h);
    forall i | 0 <= i < |w.kernel.tasks| && w.kernel.tasks[i].stack != 0
      ensures HasStack(H.Do(w.heap, h), w.kernel.tasks[i].stack)
    {
      var b :| IsStack(w.heap, w.kernel.tasks[i].stack, b);
      match h {
        case KMalloc(request, extent) => H.MallocSpares(w.heap, request, extent, b);
        case KFree(j) => H.FreeSpares(w.heap, j, b);
      }
      assert IsStack(H.Do(w.heap, h), w.kernel.tasks[i].stack, b);
    }
  }

  /** In every state of every run whose heap calls the code follows, each live task has a
      stack of its own, a live heap block that overlaps no other task's. */
  lemma {:induction false} RunKeeps(ws: seq<World>, es: seq<Event>, idle: nat, n: nat)
    requires Run(ws, es, idle) && n <= |es|
    ensures Holds(ws[n], idle)
    decreases n
  {
    hide Holds, Step;
    if n > 0 {
      assert StepAt(ws, es, idle, n - 1);
      RunKeeps(ws, es, idle, n - 1);
      StepKeeps(ws[n - 1], idle, es[n - 1], ws[n]);
    }
  }

  // ---------------------------------------------------------------------- boot

  /** A spawn at boot, whichever way it ends. */
  ghost predicate BootSpawn(w: World, image: Image, extent: nat, w': World) {
    && Shaped(w.kernel) && FreshImage(w.kernel, image) && w'.kernel == Spawn(w.kernel, image).0
    && if Creates(w.kernel, Runs.SpawnImage(image)) then Served(w, Runs.SpawnImage(image), extent, w'.heap)
       else w'.heap == w.heap
  }

  /** Before the first schedule(): the shell can be entered, and the stacks are in order. */
  ghost predicate Booting(w: World) {
    && Core(w.kernel) && Between(w.kernel, 1) && w.kernel.current == -1 && w.kernel.slice == 0
    && Ready(w.kernel.tasks[0]) && StacksOk(w.kernel.tasks, w.heap) && H.Good(w.heap)
  }

  /** The shell and the idle task, when kmalloc has given both a stack. */
  lemma BootTasks(heap: seq<H.Block>, cr3: nat, e: nat, f: nat)
    requires H.Good(heap) && CreateSafe(World(Initial(), heap), e)
    requires var a := Create(World(Initial(), heap), 0, KernelSpace, cr3, InKernel(ShellTask), e);
             && Live(a.kernel.tasks[0]) && Shaped(a.kernel) && CreateSafe(a, f)
             && Live(Create(a, 0, KernelSpace, cr3, InKernel(IdleTask), f).kernel.tasks[1])
    ensures var a := Create(World(Initial(), heap), 0, KernelSpace, cr3, InKernel(ShellTask), e);
            Booting(Create(a, 0, KernelSpace, cr3, InKernel(IdleTask), f))
  {
    StackRequest();
    var i := World(Initial(), heap);
    NoStacks(heap);
    CreateKeeps(i, 0, KernelSpace, cr3, InKernel(ShellTask), e);
    var a := Create(i, 0, KernelSpace, cr3, InKernel(ShellTask), e);
    CreateKeeps(a, 0, KernelSpace, cr3, InKernel(IdleTask), f);
    var w := Create(a, 0, KernelSpace, cr3, InKernel(IdleTask), f);
    hide StacksOk, H.Good, H.Malloc, CreateSafe, Recycled, H.Pointer;
    var x := H.Pointer(Recycled(Initial().tasks, heap), STACK_SIZE, e);
    var y := H.Pointer(Recycled(a.kernel.tasks, a.heap), STACK_SIZE, f);
    KernelTasksReady(cr3, x, y);
    assert w.kernel == KernelTasks(cr3, x, y);
  }

  lemma NoStacks(heap: seq<H.Block>)
    ensures StacksOk(Initial().tasks, heap)
  {
  }

  lemma SpawnBoots(w: World, image: Image, extent: nat, w': World)
    requires Booting(w) && BootSpawn(w, image, extent, w')
    ensures Booting(w')
  {
    SpawnCore(w.kernel, image);
    hide StacksOk, H.Good, Served, HasStack;
    AddsBetween(w.kernel, w'.kernel);
    if Creates(w.kernel, Runs.SpawnImage(image)) {
      SpawnStacks(w, image, extent, w'.heap);
    } else {
      assert StacksStay(w.kernel, w'.kernel);
      StayOk(w.kernel, w'.kernel, w.heap);
    }
  }

  /** From task_init to the first schedule(): the shell, the idle task and the two user
      processes, whichever of them come to be, are in a state from which runs go. */
  lemma BootHolds(w: World, hello: Image, e: nat, w1: World, burn: Image, f: nat, w2: World)
    requires Booting(w) && BootSpawn(w, hello, e, w1) && BootSpawn(w1, burn, f, w2)
    ensures Holds(World(SwitchFrom(w2.kernel, 0).0, w2.heap), 1)
  {
    SpawnBoots(w, hello, e, w1);
    SpawnBoots(w1, burn, f, w2);
    Runs.ShellFirst(w2.kernel);
    SwitchStays(w2.kernel, 1, 0);
    StayOk(w2.kernel, SwitchFrom(w2.kernel, 0).0, w2.heap);
  }
}
