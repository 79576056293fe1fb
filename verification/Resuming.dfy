/** Where tasks go on: the stack pointers that context_switch_from saves and returns, when it
    stays with the current task, how long a slice lasts, and how long a sleep. */
module Resuming {
  import opened Words
  import opened Tasks
  import opened Lifecycle
  import opened SchedulerRuns
  import opened Results

  /** The stack pointer that the call returns for the interrupt exit to load, 0 for none. */
  function Returned(k: Kernel, c: Call): nat
    requires Shaped(k) && k.current >= 0
  {
    match c
    case TimerTick(rsp) => Tick(k, rsp).1
    case GoToSleep(rsp) => Sleep(k, rsp).1
    case ExitProcess(code, rsp) => SysExit(k, code, rsp).1
    case YieldCpu(rsp) => SysYield(k, rsp).1
    case _ => 0
  }

  /** The stack pointer that the interrupted task had when it made the call. */
  function RspOf(c: Call): nat {
    match c
    case TimerTick(rsp) => rsp
    case GoToSleep(rsp) => rsp
    case ExitProcess(_, rsp) => rsp
    case YieldCpu(rsp) => rsp
    case _ => 0
  }

  /** The kernel stack that the call was given for a new task. */
  function StackOf(c: Call): nat {
    match c
    case NewKernelTask(_, _, stack) => stack
    case SpawnImage(image) => if image.Loaded? then image.stack else 0
    case _ => 0
  }

  /** What the call made a new task for. */
  function ModeOf(c: Call): Mode {
    match c
    case NewKernelTask(_, entry, _) => InKernel(entry)
    case SpawnImage(image) => if image.Loaded? then ForUser(image.start, image.sp) else ForUser(0, 0)
    case _ => ForUser(0, 0)
  }

  // ----------------------------------------------------------------- one switch

  /** What a switch does: the task it leaves has the given stack pointer saved, the one it
      enters goes on at the pointer saved for it, and it stays, with answer 0, exactly if no
      other task is ready. */
  ghost predicate Switched(k: Kernel, rsp: nat, r: Kernel, next: nat)
    requires Shaped(k) && Shaped(r) && k.current >= 0 && r.current >= 0
  {
    && (r.current == k.current <==> forall t :: 0 <= t < MAX_TASKS && t != k.current ==> !Ready(k.tasks[t]))
    && next == (if r.current == k.current then 0 else k.tasks[r.current].rsp)
    && (r.current != k.current ==> Ready(k.tasks[r.current]) && r.tasks[k.current].rsp == rsp)
    && (forall t :: 0 <= t < MAX_TASKS && t != k.current ==> r.tasks[t].rsp == k.tasks[t].rsp)
    && (forall t :: 0 <= t < MAX_TASKS && t != k.current ==> (Live(r.tasks[t]) <==> Live(k.tasks[t])))
    && r.switches == k.switches + (if r.current == k.current then 0 else 1)
    && forall t :: 0 <= t < MAX_TASKS ==>
         r.tasks[t].timeslice
         == if t == r.current != k.current then (k.tasks[t].timeslice + 1) % U32 else k.tasks[t].timeslice
  }

  /** Going round from a task, it comes to itself last. */
  lemma SelfLast(current: int, t: nat)
    requires 0 <= current < MAX_TASKS && t < MAX_TASKS
    ensures Distance(current, current) == 15 && (t != current ==> Distance(current, t) < 15)
  {
    DistanceIs(current, t);
    DistanceIs(current, current);
    hide Distance;
  }

  /** The scan comes back to the current task exactly if no other one is ready. */
  lemma StaysIff(tasks: seq<Task>, current: int)
    requires |tasks| == MAX_TASKS && 0 <= current < MAX_TASKS && Pick(tasks, current) >= 0
    ensures Ready(tasks[Pick(tasks, current)])
    ensures Pick(tasks, current) == current <==>
            forall t :: 0 <= t < MAX_TASKS && t != current ==> !Ready(tasks[t])
  {
    PickNearest(tasks, current);
    hide Pick, Distance;
    forall t | 0 <= t < MAX_TASKS && t != current && Ready(tasks[t]) ensures Pick(tasks, current) != current {
      SelfLast(current, t);
    }
  }

  lemma PutAwaySaves(k: Kernel, rsp: nat)
    requires Shaped(k) && k.current >= 0
    ensures var a := PutAway(Reap(k), rsp);
            && Shaped(a) && a.current == k.current && a.switches == k.switches && a.tasks[k.current].rsp == rsp
            && a.tasks[k.current].timeslice == k.tasks[k.current].timeslice
            && forall t :: 0 <= t < MAX_TASKS && t != k.current ==> a.tasks[t] == k.tasks[t]
  {
  }

  lemma EnterResumes(k: Kernel, rsp: nat, a: Kernel, n: nat)
    requires Shaped(k) && Shaped(a) && k.current >= 0 && a.current == k.current && a.switches == k.switches
    requires a.tasks[k.current].rsp == rsp && a.tasks[k.current].timeslice == k.tasks[k.current].timeslice
    requires forall t :: 0 <= t < MAX_TASKS && t != k.current ==> a.tasks[t] == k.tasks[t]
    requires n < MAX_TASKS && Ready(a.tasks[n])
    requires n == k.current <==> forall t :: 0 <= t < MAX_TASKS && t != k.current ==> !Ready(a.tasks[t])
    ensures var (r, next) := Enter(a, n); Shaped(r) && r.current == n && Switched(k, rsp, r, next)
  {
  }

  lemma SwitchResumes(k: Kernel, idle: nat, rsp: nat)
    requires Between(k, idle) && k.current >= 0 && k.slice < TICKS_PER_SLICE
    ensures var (r, next) := SwitchFrom(k, rsp); Shaped(r) && r.current >= 0 && Switched(k, rsp, r, next)
  {
    SwitchKeeps(k, idle, rsp);
    PutAwaySaves(k, rsp);
    hide Between, Inv, PutAway, Reap, Pick, Enter, Switched;
    var a := PutAway(Reap(k), rsp);
    StaysIff(a.tasks, a.current);
    EnterResumes(k, rsp, a, Pick(a.tasks, a.current));
  }

  // ------------------------------------------------------------------- one call

  /** The state of the current task does not matter to what a switch does. */
  lemma SwitchedAlike(k: Kernel, a: Kernel, rsp: nat, r: Kernel, next: nat)
    requires Shaped(k) && Shaped(a) && Shaped(r) && k.current >= 0 && r.current >= 0
    requires a.current == k.current && a.switches == k.switches && Switched(a, rsp, r, next)
    requires a.tasks[k.current].timeslice == k.tasks[k.current].timeslice
    requires forall t :: 0 <= t < MAX_TASKS && t != k.current ==> a.tasks[t] == k.tasks[t]
    ensures Switched(k, rsp, r, next)
  {
  }

  /** The state from which a call switches. */
  function SwitchPoint(k: Kernel, c: Call): Kernel
    requires Shaped(k) && k.current >= 0
  {
    ReapPoint(k, c).(slice := if c.TimerTick? || c.GoToSleep? then 0 else k.slice)
  }

  lemma PointIs(k: Kernel, idle: nat, c: Call)
    requires Inv(k, idle) && Allowed(k, idle, c) && Switches(k, c) == 1
    ensures var a := SwitchPoint(k, c);
            && Shaped(a) && a.current == k.current && a.switches == k.switches
            && a.tasks[k.current].timeslice == k.tasks[k.current].timeslice
            && (forall t :: 0 <= t < MAX_TASKS && t != k.current ==> a.tasks[t] == k.tasks[t])
            && Do(k, c) == SwitchFrom(a, RspOf(c)).0 && Returned(k, c) == SwitchFrom(a, RspOf(c)).1
  {
    assert Shaped(k) && k.current >= 0 && k.tasks[k.current].state == Running;
    hide SwitchFrom, Core, FindPid;
  }

  /** A call that switches does so from a state with the same tasks but for the state of the
      current one. */
  lemma CallResumes(k: Kernel, idle: nat, c: Call)
    requires Inv(k, idle) && Allowed(k, idle, c)
    ensures Shaped(Do(k, c)) && Do(k, c).current >= 0
    ensures Switches(k, c) == 1 ==> Switched(k, RspOf(c), Do(k, c), Returned(k, c))
    ensures Switches(k, c) == 0 ==> Do(k, c).current == k.current && Returned(k, c) == 0
    ensures Switches(k, c) == 0 ==> Do(k, c).switches == k.switches
  {
    DoKeeps(k, idle, c);
    if Switches(k, c) == 1 {
      assert Shaped(k) && k.current >= 0 && Shaped(Do(k, c)) && Do(k, c).current >= 0;
      hide *;
      PointBetween(k, idle, c);
      PointIs(k, idle, c);
      SwitchResumes(SwitchPoint(k, c), idle, RspOf(c));
      SwitchedAlike(k, SwitchPoint(k, c), RspOf(c), Do(k, c), Returned(k, c));
    } else {
      StaysPut(k, idle, c);
    }
  }

  lemma StaysPut(k: Kernel, idle: nat, c: Call)
    requires Inv(k, idle) && Allowed(k, idle, c) && Switches(k, c) == 0
    ensures Do(k, c).current == k.current && Returned(k, c) == 0 && Do(k, c).switches == k.switches
  {
    hide Core, FreeSlot, ProcSlot, FindPid, FindVictim, SwitchFrom;
  }

  lemma PointBetween(k: Kernel, idle: nat, c: Call)
    requires Inv(k, idle) && Allowed(k, idle, c) && Switches(k, c) == 1
    ensures var a := SwitchPoint(k, c); Between(a, idle) && a.current >= 0 && a.slice < TICKS_PER_SLICE
  {
    ReapPointOk(k, idle, c);
    var r := ReapPoint(k, c);
    CoreScalars(r, r.current, if c.TimerTick? || c.GoToSleep? then 0 else k.slice, r.switches);
    hide Core;
  }

  /** The saved stack pointer of a live task that is not current: fresh from its creation,
      that of the call which left it, or as it was. */
  lemma SavedStep(k: Kernel, idle: nat, c: Call, t: nat)
    requires Inv(k, idle) && Allowed(k, idle, c) && t < MAX_TASKS
    requires Shaped(Do(k, c)) && t != Do(k, c).current && Live(Do(k, c).tasks[t])
    ensures var r := Do(k, c);
            if !Live(k.tasks[t]) then
              AtTop(r.tasks[t].rsp, StackOf(c)) && StartsAt(r.tasks[t].frame, ModeOf(c), StackOf(c))
            else r.tasks[t].rsp == if t == k.current then RspOf(c) else k.tasks[t].rsp
  {
    CallResumes(k, idle, c);
    hide Inv, Between, StartsAt;
    if Switches(k, c) == 0 {
      match c
      case NewKernelTask(cr3, entry, stack) => CreateAnswers(k, 0, KernelSpace, cr3, InKernel(entry), stack);
      case SpawnImage(image) => SpawnSaves(k, image, t);
      case _ =>
    }
  }

  /** A live task keeps the frame it was made with, whatever is called. */
  lemma FrameStays(k: Kernel, c: Call, t: nat)
    requires Shaped(k) && k.current >= 0 && t < MAX_TASKS && Live(k.tasks[t])
    ensures t < |Do(k, c).tasks| && Do(k, c).tasks[t].frame == k.tasks[t].frame
  {
    hide SwitchFrom, ProcSlot, FreeSlot;
    match c
    case TimerTick(rsp) => TickFrames(k, rsp, t);
    case GoToSleep(rsp) => TickFrames(SetTask(k, k.current, k.tasks[k.current].(state := Waiting)), rsp, t);
    case ExitProcess(code, rsp) =>
      var a := TaskExited(k, k.tasks[k.current].pid, code);
      SwitchFrames(SetTask(a, a.current, k.tasks[k.current].(exitCode := code, state := Zombie)), rsp, t);
    case YieldCpu(rsp) =>
      var u := k.tasks[k.current];
      var s := if u.state != Waiting && u.state != Zombie then Runnable else u.state;
      SwitchFrames(SetTask(k, k.current, u.(state := s)), rsp, t);
    case NewKernelTask(cr3, entry, stack) => CreateAnswers(k, 0, KernelSpace, cr3, InKernel(entry), stack);
    case SpawnImage(image) => if image.Loaded? { SpawnFrames(k, image, t); }
    case _ =>
  }

  lemma SpawnFrames(k: Kernel, image: Image, t: nat)
    requires Shaped(k) && t < MAX_TASKS && Live(k.tasks[t]) && image.Loaded?
    ensures Spawn(k, image).0.tasks[t] == k.tasks[t]
  {
    var how := ForUser(image.start, image.sp);
    CreateAnswers(k.(nextPid := k.nextPid + 1), k.nextPid, UserSpace(image.d), image.cr3, how, image.stack);
    hide CreateTask;
  }

  lemma TickFrames(k: Kernel, rsp: nat, t: nat)
    requires Shaped(k) && t < MAX_TASKS
    ensures t < |Tick(k, rsp).0.tasks| && Tick(k, rsp).0.tasks[t].frame == k.tasks[t].frame
  {
    SwitchFrames(k.(slice := 0), rsp, t);
    hide SwitchFrom;
  }

  lemma SwitchFrames(k: Kernel, rsp: nat, t: nat)
    requires Shaped(k) && t < MAX_TASKS
    ensures t < |SwitchFrom(k, rsp).0.tasks| && SwitchFrom(k, rsp).0.tasks[t].frame == k.tasks[t].frame
  {
    hide Pick;
  }

  lemma SpawnSaves(k: Kernel, image: Image, t: nat)
    requires Shaped(k) && t < MAX_TASKS && Live(Spawn(k, image).0.tasks[t])
    ensures var r := Spawn(k, image).0;
            if Live(k.tasks[t]) then r.tasks[t] == k.tasks[t]
            else
              && image.Loaded? && AtTop(r.tasks[t].rsp, image.stack)
              && StartsAt(r.tasks[t].frame, ForUser(image.start, image.sp), image.stack)
  {
    if image.Loaded? {
      var how := ForUser(image.start, image.sp);
      CreateAnswers(k.(nextPid := k.nextPid + 1), k.nextPid, UserSpace(image.d), image.cr3, how, image.stack);
    }
  }

  // ------------------------------------------------------------- over whole runs

  /** Step i of the run leaves task t. */
  predicate Leaves(ks: seq<Kernel>, i: nat, t: nat)
    requires i + 1 < |ks|
  {
    ks[i].current == t && ks[i + 1].current != t
  }

  /** Step i of the run brings task t to life. */
  predicate Begins(ks: seq<Kernel>, i: nat, t: nat)
    requires i + 1 < |ks|
  {
    t < |ks[i].tasks| && t < |ks[i + 1].tasks| && !Live(ks[i].tasks[t]) && Live(ks[i + 1].tasks[t])
  }

  /** Between the states m and n task t is live and not current. */
  ghost predicate Rests(ks: seq<Kernel>, m: nat, n: nat, t: nat)
    requires n < |ks|
  {
    forall i :: m <= i <= n ==> t < |ks[i].tasks| && Live(ks[i].tasks[t]) && ks[i].current != t
  }

  lemma {:induction false} RestsKeeps(ks: seq<Kernel>, cs: seq<Call>, idle: nat, m: nat, n: nat, t: nat)
    requires Run(ks, cs, idle) && m <= n <= |cs| && t < MAX_TASKS && Rests(ks, m, n, t)
    ensures ks[n].tasks[t].rsp == ks[m].tasks[t].rsp && ks[n].tasks[t].frame == ks[m].tasks[t].frame
    decreases n
  {
    if m < n {
      RestsKeeps(ks, cs, idle, m, n - 1, t);
      StepOf(ks, cs, idle, n - 1);
      assert Live(ks[n].tasks[t]) && Live(ks[n - 1].tasks[t]) && ks[n].current != t && ks[n - 1].current != t;
      hide Run, Rests, Do, Inv, Allowed;
      SavedStep(ks[n - 1], idle, cs[n - 1], t);
      FrameStays(ks[n - 1], cs[n - 1], t);
    }
  }

  lemma EntersAt(k: Kernel, idle: nat, c: Call)
    requires Inv(k, idle) && Allowed(k, idle, c) && Do(k, c).current != k.current
    ensures 0 <= Do(k, c).current < MAX_TASKS && Returned(k, c) == k.tasks[Do(k, c).current].rsp
  {
    CallResumes(k, idle, c);
  }

  /** A task that is entered again goes on exactly where it was left: the call returns the
      stack pointer that was given to the call which last left it. */
  lemma GoesOnWhereLeft(ks: seq<Kernel>, cs: seq<Call>, idle: nat, m: nat, n: nat, t: nat)
    requires Run(ks, cs, idle) && m < n < |cs| && t < MAX_TASKS && StepAt(ks, cs, idle, n)
    requires Leaves(ks, m, t) && Rests(ks, m + 1, n, t) && ks[n + 1].current == t
    ensures Returned(ks[n], cs[n]) == RspOf(cs[m])
  {
    hide *;
    RunLength(ks, cs, idle);
    LeftLive(ks, cs, idle, m, t);
    RestsAt(ks, m + 1, n, t, n);
    RestsAt(ks, m + 1, n, t, m + 1);
    StepOf(ks, cs, idle, m);
    StepOf(ks, cs, idle, n);
    RestsKeeps(ks, cs, idle, m + 1, n, t);
    SavedStep(ks[m], idle, cs[m], t);
    EntersAt(ks[n], idle, cs[n]);
  }

  lemma RestsAt(ks: seq<Kernel>, m: nat, n: nat, t: nat, i: nat)
    requires m <= i <= n < |ks| && Rests(ks, m, n, t)
    ensures t < |ks[i].tasks| && Live(ks[i].tasks[t]) && ks[i].current != t
  {
  }

  lemma LeftLive(ks: seq<Kernel>, cs: seq<Call>, idle: nat, m: nat, t: nat)
    requires Run(ks, cs, idle) && m < |cs| && Leaves(ks, m, t)
    ensures ks[m].current == t && t < |ks[m].tasks| && Live(ks[m].tasks[t])
  {
    StepOf(ks, cs, idle, m);
  }

  lemma BeganDead(ks: seq<Kernel>, m: nat, t: nat)
    requires m + 1 < |ks| && Begins(ks, m, t)
    ensures t < |ks[m].tasks| && !Live(ks[m].tasks[t])
  {
  }

  /** A task that is entered for the first time starts at the topmost frame of its stack, and
      that frame leads where the task was made to begin. */
  lemma StartsAtTop(ks: seq<Kernel>, cs: seq<Call>, idle: nat, m: nat, n: nat, t: nat)
    requires Run(ks, cs, idle) && m < n < |cs| && t < MAX_TASKS && StepAt(ks, cs, idle, n)
    requires Begins(ks, m, t) && Rests(ks, m + 1, n, t) && ks[n + 1].current == t
    ensures AtTop(Returned(ks[n], cs[n]), StackOf(cs[m]))
    ensures t < |ks[n].tasks| && StartsAt(ks[n].tasks[t].frame, ModeOf(cs[m]), StackOf(cs[m]))
  {
    hide *;
    RunLength(ks, cs, idle);
    BeganDead(ks, m, t);
    RestsAt(ks, m + 1, n, t, n);
    RestsAt(ks, m + 1, n, t, m + 1);
    StepOf(ks, cs, idle, m);
    StepOf(ks, cs, idle, n);
    RestsKeeps(ks, cs, idle, m + 1, n, t);
    SavedStep(ks[m], idle, cs[m], t);
    EntersAt(ks[n], idle, cs[n]);
  }

  /** Every live task that waits for its turn has a stack pointer to go on at. */
  ghost predicate Framed(k: Kernel) {
    forall t :: 0 <= t < |k.tasks| && t != k.current && Live(k.tasks[t]) ==> k.tasks[t].rsp != 0
  }

  /** The calls that may switch come with the interrupt frame of the task they leave. */
  predicate WithFrame(c: Call) {
    c.TimerTick? || c.GoToSleep? || c.ExitProcess? || c.YieldCpu? ==> RspOf(c) != 0
  }

  lemma FramedStep(k: Kernel, idle: nat, c: Call)
    requires Inv(k, idle) && Allowed(k, idle, c) && Framed(k) && WithFrame(c)
    ensures Framed(Do(k, c)) && (Returned(k, c) == 0 <==> Do(k, c).current == k.current)
  {
    CallResumes(k, idle, c);
    var r := Do(k, c);
    forall t | 0 <= t < MAX_TASKS && t != r.current && Live(r.tasks[t]) ensures r.tasks[t].rsp != 0 {
      SavedStep(k, idle, c, t);
    }
  }

  lemma {:induction false} FramedThrough(ks: seq<Kernel>, cs: seq<Call>, idle: nat, n: nat)
    requires Run(ks, cs, idle) && n <= |cs| && Framed(ks[0]) && forall i :: 0 <= i < n ==> WithFrame(cs[i])
    ensures Framed(ks[n])
    decreases n
  {
    assert |ks| == |cs| + 1;
    hide *;
    if n > 0 {
      FramedThrough(ks, cs, idle, n - 1);
      StepOf(ks, cs, idle, n - 1);
      FramedStep(ks[n - 1], idle, cs[n - 1]);
    }
  }

  /** Over every run whose switching calls come with a frame, a call returns 0 exactly if the
      current task stays current. */
  lemma ZeroIffStays(ks: seq<Kernel>, cs: seq<Call>, idle: nat, n: nat)
    requires Run(ks, cs, idle) && n < |cs| && StepAt(ks, cs, idle, n) && Framed(ks[0])
    requires forall i :: 0 <= i <= n ==> WithFrame(cs[i])
    ensures Returned(ks[n], cs[n]) == 0 <==> ks[n + 1].current == ks[n].current
  {
    assert |ks| == |cs| + 1;
    hide Run, Do, Inv, Allowed, Framed, Returned;
    FramedThrough(ks, cs, idle, n);
    StepOf(ks, cs, idle, n);
    FramedStep(ks[n], idle, cs[n]);
  }

  /** A task that is entered for the first time in a run that it was live in from the start
      goes on at the pointer it started with. */
  lemma StartsAsItWas(ks: seq<Kernel>, cs: seq<Call>, idle: nat, n: nat, t: nat)
    requires Run(ks, cs, idle) && n < |cs| && t < MAX_TASKS && StepAt(ks, cs, idle, n)
    requires Rests(ks, 0, n, t) && ks[n + 1].current == t
    ensures t < |ks[0].tasks| && Returned(ks[n], cs[n]) == ks[0].tasks[t].rsp
  {
    hide *;
    RunLength(ks, cs, idle);
    RestsAt(ks, 0, n, t, n);
    RestsAt(ks, 0, n, t, 0);
    StepOf(ks, cs, idle, n);
    RestsKeeps(ks, cs, idle, 0, n, t);
    EntersAt(ks[n], idle, cs[n]);
  }

  /** Every live task is at the topmost frame of its stack, as created. */
  ghost predicate AllNew(k: Kernel) {
    forall t :: 0 <= t < |k.tasks| && Live(k.tasks[t])
                ==> k.tasks[t].stack != 0 && AtTop(k.tasks[t].rsp, k.tasks[t].stack)
  }

  lemma CreateNew(k: Kernel, pid: int, space: Space, cr3: nat, how: Mode, stack: nat)
    requires Shaped(k) && AllNew(k)
    ensures AllNew(CreateTask(k, pid, space, cr3, how, stack).0)
  {
    CreateAnswers(k, pid, space, cr3, how, stack);
    hide CreateTask;
  }

  lemma SpawnNew(k: Kernel, image: Image)
    requires Shaped(k) && AllNew(k)
    ensures AllNew(Spawn(k, image).0)
  {
    if image.Loaded? {
      var how := ForUser(image.start, image.sp);
      CreateNew(k.(nextPid := k.nextPid + 1), k.nextPid, UserSpace(image.d), image.cr3, how, image.stack);
    }
  }

  lemma BootNew(cr3: nat, shell: nat, idle: nat, hello: Image, burn: Image)
    ensures AllNew(BeforeSchedule(cr3, shell, idle, hello, burn))
  {
    CreateNew(Initial(), 0, KernelSpace, cr3, InKernel(ShellTask), shell);
    var a := CreateTask(Initial(), 0, KernelSpace, cr3, InKernel(ShellTask), shell).0;
    CreateNew(a, 0, KernelSpace, cr3, InKernel(IdleTask), idle);
    SpawnNew(KernelTasks(cr3, shell, idle), hello);
    SpawnNew(Spawn(KernelTasks(cr3, shell, idle), hello).0, burn);
  }

  lemma BootCode(cr3: nat, shell: nat, idle: nat, hello: Image, burn: Image)
    requires shell != 0 && idle != 0
    ensures var k := BeforeSchedule(cr3, shell, idle, hello, burn);
            && k.tasks[0].frame.Frame? && k.tasks[0].frame.rip == ShellTask
            && k.tasks[1].frame.Frame? && k.tasks[1].frame.rip == IdleTask
  {
    KernelTasksReady(cr3, shell, idle);
    var a := KernelTasks(cr3, shell, idle);
    hide KernelTasks, Core;
    LiveStays(a, hello, 0);
    LiveStays(a, hello, 1);
    LiveStays(Spawn(a, hello).0, burn, 0);
    LiveStays(Spawn(a, hello).0, burn, 1);
    hide Spawn;
  }

  lemma LiveStays(k: Kernel, image: Image, t: nat)
    requires Shaped(k) && t < MAX_TASKS && Live(k.tasks[t])
    ensures Spawn(k, image).0.tasks[t] == k.tasks[t]
  {
    if image.Loaded? { SpawnFrames(k, image, t); }
  }

  /** The state in which kernel_main's schedule() enters the shell: every other live task is
      at the topmost frame of its stack, so runs from there return 0 exactly if they stay. */
  lemma BootFrames(cr3: nat, shell: nat, idle: nat, hello: Image, burn: Image)
    requires shell != 0 && idle != 0 && FreshImage(KernelTasks(cr3, shell, idle), hello)
    requires FreshImage(Spawn(KernelTasks(cr3, shell, idle), hello).0, burn)
    ensures var (k, next) := SwitchFrom(BeforeSchedule(cr3, shell, idle, hello, burn), 0);
            && Shaped(k) && AllNew(k) && Framed(k) && k.current == 0 && AtTop(next, k.tasks[0].stack)
            && k.tasks[0].frame.Frame? && k.tasks[0].frame.rip == ShellTask
            && k.tasks[1].frame.Frame? && k.tasks[1].frame.rip == IdleTask
  {
    BootReady(cr3, shell, idle, hello, burn);
    BootNew(cr3, shell, idle, hello, burn);
    BootCode(cr3, shell, idle, hello, burn);
    hide BeforeSchedule, SwitchFrom, Between;
    SwitchFrames(BeforeSchedule(cr3, shell, idle, hello, burn), 0, 0);
    SwitchFrames(BeforeSchedule(cr3, shell, idle, hello, burn), 0, 1);
    FirstEntry(BeforeSchedule(cr3, shell, idle, hello, burn));
  }

  lemma FirstEntry(k: Kernel)
    requires Between(k, 1) && k.current == -1 && k.slice == 0 && Ready(k.tasks[0]) && AllNew(k)
    ensures var (r, next) := SwitchFrom(k, 0);
            && Shaped(r) && AllNew(r) && r.current == 0 && next == r.tasks[0].rsp && Live(r.tasks[0]) && Framed(r)
  {
    ShellFirst(k);
    hide Core, Pick;
  }

  // ------------------------------------------------------------------- counting

  /** How often the current task has changed before state n. */
  function Changes(ks: seq<Kernel>, n: nat): nat
    requires n < |ks|
  {
    if n == 0 then 0 else Changes(ks, n - 1) + if ks[n].current == ks[n - 1].current then 0 else 1
  }

  /** switch_count counts the changes of the current task. */
  lemma {:induction false} CountsChanges(ks: seq<Kernel>, cs: seq<Call>, idle: nat, n: nat)
    requires Run(ks, cs, idle) && n <= |cs|
    ensures ks[n].switches == ks[0].switches + Changes(ks, n)
    decreases n
  {
    if n > 0 {
      CountsChanges(ks, cs, idle, n - 1);
      StepOf(ks, cs, idle, n - 1);
      hide Run, Do, Inv, Allowed;
      CallResumes(ks[n - 1], idle, cs[n - 1]);
    }
  }

  // --------------------------------------------------------------------- slices

  /** The timer ticks among the calls m, .., n - 1. */
  function TicksFrom(cs: seq<Call>, m: nat, n: nat): nat
    requires m <= n <= |cs|
  {
    if n == m then 0 else TicksFrom(cs, m, n - 1) + Ticks(cs[n - 1])
  }

  lemma SliceStep(k: Kernel, idle: nat, c: Call)
    requires Inv(k, idle) && Allowed(k, idle, c)
    ensures Do(k, c).slice <= k.slice + Ticks(c)
    ensures c.TimerTick? && Switches(k, c) == 1 ==> k.slice == 4 && Do(k, c).slice == 0
    ensures c.TimerTick? && Switches(k, c) == 0 ==> Do(k, c).slice == k.slice + 1
  {
    if Switches(k, c) == 1 {
      PointBetween(k, idle, c);
      PointIs(k, idle, c);
      SwitchKeeps(SwitchPoint(k, c), idle, RspOf(c));
      hide Do, Between, SwitchFrom;
    }
  }

  lemma {:induction false} SliceCounts(ks: seq<Kernel>, cs: seq<Call>, idle: nat, m: nat, n: nat)
    requires Run(ks, cs, idle) && m <= n <= |cs| && ks[m].slice == 0
    ensures ks[n].slice <= TicksFrom(cs, m, n)
    decreases n
  {
    hide *;
    RunLength(ks, cs, idle);
    if m < n {
      SliceCounts(ks, cs, idle, m, n - 1);
      StepOf(ks, cs, idle, n - 1);
      SliceStep(ks[n - 1], idle, cs[n - 1]);
      NextTicks(cs, m, n);
    }
  }

  lemma NextTicks(cs: seq<Call>, m: nat, n: nat)
    requires m < n <= |cs|
    ensures TicksFrom(cs, m, n) == TicksFrom(cs, m, n - 1) + Ticks(cs[n - 1])
  {
  }

  /** A tick that takes the processor away comes at least five ticks after the last one that
      did: the first of the five may fall anywhere into the slice before. */
  lemma FullSlice(ks: seq<Kernel>, cs: seq<Call>, idle: nat, m: nat, n: nat)
    requires Run(ks, cs, idle) && m < n < |cs| && StepAt(ks, cs, idle, m) && StepAt(ks, cs, idle, n)
    requires cs[m].TimerTick? && Switches(ks[m], cs[m]) == 1 && cs[n].TimerTick? && Switches(ks[n], cs[n]) == 1
    ensures TicksFrom(cs, m + 1, n + 1) >= 5
  {
    StepOf(ks, cs, idle, m);
    StepOf(ks, cs, idle, n);
    SliceStep(ks[m], idle, cs[m]);
    SliceStep(ks[n], idle, cs[n]);
    SliceCounts(ks, cs, idle, m + 1, n);
  }

  // --------------------------------------------------------------------- sleeping

  predicate Sleeps(k: Kernel, t: nat) {
    t < |k.tasks| && k.tasks[t].state == Waiting && !k.tasks[t].isUser
  }

  lemma SleepStep(k: Kernel, idle: nat, c: Call, t: nat)
    requires Inv(k, idle) && Allowed(k, idle, c) && t < MAX_TASKS
    ensures c.GoToSleep? && t == k.current ==> Sleeps(Do(k, c), t)
    ensures Sleeps(k, t) && c != WakeUp(t) ==> Sleeps(Do(k, c), t)
    ensures Sleeps(k, t) && c == WakeUp(t) ==> Do(k, c) == k.(tasks := k.tasks[t := k.tasks[t].(state := Runnable)])
  {
    assert TaskOk(k, t);
    if Switches(k, c) == 1 {
      SleepSwitch(k, idle, c, t);
    } else if c.KillProcess? {
      KillAnswers(k, c.pid, c.code);
      if FindPid(k.procs, c.pid, 0) < |k.procs| { assert ProcOk(k, FindPid(k.procs, c.pid, 0)); }
    } else if c.NewKernelTask? {
      CreateAnswers(k, 0, KernelSpace, c.cr3, InKernel(c.entry), c.stack);
    } else if c.SpawnImage? {
      SpawnCore(k, c.image);
    }
  }

  lemma SleepSwitch(k: Kernel, idle: nat, c: Call, t: nat)
    requires Inv(k, idle) && Allowed(k, idle, c) && t < MAX_TASKS && Switches(k, c) == 1
    ensures c.GoToSleep? && t == k.current ==> Sleeps(Do(k, c), t)
    ensures Sleeps(k, t) ==> Sleeps(Do(k, c), t)
  {
    PointBetween(k, idle, c);
    PointIs(k, idle, c);
    SwitchKeeps(SwitchPoint(k, c), idle, RspOf(c));
    hide Core, Pick, Do, Inv, Between;
  }

  /** A task that goes to sleep is Waiting until the wake-up for it comes. */
  lemma {:induction false} SleepsUntilWoken(ks: seq<Kernel>, cs: seq<Call>, idle: nat, m: nat, n: nat, t: nat)
    requires Run(ks, cs, idle) && m < n <= |cs| && cs[m].GoToSleep? && ks[m].current == t
    requires forall i :: m < i < n ==> cs[i] != WakeUp(t)
    ensures Sleeps(ks[n], t)
    decreases n
  {
    assert |ks| == |cs| + 1;
    StepOf(ks, cs, idle, m);
    assert t < MAX_TASKS;
    StepOf(ks, cs, idle, n - 1);
    hide Run, Do, Inv, Allowed, Sleeps;
    if n > m + 1 { SleepsUntilWoken(ks, cs, idle, m, n - 1, t); }
    SleepStep(ks[n - 1], idle, cs[n - 1], t);
  }

  /** The wake-up makes it ready, from where bounded waiting takes over. */
  lemma WakesUp(ks: seq<Kernel>, cs: seq<Call>, idle: nat, m: nat, n: nat, t: nat)
    requires Run(ks, cs, idle) && m < n < |cs| && cs[m].GoToSleep? && ks[m].current == t
    requires cs[n] == WakeUp(t) && forall i :: m < i < n ==> cs[i] != WakeUp(t)
    ensures t < |ks[n + 1].tasks| && ks[n + 1].tasks[t].state == Runnable
  {
    StepOf(ks, cs, idle, m);
    assert t < MAX_TASKS;
    StepOf(ks, cs, idle, n);
    SleepsUntilWoken(ks, cs, idle, m, n, t);
    SleepStep(ks[n], idle, cs[n], t);
  }

  // ----------------------------------------------------------------- self-check

  /** The count of task_self_check is at most 1 exactly if no two tasks are RUNNING. */
  lemma {:induction false} CountIff(tasks: seq<Task>)
    ensures RunningCount(tasks) == 0 <==> forall i :: 0 <= i < |tasks| ==> tasks[i].state != Running
    ensures RunningCount(tasks) <= 1 <==>
            forall i, j :: 0 <= i < j < |tasks| ==> tasks[i].state != Running || tasks[j].state != Running
  {
    if tasks != [] {
      var rest := tasks[1..];
      CountIff(rest);
      assert forall i :: 0 <= i < |rest| ==> rest[i] == tasks[i + 1];
      if RunningCount(tasks) == 0 || tasks[0].state == Running {
        forall i | 0 < i < |tasks| ensures tasks[i] == rest[i - 1] {}
      }
      CountRest(tasks, rest);
    }
  }

  lemma CountRest(tasks: seq<Task>, rest: seq<Task>)
    requires tasks != [] && rest == tasks[1..]
    ensures (forall i :: 0 <= i < |tasks| ==> tasks[i].state != Running) <==>
            tasks[0].state != Running && forall i :: 0 <= i < |rest| ==> rest[i].state != Running
    ensures (forall i, j :: 0 <= i < j < |tasks| ==> tasks[i].state != Running || tasks[j].state != Running) <==>
            && (forall i, j :: 0 <= i < j < |rest| ==> rest[i].state != Running || rest[j].state != Running)
            && (tasks[0].state == Running ==> forall i :: 0 <= i < |rest| ==> rest[i].state != Running)
  {
    forall i | 0 < i < |tasks| ensures tasks[i] == rest[i - 1] {}
    forall i | 0 <= i < |rest| ensures rest[i] == tasks[i + 1] {}
    if tasks[0].state == Running
       && forall i, j :: 0 <= i < j < |tasks| ==> tasks[i].state != Running || tasks[j].state != Running {
      forall i | 0 <= i < |rest| ensures rest[i].state != Running {
        assert tasks[0].state != Running || tasks[i + 1].state != Running;
      }
    }
  }
}
