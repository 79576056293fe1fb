/** Whole runs of the scheduler and the process table. */
module SchedulerRuns {
  import opened Tasks
  import opened Lifecycle

  /** One call, as seen from outside. The task that is current makes it, except that
      timer ticks and wake-ups come from interrupts. */
  datatype Call =
    | TimerTick(rsp: nat)
    | GoToSleep(rsp: nat)
    | WakeUp(tid: int)
    | NewKernelTask(cr3: nat, entry: Code, stack: nat)
    | SpawnImage(image: Image)
    | KillProcess(pid: int, code: int)
    | WaitFor(pid: int)
    | ReapNow
    | ExitProcess(code: int, rsp: nat)
    | YieldCpu(rsp: nat)

  /** Which calls can come: the idle task only halts, user tasks only make system
      calls, and the shell commands run in kernel tasks. */
  predicate Allowed(k: Kernel, idle: nat, c: Call)
    requires Shaped(k) && k.current >= 0
  {
    var user := k.tasks[k.current].isUser;
    match c
    case TimerTick(_) => true
    case WakeUp(_) => true
    case GoToSleep(_) => !user && k.current != idle
    case NewKernelTask(_, _, _) => !user
    case SpawnImage(image) => FreshImage(k, image)
    case KillProcess(_, _) => !user
    case WaitFor(_) => !user
    case ReapNow => !user
    case ExitProcess(_, _) => user
    case YieldCpu(_) => user
  }

  function Do(k: Kernel, c: Call): Kernel
    requires Shaped(k) && k.current >= 0
  {
    match c
    case TimerTick(rsp) => Tick(k, rsp).0
    case GoToSleep(rsp) => Sleep(k, rsp).0
    case WakeUp(tid) => Wake(k, tid)
    case NewKernelTask(cr3, entry, stack) => CreateTask(k, 0, KernelSpace, cr3, InKernel(entry), stack).0
    case SpawnImage(image) => Spawn(k, image).0
    case KillProcess(pid, code) => Kill(k, pid, code).0
    case WaitFor(pid) => WaitPoll(k, pid).0
    case ReapNow => Reap(k)
    case ExitProcess(code, rsp) => SysExit(k, code, rsp).0
    case YieldCpu(rsp) => SysYield(k, rsp).0
  }

  ghost predicate StepAt(ks: seq<Kernel>, cs: seq<Call>, idle: nat, n: nat)
    requires |ks| == |cs| + 1 && n < |cs|
  {
    Shaped(ks[n]) && ks[n].current >= 0 && Allowed(ks[n], idle, cs[n]) && ks[n + 1] == Do(ks[n], cs[n])
  }

  ghost predicate Run(ks: seq<Kernel>, cs: seq<Call>, idle: nat) {
    |ks| == |cs| + 1 && Inv(ks[0], idle) && forall n :: 0 <= n < |cs| ==> StepAt(ks, cs, idle, n)
  }

  lemma DoKeeps(k: Kernel, idle: nat, c: Call)
    requires Inv(k, idle) && Allowed(k, idle, c)
    ensures Inv(Do(k, c), idle)
  {
    match c
    case TimerTick(rsp) => TickKeeps(k, idle, rsp);
    case GoToSleep(rsp) => SleepKeeps(k, idle, rsp);
    case WakeUp(tid) => WakeKeeps(k, idle, tid);
    case NewKernelTask(cr3, entry, stack) =>
      CreateKernelCore(k, cr3, entry, stack);
      AddsKeeps(k, idle, Do(k, c));
    case SpawnImage(image) =>
      SpawnCore(k, image);
      AddsKeeps(k, idle, Do(k, c));
    case KillProcess(pid, code) => KillKeeps(k, idle, pid, code);
    case WaitFor(pid) => WaitKeeps(k, idle, pid);
    case ReapNow => ReapKeeps(k);
    case ExitProcess(code, rsp) => ExitKeeps(k, idle, code, rsp);
    case YieldCpu(rsp) => YieldKeeps(k, idle, rsp);
  }

  /** In every state of every run exactly the current task is RUNNING, the idle task is
      RUNNING or RUNNABLE, and the task and process tables agree. */
  lemma {:induction false} RunKeeps(ks: seq<Kernel>, cs: seq<Call>, idle: nat, n: nat)
    requires Run(ks, cs, idle) && n <= |cs|
    ensures Inv(ks[n], idle)
    decreases n
  {
    if n > 0 {
      assert StepAt(ks, cs, idle, n - 1);
      RunKeeps(ks, cs, idle, n - 1);
      DoKeeps(ks[n - 1], idle, cs[n - 1]);
    }
  }

  lemma RunLength(ks: seq<Kernel>, cs: seq<Call>, idle: nat)
    requires Run(ks, cs, idle)
    ensures |ks| == |cs| + 1
  {
  }

  lemma StepOf(ks: seq<Kernel>, cs: seq<Call>, idle: nat, n: nat)
    requires Run(ks, cs, idle) && n < |cs|
    ensures StepAt(ks, cs, idle, n) && Inv(ks[n], idle) && Allowed(ks[n], idle, cs[n])
    ensures ks[n + 1] == Do(ks[n], cs[n]) && Inv(ks[n + 1], idle) && Shaped(ks[n]) && Shaped(ks[n + 1])
  {
    RunKeeps(ks, cs, idle, n);
    RunKeeps(ks, cs, idle, n + 1);
    hide Core, Do;
  }

  // ------------------------------------------------------------- task_self_check

  lemma {:induction false} CountOne(tasks: seq<Task>, c: int)
    requires forall i :: 0 <= i < |tasks| && i != c ==> tasks[i].state != Running
    ensures RunningCount(tasks) <= 1 && (c < 0 ==> RunningCount(tasks) == 0)
    decreases |tasks|
  {
    if tasks != [] {
      assert forall i :: 0 <= i < |tasks| - 1 ==> tasks[1..][i] == tasks[i + 1];
      CountOne(tasks[1..], c - 1);
    }
  }

  /** task_self_check returns 1 after every completed call of every run. */
  lemma SelfCheckHolds(ks: seq<Kernel>, cs: seq<Call>, idle: nat, n: nat)
    requires Run(ks, cs, idle) && n <= |cs|
    ensures SelfCheck(ks[n])
  {
    RunKeeps(ks, cs, idle, n);
    var k := ks[n];
    CountOne(k.tasks, k.current);
    forall t | t in k.tasks && t.isUser && t.state != New ensures t.space != NoSpace && t.cr3 != 0 {
      var i :| 0 <= i < |k.tasks| && k.tasks[i] == t;
      assert TaskOk(k, i);
    }
  }

  // -------------------------------------------------------------- bounded waiting

  /** The calls of context_switch_from that a call makes. */
  function Switches(k: Kernel, c: Call): nat
    requires Shaped(k) && k.current >= 0
  {
    match c
    case TimerTick(_) => if k.tasks[k.current].state == Running && k.slice + 1 < TICKS_PER_SLICE then 0 else 1
    case GoToSleep(_) => 1
    case ExitProcess(_, _) => 1
    case YieldCpu(_) => 1
    case _ => 0
  }

  function Ticks(c: Call): nat { if c.TimerTick? then 1 else 0 }

  ghost function SwitchesIn(ks: seq<Kernel>, cs: seq<Call>, idle: nat, n: nat): nat
    requires |ks| == |cs| + 1 && n <= |cs| && forall i :: 0 <= i < n ==> StepAt(ks, cs, idle, i)
  {
    if n == 0 then 0 else
    assert StepAt(ks, cs, idle, n - 1);
    SwitchesIn(ks, cs, idle, n - 1) + Switches(ks[n - 1], cs[n - 1])
  }

  function TicksIn(cs: seq<Call>, n: nat): nat
    requires n <= |cs|
  {
    if n == 0 then 0 else TicksIn(cs, n - 1) + Ticks(cs[n - 1])
  }

  lemma DistanceIs(current: int, t: nat)
    requires -1 <= current < MAX_TASKS && t < MAX_TASKS
    ensures Distance(current, t) == if t > current then t - current - 1 else t + 15 - current
  {
  }

  lemma Nearer(current: int, c: nat, t: nat)
    requires -1 <= current < MAX_TASKS && c < MAX_TASKS && t < MAX_TASKS && c != t
    requires Distance(current, c) <= Distance(current, t)
    ensures Distance(c, t) < Distance(current, t)
  {
    DistanceIs(current, c);
    DistanceIs(current, t);
    DistanceIs(c, t);
    hide Distance;
  }

  lemma NotCurrent(current: int, t: nat)
    requires 0 <= current < MAX_TASKS && t < MAX_TASKS && t != current
    ensures Distance(current, t) <= 14
  {
    DistanceIs(current, t);
    hide Distance;
  }

  /** A switch that passes over a RUNNABLE task brings the scan closer to it. */
  lemma SwitchNearer(k: Kernel, idle: nat, rsp: nat, t: nat)
    requires Between(k, idle) && k.slice < TICKS_PER_SLICE && t < MAX_TASKS && t != k.current
    requires k.tasks[t].state == Runnable
    requires SwitchFrom(k, rsp).0.tasks[t].state == Runnable
    ensures Distance(SwitchFrom(k, rsp).0.current, t) < Distance(k.current, t)
  {
    SwitchKeeps(k, idle, rsp);
    PutAwayKeeps(k, idle, rsp);
    var a := PutAway(Reap(k), rsp);
    PickNearest(a.tasks, a.current);
    var n := Pick(a.tasks, a.current);
    assert Ready(a.tasks[t]);
    Nearer(a.current, n, t);
  }

  lemma TickNearer(k: Kernel, idle: nat, rsp: nat, t: nat)
    requires Between(k, idle) && k.slice < TICKS_PER_SLICE && k.current >= 0 && t < MAX_TASKS && t != k.current
    requires k.tasks[t].state == Runnable
    requires Tick(k, rsp).0.tasks[t].state == Runnable
    ensures var r, n := Tick(k, rsp).0, Switches(k, TimerTick(rsp));
            && Shaped(r) && Distance(r.current, t) + n <= Distance(k.current, t)
            && r.slice == if n == 1 then 0 else k.slice + 1
  {
    TickKeeps(k, idle, rsp);
    if Switches(k, TimerTick(rsp)) == 1 {
      CoreScalars(k, k.current, 0, k.switches);
      SwitchKeeps(k.(slice := 0), idle, rsp);
      SwitchNearer(k.(slice := 0), idle, rsp, t);
    }
  }

  lemma SleepNearer(k: Kernel, idle: nat, rsp: nat, t: nat)
    requires Inv(k, idle) && k.current != idle && t < MAX_TASKS && k.tasks[t].state == Runnable
    requires Sleep(k, rsp).0.tasks[t].state == Runnable
    ensures var r := Sleep(k, rsp).0; Shaped(r) && Distance(r.current, t) + 1 <= Distance(k.current, t) && r.slice == 0
  {
    var u := k.tasks[k.current].(state := Waiting);
    TouchTask(k, k.current, u);
    TickNearer(SetTask(k, k.current, u), idle, rsp, t);
  }

  lemma PointNearer(k: Kernel, idle: nat, c: Call, t: nat)
    requires Inv(k, idle) && Allowed(k, idle, c) && (c.ExitProcess? || c.YieldCpu?) && t < MAX_TASKS
    requires k.tasks[t].state == Runnable
    requires SwitchFrom(ReapPoint(k, c), c.rsp).0.tasks[t].state == Runnable
    ensures var r := SwitchFrom(ReapPoint(k, c), c.rsp).0;
            Shaped(r) && Distance(r.current, t) + 1 <= Distance(k.current, t) && r.slice == k.slice
  {
    ReapPointOk(k, idle, c);
    var a := ReapPoint(k, c);
    assert Between(a, idle);
    SwitchKeeps(a, idle, c.rsp);
    SwitchNearer(a, idle, c.rsp, t);
  }

  lemma StepNearer(k: Kernel, idle: nat, c: Call, t: nat)
    requires Inv(k, idle) && Allowed(k, idle, c) && t < MAX_TASKS
    requires k.tasks[t].state == Runnable && Inv(Do(k, c), idle) && Do(k, c).tasks[t].state == Runnable
    ensures Distance(Do(k, c).current, t) + Switches(k, c) <= Distance(k.current, t)
    ensures Ticks(c) + k.slice <= 5 * Switches(k, c) + Do(k, c).slice
  {
    hide SwitchFrom, Tick, Sleep, Distance;
    match c
    case TimerTick(rsp) => TickNearer(k, idle, rsp, t);
    case GoToSleep(rsp) => SleepNearer(k, idle, rsp, t);
    case ExitProcess(code, rsp) => PointNearer(k, idle, c, t);
    case YieldCpu(rsp) => PointNearer(k, idle, c, t);
    case _ =>
  }

  lemma {:induction false} WaitBudget(ks: seq<Kernel>, cs: seq<Call>, idle: nat, t: nat, n: nat)
    requires Run(ks, cs, idle) && t < MAX_TASKS && n <= |cs|
    requires forall i :: 0 <= i <= n ==> t < |ks[i].tasks| && ks[i].tasks[t].state == Runnable
    ensures Shaped(ks[n]) && Shaped(ks[0])
    ensures Distance(ks[n].current, t) + SwitchesIn(ks, cs, idle, n) <= Distance(ks[0].current, t)
    ensures TicksIn(cs, n) + ks[0].slice <= 5 * SwitchesIn(ks, cs, idle, n) + ks[n].slice
    decreases n
  {
    RunKeeps(ks, cs, idle, n);
    RunKeeps(ks, cs, idle, 0);
    if n > 0 {
      WaitBudget(ks, cs, idle, t, n - 1);
      assert StepAt(ks, cs, idle, n - 1);
      RunKeeps(ks, cs, idle, n - 1);
      StepNearer(ks[n - 1], idle, cs[n - 1], t);
    }
  }

  /** Bounded waiting: as long as a task stays RUNNABLE without being chosen, at most 14
      calls of context_switch_from and at most 74 ticks have gone by, whatever else
      happened; so it is chosen by the 15th switch and the 75th tick. */
  lemma BoundedWaiting(ks: seq<Kernel>, cs: seq<Call>, idle: nat, t: nat)
    requires Run(ks, cs, idle) && t < MAX_TASKS
    requires forall i :: 0 <= i <= |cs| ==> t < |ks[i].tasks| && ks[i].tasks[t].state == Runnable
    ensures SwitchesIn(ks, cs, idle, |cs|) <= 14 && TicksIn(cs, |cs|) <= 74
  {
    WaitBudget(ks, cs, idle, t, |cs|);
    RunKeeps(ks, cs, idle, |cs|);
    RunKeeps(ks, cs, idle, 0);
    NotCurrent(ks[0].current, t);
  }

  // ------------------------------------------------------------------- reaping

  /** The state in which a call runs process_reap_deferred, if it does. */
  function ReapPoint(k: Kernel, c: Call): Kernel
    requires Shaped(k) && k.current >= 0
  {
    var t := k.tasks[k.current];
    match c
    case GoToSleep(_) => SetTask(k, k.current, t.(state := Waiting))
    case ExitProcess(code, _) => SetTask(TaskExited(k, t.pid, code), k.current, t.(exitCode := code, state := Zombie))
    case YieldCpu(_) =>
      SetTask(k, k.current, t.(state := if t.state != Waiting && t.state != Zombie then Runnable else t.state))
    case _ => k
  }

  predicate Reaps(k: Kernel, c: Call)
    requires Shaped(k) && k.current >= 0
  {
    c.ReapNow? || Switches(k, c) == 1
  }

  /** The call destroys the address space that was made for process pid. */
  predicate Destroys(k: Kernel, c: Call, pid: int)
    requires Shaped(k) && k.current >= 0
  {
    var r := ReapPoint(k, c);
    Reaps(k, c) && exists j :: 0 <= j < |r.procs| && r.procs[j].pid == pid && Doomed(r.procs[j], CurrentSpace(r))
  }

  lemma ReapPointOk(k: Kernel, idle: nat, c: Call)
    requires Inv(k, idle) && Allowed(k, idle, c)
    ensures Core(ReapPoint(k, c)) && ReapPoint(k, c).current == k.current && ReapPoint(k, c).nextPid == k.nextPid
  {
    var t := k.tasks[k.current];
    match c
    case GoToSleep(_) => TouchTask(k, k.current, t.(state := Waiting));
    case YieldCpu(_) => TouchTask(k, k.current, t.(state := Runnable));
    case ExitProcess(code, _) =>
      OneTask(k, k.current);
      var j := FindPid(k.procs, t.pid, 0);
      var u := t.(exitCode := code, state := Zombie);
      EndKeeps(k, j, u, code);
      assert ReapPoint(k, c) == MarkExited(SetTask(k, k.current, u), j, code);
    case _ =>
  }

  /** Reaping, in any call of any run, takes the address space of no task that is
      RUNNABLE, RUNNING or WAITING, nor of the task in which it happens. */
  lemma NeverUnderATask(ks: seq<Kernel>, cs: seq<Call>, idle: nat, n: nat, j: nat, i: nat)
    requires Run(ks, cs, idle) && n < |cs| && StepAt(ks, cs, idle, n) && Reaps(ks[n], cs[n])
    requires var r := ReapPoint(ks[n], cs[n]);
             && j < |r.procs| && Doomed(r.procs[j], CurrentSpace(r))
             && i < |r.tasks| && (Live(r.tasks[i]) || i == r.current)
    ensures var r := ReapPoint(ks[n], cs[n]); r.tasks[i].space != r.procs[j].space
  {
    RunKeeps(ks, cs, idle, n);
    ReapPointOk(ks[n], idle, cs[n]);
    ReapSafe(ReapPoint(ks[n], cs[n]), j, i);
  }

  lemma ProcsAfter(k: Kernel, idle: nat, c: Call)
    requires Inv(k, idle) && Allowed(k, idle, c) && Reaps(k, c)
    ensures Do(k, c).procs == Reap(ReapPoint(k, c)).procs && Do(k, c).nextPid == k.nextPid
  {
  }

  /** All that can happen to a process slot in one call: nothing, it is emptied, a new
      process with the next pid takes it, or its process ends or loses its space. */
  predicate Moved(p: Process, q: Process, next: int) {
    || q == p || !q.used || q.pid == next
    || (p.used && q.pid == p.pid && q.exited && (p.exited ==> q.exitCode == p.exitCode)
        && (q.space == p.space || q.space == NoSpace))
  }

  lemma ReapMoves(k: Kernel, idle: nat, c: Call, j: nat)
    requires Inv(k, idle) && Allowed(k, idle, c) && Reaps(k, c) && j < MAX_PROCESSES
    ensures Moved(k.procs[j], Do(k, c).procs[j], k.nextPid) && Do(k, c).nextPid == k.nextPid
  {
    ProcsAfter(k, idle, c);
    ReapPointOk(k, idle, c);
    if c.ExitProcess? { OneTask(k, k.current); }
    assert ProcOk(k, j) && ProcOk(ReapPoint(k, c), j);
  }

  lemma SpawnMoves(k: Kernel, image: Image, j: nat)
    requires Shaped(k) && j < MAX_PROCESSES
    ensures var r := Spawn(k, image).0; Shaped(r) && Moved(k.procs[j], r.procs[j], k.nextPid) && k.nextPid <= r.nextPid
  {
  }

  lemma KillMoves(k: Kernel, pid: int, code: int, j: nat)
    requires Shaped(k) && j < MAX_PROCESSES
    ensures var r := Kill(k, pid, code).0;
            Shaped(r) && Moved(k.procs[j], r.procs[j], k.nextPid) && k.nextPid <= r.nextPid
  {
  }

  lemma DoMoves(k: Kernel, idle: nat, c: Call, j: nat)
    requires Inv(k, idle) && Allowed(k, idle, c) && j < MAX_PROCESSES
    ensures Shaped(Do(k, c)) && Moved(k.procs[j], Do(k, c).procs[j], k.nextPid) && k.nextPid <= Do(k, c).nextPid
  {
    DoKeeps(k, idle, c);
    assert Shaped(k) && k.current >= 0 && Shaped(Do(k, c));
    hide Inv, Core, Between, Allowed, Moved;
    MovedSame(k.procs[j], k.nextPid);
    match c
    case SpawnImage(image) => SpawnMoves(k, image, j);
    case KillProcess(pid, code) => KillMoves(k, pid, code, j);
    case WaitFor(pid) => WaitMoves(k, pid, j);
    case NewKernelTask(_, _, _) =>
    case WakeUp(_) =>
    case _ => if Reaps(k, c) { ReapMoves(k, idle, c, j); }
  }

  lemma MovedSame(p: Process, next: int)
    ensures Moved(p, p, next)
  {
  }

  lemma WaitMoves(k: Kernel, pid: int, j: nat)
    requires Shaped(k) && j < MAX_PROCESSES
    ensures Moved(k.procs[j], WaitPoll(k, pid).0.procs[j], k.nextPid)
  {
  }

  /** The same for all slots at once. */
  ghost predicate AllMoved(k: Kernel, r: Kernel) {
    && Shaped(k) && Shaped(r) && k.nextPid <= r.nextPid
    && forall j :: 0 <= j < MAX_PROCESSES ==> Moved(k.procs[j], r.procs[j], k.nextPid)
  }

  lemma DoMovesAll(k: Kernel, idle: nat, c: Call)
    requires Inv(k, idle) && Allowed(k, idle, c)
    ensures AllMoved(k, Do(k, c))
  {
    assert Shaped(k) && k.current >= 0;
    hide Inv, Do, Allowed, Moved;
    DoMoves(k, idle, c, 0);
    forall j | 0 <= j < MAX_PROCESSES ensures Moved(k.procs[j], Do(k, c).procs[j], k.nextPid) {
      DoMoves(k, idle, c, j);
    }
  }

  /** No address space is left to process pid, and there never will be one again. */
  predicate Gone(k: Kernel, pid: int) {
    pid < k.nextPid && forall j :: 0 <= j < |k.procs| && k.procs[j].used && k.procs[j].pid == pid ==>
          k.procs[j].space == NoSpace
  }

  /** Reaping leaves no space to the pid of a slot that it empties. */
  lemma ReapedIsGone(r: Kernel, m: nat)
    requires Core(r) && m < |r.procs| && Doomed(r.procs[m], CurrentSpace(r))
    ensures r.procs[m].pid < r.nextPid
    ensures forall j :: 0 <= j < |r.procs| && Reap(r).procs[j].used && Reap(r).procs[j].pid == r.procs[m].pid ==>
              Reap(r).procs[j].space == NoSpace
  {
    assert ProcOk(r, m);
    forall j | 0 <= j < |r.procs| && Reap(r).procs[j].used && Reap(r).procs[j].pid == r.procs[m].pid
      ensures Reap(r).procs[j].space == NoSpace
    {
      SamePid(r, m);
      SamePid(r, j);
    }
  }

  lemma DestroyedIsGone(k: Kernel, idle: nat, c: Call, pid: int)
    requires Inv(k, idle) && Allowed(k, idle, c) && Destroys(k, c, pid)
    ensures Gone(Do(k, c), pid)
  {
    var r := ReapPoint(k, c);
    ReapPointOk(k, idle, c);
    ProcsAfter(k, idle, c);
    var m :| 0 <= m < |r.procs| && r.procs[m].pid == pid && Doomed(r.procs[m], CurrentSpace(r));
    hide Core, Doomed, ReapPoint, Do, Inv, Allowed, Destroys, ReapOne;
    ReapedIsGone(r, m);
  }

  lemma GoneMoves(k: Kernel, r: Kernel, pid: int)
    requires AllMoved(k, r) && Gone(k, pid)
    ensures Gone(r, pid)
  {
    forall j | 0 <= j < |r.procs| && r.procs[j].used && r.procs[j].pid == pid ensures r.procs[j].space == NoSpace {
      assert Moved(k.procs[j], r.procs[j], k.nextPid);
    }
  }

  lemma GoneStays(k: Kernel, idle: nat, c: Call, pid: int)
    requires Inv(k, idle) && Allowed(k, idle, c) && Gone(k, pid)
    ensures Gone(Do(k, c), pid) && !Destroys(k, c, pid)
  {
    assert Shaped(k) && k.current >= 0;
    hide *;
    DoMovesAll(k, idle, c);
    GoneMoves(k, Do(k, c), pid);
    GoneIsSafe(k, idle, c, pid);
  }

  lemma GoneIsSafe(k: Kernel, idle: nat, c: Call, pid: int)
    requires Inv(k, idle) && Allowed(k, idle, c) && Gone(k, pid)
    ensures !Destroys(k, c, pid)
  {
    if c.ExitProcess? { OneTask(k, k.current); }
  }

  lemma Follows(ks: seq<Kernel>, cs: seq<Call>, idle: nat, n: nat)
    requires Run(ks, cs, idle) && n < |cs|
    ensures Inv(ks[n], idle) && Allowed(ks[n], idle, cs[n]) && ks[n + 1] == Do(ks[n], cs[n])
    ensures AllMoved(ks[n], ks[n + 1])
  {
    hide Do, AllMoved, Inv, Allowed;
    assert StepAt(ks, cs, idle, n);
    RunKeeps(ks, cs, idle, n);
    DoMovesAll(ks[n], idle, cs[n]);
  }

  lemma {:induction false} GoneThrough(ks: seq<Kernel>, cs: seq<Call>, idle: nat, m: nat, n: nat, pid: int)
    requires Run(ks, cs, idle) && m <= n <= |cs| && Gone(ks[m], pid)
    ensures Gone(ks[n], pid)
    decreases n
  {
    assert |ks| == |cs| + 1;
    hide *;
    if m < n {
      GoneThrough(ks, cs, idle, m, n - 1, pid);
      Follows(ks, cs, idle, n - 1);
      GoneMoves(ks[n - 1], ks[n], pid);
    }
  }

  /** The address space of a process is destroyed at most once in a whole run. */
  lemma DestroyedOnce(ks: seq<Kernel>, cs: seq<Call>, idle: nat, m: nat, n: nat, pid: int)
    requires Run(ks, cs, idle) && m < n < |cs| && StepAt(ks, cs, idle, m) && StepAt(ks, cs, idle, n)
    requires Destroys(ks[m], cs[m], pid)
    ensures !Destroys(ks[n], cs[n], pid)
  {
    hide *;
    RunLength(ks, cs, idle);
    StepOf(ks, cs, idle, m);
    StepOf(ks, cs, idle, n);
    DestroyedIsGone(ks[m], idle, cs[m], pid);
    GoneThrough(ks, cs, idle, m + 1, n, pid);
    GoneStays(ks[n], idle, cs[n], pid);
  }

  // --------------------------------------------------------- processes and codes

  /** In every state each process that has not exited has exactly one live task with
      its pid, and that task runs in the process's address space. */
  lemma OneTaskPerProcess(ks: seq<Kernel>, cs: seq<Call>, idle: nat, n: nat, j: nat)
    requires Run(ks, cs, idle) && n <= |cs| && j < |ks[n].procs| && ks[n].procs[j].used && !ks[n].procs[j].exited
    ensures var k, p := ks[n], ks[n].procs[j];
            && 0 <= p.mainTid < |k.tasks|
            && (forall i :: 0 <= i < |k.tasks| ==> (Live(k.tasks[i]) && k.tasks[i].pid == p.pid <==> i == p.mainTid))
            && k.tasks[p.mainTid].space == p.space && k.tasks[p.mainTid].isUser && k.tasks[p.mainTid].cr3 != 0
  {
    RunKeeps(ks, cs, idle, n);
    assert ProcOk(ks[n], j);
    OneTask(ks[n], ks[n].procs[j].mainTid);
    assert TaskOk(ks[n], ks[n].procs[j].mainTid);
  }

  /** Whatever record of pid there is says that it exited with this code. */
  predicate Settled(k: Kernel, pid: int, code: int) {
    pid < k.nextPid && forall j :: 0 <= j < |k.procs| && k.procs[j].used && k.procs[j].pid == pid ==>
          k.procs[j].exited && k.procs[j].exitCode == code
  }

  /** The call ends process pid with this code. */
  predicate Ends(k: Kernel, c: Call, pid: int, code: int)
    requires Shaped(k) && k.current >= 0
  {
    || (c.ExitProcess? && c.code == code && k.tasks[k.current].pid == pid)
    || (c.KillProcess? && c.code == code && c.pid == pid && Kill(k, pid, code).1 == 0)
  }

  lemma EndSettles(k: Kernel, idle: nat, c: Call, pid: int, code: int)
    requires Inv(k, idle) && Allowed(k, idle, c) && Ends(k, c, pid, code)
    ensures Settled(Do(k, c), pid, code)
  {
    var j := FindPid(k.procs, pid, 0);
    if c.ExitProcess? {
      OneTask(k, k.current);
      ProcsAfter(k, idle, c);
      assert TaskOk(k, k.current);
    } else {
      assert ProcOk(k, j);
    }
    forall m | 0 <= m < |k.procs| && k.procs[m].used && k.procs[m].pid == pid ensures m == j { SamePid(k, m); }
  }

  lemma SettledMoves(k: Kernel, r: Kernel, pid: int, code: int)
    requires AllMoved(k, r) && Settled(k, pid, code)
    ensures Settled(r, pid, code)
  {
    forall j | 0 <= j < |r.procs| && r.procs[j].used && r.procs[j].pid == pid
      ensures r.procs[j].exited && r.procs[j].exitCode == code
    {
      assert Moved(k.procs[j], r.procs[j], k.nextPid);
    }
  }

  lemma {:induction false} SettledThrough(ks: seq<Kernel>, cs: seq<Call>, idle: nat, m: nat, n: nat, pid: int,
                                          code: int)
    requires Run(ks, cs, idle) && m <= n <= |cs| && Settled(ks[m], pid, code)
    ensures Settled(ks[n], pid, code)
    decreases n
  {
    assert |ks| == |cs| + 1;
    hide *;
    if m < n {
      SettledThrough(ks, cs, idle, m, n - 1, pid, code);
      Follows(ks, cs, idle, n - 1);
      SettledMoves(ks[n - 1], ks[n], pid, code);
    }
  }

  lemma SettledAnswer(k: Kernel, idle: nat, c: Call, pid: int, code: int)
    requires Inv(k, idle) && Allowed(k, idle, c) && Settled(k, pid, code)
    ensures WaitPoll(k, pid).1 == 1 ==> WaitPoll(k, pid).2 == code
    ensures forall other :: !Ends(k, c, pid, other)
  {
    if k.tasks[k.current].isUser { OneTask(k, k.current); }
  }

  /** A wait that reports an exit reports the code of the exit or kill that ended the
      process, and no process ends twice. */
  lemma FirstCodeReported(ks: seq<Kernel>, cs: seq<Call>, idle: nat, m: nat, n: nat, pid: int, code: int)
    requires Run(ks, cs, idle) && m < n < |cs| && StepAt(ks, cs, idle, m) && StepAt(ks, cs, idle, n)
    requires Ends(ks[m], cs[m], pid, code)
    ensures WaitPoll(ks[n], pid).1 == 1 ==> WaitPoll(ks[n], pid).2 == code
    ensures forall other :: !Ends(ks[n], cs[n], pid, other)
  {
    Follows(ks, cs, idle, m);
    Follows(ks, cs, idle, n);
    hide Inv, Allowed, Do, Ends, Settled, WaitPoll, AllMoved;
    EndSettles(ks[m], idle, cs[m], pid, code);
    SettledThrough(ks, cs, idle, m + 1, n, pid, code);
    SettledAnswer(ks[n], idle, cs[n], pid, code);
  }

  lemma {:induction false} PidsGrow(ks: seq<Kernel>, cs: seq<Call>, idle: nat, m: nat, n: nat)
    requires Run(ks, cs, idle) && m <= n <= |cs|
    ensures ks[m].nextPid <= ks[n].nextPid
    decreases n
  {
    assert |ks| == |cs| + 1;
    hide Run, Inv, Do, Allowed, Moved;
    if m < n {
      PidsGrow(ks, cs, idle, m, n - 1);
      Follows(ks, cs, idle, n - 1);
    }
  }

  /** No two spawns of a run return the same pid. */
  lemma PidsNeverReused(ks: seq<Kernel>, cs: seq<Call>, idle: nat, m: nat, n: nat)
    requires Run(ks, cs, idle) && m < n < |cs| && StepAt(ks, cs, idle, m) && StepAt(ks, cs, idle, n)
    requires cs[m].SpawnImage? && cs[n].SpawnImage?
    ensures var p, q := Spawn(ks[m], cs[m].image).1, Spawn(ks[n], cs[n].image).1; p >= 0 && q >= 0 ==> p < q
  {
    PidsGrow(ks, cs, idle, m + 1, n);
  }

  // --------------------------------------------------------------------- start

  /** The tables when kernel_main has made its tasks and processes, whichever succeeded. */
  function BeforeSchedule(cr3: nat, shell: nat, idle: nat, hello: Image, burn: Image): (k: Kernel)
    ensures Shaped(k)
  {
    Spawn(Spawn(KernelTasks(cr3, shell, idle), hello).0, burn).0
  }

  lemma BootReady(cr3: nat, shell: nat, idle: nat, hello: Image, burn: Image)
    requires shell != 0 && idle != 0 && FreshImage(KernelTasks(cr3, shell, idle), hello)
    requires FreshImage(Spawn(KernelTasks(cr3, shell, idle), hello).0, burn)
    ensures var k := BeforeSchedule(cr3, shell, idle, hello, burn);
            Between(k, 1) && k.current == -1 && k.slice == 0 && Ready(k.tasks[0])
  {
    KernelTasksReady(cr3, shell, idle);
    var a := KernelTasks(cr3, shell, idle);
    SpawnCore(a, hello);
    var b := Spawn(a, hello).0;
    AddsBetween(a, b);
    SpawnCore(b, burn);
    AddsBetween(b, Spawn(b, burn).0);
  }

  /** Whichever of the two spawns of kernel_main succeed, its schedule() enters the shell,
      and from there a run can go. */
  lemma FirstSchedule(cr3: nat, shell: nat, idle: nat, hello: Image, burn: Image)
    requires shell != 0 && idle != 0 && FreshImage(KernelTasks(cr3, shell, idle), hello)
    requires FreshImage(Spawn(KernelTasks(cr3, shell, idle), hello).0, burn)
    ensures var k := SwitchFrom(BeforeSchedule(cr3, shell, idle, hello, burn), 0).0; Run([k], [], 1) && k.current == 0
  {
    BootReady(cr3, shell, idle, hello, burn);
    hide BeforeSchedule, Core;
    ShellFirst(BeforeSchedule(cr3, shell, idle, hello, burn));
  }

  lemma ShellFirst(k: Kernel)
    requires Between(k, 1) && k.current == -1 && k.slice == 0 && Ready(k.tasks[0])
    ensures Inv(SwitchFrom(k, 0).0, 1) && SwitchFrom(k, 0).0.current == 0
  {
    SwitchKeeps(k, 1, 0);
    assert SlotAt(-1, 0) == 0;
  }
}
