/** kernel/scheduler/task.c, kernel/process.c and the scheduling part of
    kernel/syscall.c as functions on one state: the task table, the process table and
    the scheduler's variables. Module Scheduler runs the same calls in place. */
module Tasks {
  import opened Words

  const MAX_TASKS: nat := 16
  const MAX_PROCESSES: nat := 16
  const TICKS_PER_SLICE: nat := 5
  const STACK_SIZE: nat := 16384
  const FRAME_BYTES: nat := 176

  datatype State = New | Runnable | Running | Waiting | Zombie

  /** An AddressSpace pointer: null, &kernel_address_space, or the record in frame d. */
  datatype Space = NoSpace | KernelSpace | UserSpace(d: nat)

  /** Where a task begins: one of the two functions that kernel_main makes tasks of, or an
      address. */
  datatype Code = ShellTask | IdleTask | Address(a: nat)

  /** The part of an InterruptFrame that iretq loads. */
  datatype Frame = NoFrame | Frame(rip: Code, cs: nat, rflags: nat, rsp: nat, ss: nat)

  /** frame is the one that was put on the stack when the task was made. */
  datatype Task = Task(
    pid: int, state: State, rsp: nat, cr3: nat, timeslice: nat, exitCode: int, isUser: bool, space: Space, stack: nat,
    frame: Frame)

  datatype Process = Process(
    used: bool, pid: int, space: Space, mainTid: int, exited: bool, exitCode: int, reapPending: bool)

  datatype Kernel = Kernel(
    tasks: seq<Task>, current: int, slice: nat, switches: nat, procs: seq<Process>, nextPid: int)

  predicate Shaped(k: Kernel) {
    |k.tasks| == MAX_TASKS && |k.procs| == MAX_PROCESSES && -1 <= k.current < MAX_TASKS
  }

  function SetTask(k: Kernel, i: nat, t: Task): Kernel
    requires i < |k.tasks|
  {
    k.(tasks := k.tasks[i := t])
  }

  // ---------------------------------------------------------------- choosing

  predicate Ready(t: Task) { t.state == Runnable || t.state == Running }

  predicate Live(t: Task) { t.state != New && t.state != Zombie }

  function Start(current: int): nat
    requires -1 <= current < MAX_TASKS
  {
    if current < 0 then 0 else (current + 1) % MAX_TASKS
  }

  /** How many slots the circular scan passes before slot t. */
  function Distance(current: int, t: nat): nat
    requires -1 <= current < MAX_TASKS && t < MAX_TASKS
  {
    (t + MAX_TASKS - Start(current)) % MAX_TASKS
  }

  /** The slot the scan looks at after i others. */
  function SlotAt(current: int, i: nat): (t: nat)
    requires -1 <= current < MAX_TASKS
    ensures t < MAX_TASKS
  {
    (Start(current) + i) % MAX_TASKS
  }

  function PickFrom(tasks: seq<Task>, current: int, i: nat): (r: int)
    requires |tasks| == MAX_TASKS && -1 <= current < MAX_TASKS && i <= MAX_TASKS
    ensures -1 <= r < MAX_TASKS
    decreases MAX_TASKS - i
  {
    if i == MAX_TASKS then -1
    else if Ready(tasks[SlotAt(current, i)]) then SlotAt(current, i)
    else PickFrom(tasks, current, i + 1)
  }

  /** pick_next_runnable */
  function Pick(tasks: seq<Task>, current: int): (r: int)
    requires |tasks| == MAX_TASKS && -1 <= current < MAX_TASKS
    ensures -1 <= r < MAX_TASKS
  {
    PickFrom(tasks, current, 0)
  }

  lemma SlotDistance(current: int, i: nat, t: nat)
    requires -1 <= current < MAX_TASKS && t < MAX_TASKS && i < MAX_TASKS
    ensures SlotAt(current, i) == t <==> Distance(current, t) == i
  {
  }

  lemma {:induction false} PickFromNearest(tasks: seq<Task>, current: int, i: nat)
    requires |tasks| == MAX_TASKS && -1 <= current < MAX_TASKS && i <= MAX_TASKS
    ensures var r := PickFrom(tasks, current, i);
            && (r >= 0 ==> Ready(tasks[r]) && i <= Distance(current, r))
            && (forall t :: 0 <= t < MAX_TASKS && i <= Distance(current, t) && Ready(tasks[t])
                            ==> r >= 0 && Distance(current, r) <= Distance(current, t))
    decreases MAX_TASKS - i
  {
    if i < MAX_TASKS {
      SlotDistance(current, i, SlotAt(current, i));
      if !Ready(tasks[SlotAt(current, i)]) {
        PickFromNearest(tasks, current, i + 1);
        forall t | 0 <= t < MAX_TASKS && i <= Distance(current, t) && Ready(tasks[t])
          ensures i + 1 <= Distance(current, t)
        {
          SlotDistance(current, i, t);
        }
      }
    }
  }

  /** The scan finds the ready task at the smallest circular distance, and none only
      when no task is ready. */
  lemma PickNearest(tasks: seq<Task>, current: int)
    requires |tasks| == MAX_TASKS && -1 <= current < MAX_TASKS
    ensures var r := Pick(tasks, current);
            && (r >= 0 ==> Ready(tasks[r]))
            && (forall t :: 0 <= t < MAX_TASKS && Ready(tasks[t]) ==>
                 r >= 0 && Distance(current, r) <= Distance(current, t))
  {
    PickFromNearest(tasks, current, 0);
  }

  // ------------------------------------------------------------------ reaping

  function CurrentSpace(k: Kernel): Space
    requires Shaped(k)
  {
    if k.current < 0 then NoSpace else k.tasks[k.current].space
  }

  /** process_reap_deferred destroys the address space of this process. */
  predicate Doomed(p: Process, here: Space) {
    p.used && p.reapPending && p.space != NoSpace && p.space != here
  }

  function ReapOne(p: Process, here: Space): Process {
    if !p.used || !p.reapPending then p
    else if p.space == NoSpace then p.(reapPending := false, mainTid := -1)
    else if p.space == here then p
    else p.(space := NoSpace, reapPending := false, mainTid := -1)
  }

  /** process_reap_deferred */
  function Reap(k: Kernel): (r: Kernel)
    requires Shaped(k)
    ensures r.tasks == k.tasks && r.current == k.current && r.slice == k.slice && r.switches == k.switches
    ensures r.nextPid == k.nextPid
    ensures |r.procs| == |k.procs|
    ensures forall i :: 0 <= i < |k.procs| ==> r.procs[i] == ReapOne(k.procs[i], CurrentSpace(k))
  {
    k.(procs := seq(|k.procs|, i requires 0 <= i < |k.procs| => ReapOne(k.procs[i], CurrentSpace(k))))
  }

  // ---------------------------------------------------------------- switching

  /** The current task is put away: its stack pointer saved, RUNNING made RUNNABLE. */
  function PutAway(k: Kernel, rsp: nat): Kernel
    requires Shaped(k)
  {
    if k.current < 0 then k
    else
      var t := k.tasks[k.current];
      SetTask(k, k.current, t.(rsp := rsp, state := if t.state == Running then Runnable else t.state))
  }

  /** What is done with the answer of the scan; the second part is the stack pointer to
      load, 0 to stay. */
  function Enter(k: Kernel, next: int): (Kernel, nat)
    requires Shaped(k) && -1 <= next < MAX_TASKS
  {
    if next < 0 then
      if k.current >= 0 then (SetTask(k, k.current, k.tasks[k.current].(state := Running)), 0) else (k, 0)
    else if next == k.current then (SetTask(k, next, k.tasks[next].(state := Running)), 0)
    else
      var t := k.tasks[next];
      (SetTask(k, next, t.(state := Running, timeslice := (t.timeslice + 1) % U32))
         .(current := next, switches := k.switches + 1), t.rsp)
  }

  /** context_switch_from */
  function SwitchFrom(k: Kernel, rsp: nat): (Kernel, nat)
    requires Shaped(k)
  {
    var a := PutAway(Reap(k), rsp);
    Enter(a, Pick(a.tasks, a.current))
  }

  /** schedule_on_tick */
  function Tick(k: Kernel, rsp: nat): (Kernel, nat)
    requires Shaped(k)
  {
    if k.current >= 0 && k.tasks[k.current].state == Running && k.slice + 1 < TICKS_PER_SLICE
    then (k.(slice := k.slice + 1), 0)
    else SwitchFrom(k.(slice := 0), rsp)
  }

  /** task_sleep by the current task, through the software timer interrupt. */
  function Sleep(k: Kernel, rsp: nat): (Kernel, nat)
    requires Shaped(k) && k.current >= 0
  {
    Tick(SetTask(k, k.current, k.tasks[k.current].(state := Waiting)), rsp)
  }

  function Wake(k: Kernel, tid: int): Kernel
    requires Shaped(k)
  {
    if 0 <= tid < MAX_TASKS && k.tasks[tid].state == Waiting
    then SetTask(k, tid, k.tasks[tid].(state := Runnable)) else k
  }

  // ----------------------------------------------------------------- creating

  function FirstEmpty(tasks: seq<Task>, i: nat): (r: nat)
    requires i <= |tasks|
    ensures i <= r <= |tasks| && (r < |tasks| ==> !Live(tasks[r]) && tasks[r].stack == 0)
    decreases |tasks| - i
  {
    if i == |tasks| || (!Live(tasks[i]) && tasks[i].stack == 0) then i else FirstEmpty(tasks, i + 1)
  }

  function FirstZombie(tasks: seq<Task>, i: nat): (r: nat)
    requires i <= |tasks|
    ensures i <= r <= |tasks| && (r < |tasks| ==> tasks[r].state == Zombie)
    decreases |tasks| - i
  {
    if i == |tasks| || tasks[i].state == Zombie then i else FirstZombie(tasks, i + 1)
  }

  /** find_free_slot: a slot without a stack, else a zombie whose stack is freed. */
  function FreeSlot(tasks: seq<Task>): (r: nat)
    ensures r <= |tasks| && (r < |tasks| ==> !Live(tasks[r]))
  {
    if FirstEmpty(tasks, 0) < |tasks| then FirstEmpty(tasks, 0) else FirstZombie(tasks, 0)
  }

  /** What a task is made to run: a kernel function, or a user program from start on with its
      stack pointer at sp. */
  datatype Mode = InKernel(entry: Code) | ForUser(start: nat, sp: nat)

  /** setup_initial_frame; top is the top of the task's kernel stack. */
  function InitialFrame(how: Mode, top: nat): Frame {
    match how
    case InKernel(entry) => Frame(entry, 0x08, 0x202, top, 0x10)
    case ForUser(start, sp) => Frame(Address(start), 0x1B, 0x202, sp, 0x23)
  }

  /** task_create_kernel and task_create_user; stack is the answer of kmalloc. */
  function CreateTask(k: Kernel, pid: int, space: Space, cr3: nat, how: Mode, stack: nat): (Kernel, int)
    requires Shaped(k)
  {
    var slot: int := FreeSlot(k.tasks);
    if slot == |k.tasks| then (k, -1)
    else
      var t := k.tasks[slot].(stack := 0);
      if stack == 0 then (SetTask(k, slot, t), -1)
      else
        var top := (stack + STACK_SIZE) / 16 * 16;
        (SetTask(k, slot, Task(pid, Runnable, top - FRAME_BYTES, cr3, 0, 0, how.ForUser?, space, stack,
                               InitialFrame(how, top))), slot)
  }

  // ---------------------------------------------------------------- processes

  predicate SlotUsable(p: Process) {
    !p.used || (p.exited && p.space == NoSpace && p.mainTid < 0)
  }

  /** alloc_process_slot */
  function ProcSlot(procs: seq<Process>, i: nat): (r: nat)
    requires i <= |procs|
    ensures i <= r <= |procs| && (r < |procs| ==> SlotUsable(procs[r]))
    decreases |procs| - i
  {
    if i == |procs| || SlotUsable(procs[i]) then i else ProcSlot(procs, i + 1)
  }

  /** find_process_by_pid */
  function FindPid(procs: seq<Process>, pid: int, i: nat): (r: nat)
    requires i <= |procs|
    ensures i <= r <= |procs| && (r < |procs| ==> procs[r].used && procs[r].pid == pid)
    ensures forall j :: i <= j < r ==> !(procs[j].used && procs[j].pid == pid)
    decreases |procs| - i
  {
    if i == |procs| || (procs[i].used && procs[i].pid == pid) then i else FindPid(procs, pid, i + 1)
  }

  /** How the parts of process_spawn_from_elf that touch memory end: no space could be
      made, loading failed (the space is destroyed again), or the image is loaded into
      the space in frame d with root table cr3, its entry point and stack pointer; stack is
      then kmalloc's answer. */
  datatype Image = Nothing | Loaded(d: nat, cr3: nat, start: nat, sp: nat, stack: nat)

  /** process_spawn_from_elf */
  function Spawn(k: Kernel, image: Image): (r: (Kernel, int))
    requires Shaped(k)
    ensures Shaped(r.0)
  {
    var slot := ProcSlot(k.procs, 0);
    if slot == |k.procs| || image.Nothing? then (k, -1)
    else
      var pid := k.nextPid;
      var how := ForUser(image.start, image.sp);
      var (a, tid) := CreateTask(k.(nextPid := pid + 1), pid, UserSpace(image.d), image.cr3, how, image.stack);
      if tid < 0 then (a, -1)
      else (a.(procs := a.procs[slot := Process(true, pid, UserSpace(image.d), tid, false, 0, false)]), pid)
  }

  function MarkExited(k: Kernel, i: nat, code: int): Kernel
    requires i < |k.procs|
  {
    k.(procs := k.procs[i := k.procs[i].(exited := true, exitCode := code, reapPending := true)])
  }

  /** process_task_exited */
  function TaskExited(k: Kernel, pid: int, code: int): Kernel {
    var i := FindPid(k.procs, pid, 0);
    if i == |k.procs| then k else MarkExited(k, i, code)
  }

  function FindVictim(tasks: seq<Task>, pid: int, i: nat): (r: nat)
    requires i <= |tasks|
    ensures i <= r <= |tasks| && (r < |tasks| ==> tasks[r].pid == pid && Live(tasks[r]))
    ensures forall j :: i <= j < r ==> !(tasks[j].pid == pid && Live(tasks[j]))
    decreases |tasks| - i
  {
    if i == |tasks| || (tasks[i].pid == pid && Live(tasks[i])) then i else FindVictim(tasks, pid, i + 1)
  }

  /** process_kill from a task that is not the victim. */
  function Kill(k: Kernel, pid: int, code: int): (Kernel, int)
    requires Shaped(k)
  {
    var i := FindPid(k.procs, pid, 0);
    if i == |k.procs| then (k, -1)
    else if k.procs[i].exited then (k, 1)
    else if pid <= 0 then (k, -1)
    else
      var v := FindVictim(k.tasks, pid, 0);
      if v == |k.tasks| then (k, -1)
      else (MarkExited(SetTask(k, v, k.tasks[v].(exitCode := code, state := Zombie)), i, code), 0)
  }

  /** process_wait_poll; the third part is the exit code that is reported. */
  function WaitPoll(k: Kernel, pid: int): (Kernel, int, int) {
    var i := FindPid(k.procs, pid, 0);
    if i == |k.procs| then (k, -1, 0)
    else
      var p := k.procs[i];
      if !p.exited then (k, 0, 0)
      else if !p.reapPending && p.space == NoSpace
        then (k.(procs := k.procs[i := Process(false, 0, NoSpace, -1, false, 0, false)]), 1, p.exitCode)
      else (k, 1, p.exitCode)
  }

  // ------------------------------------------------------------------ syscalls

  /** sys_exit and the switch that syscall_dispatch makes after it. */
  function SysExit(k: Kernel, code: int, rsp: nat): (Kernel, nat)
    requires Shaped(k) && k.current >= 0
  {
    var t := k.tasks[k.current];
    var a := TaskExited(k, t.pid, code);
    SwitchFrom(SetTask(a, a.current, t.(exitCode := code, state := Zombie)), rsp)
  }

  /** A system call that returned 0: sys_yield, or sys_write of no bytes. */
  function SysYield(k: Kernel, rsp: nat): (Kernel, nat)
    requires Shaped(k) && k.current >= 0
  {
    var t := k.tasks[k.current];
    var s := if t.state != Waiting && t.state != Zombie then Runnable else t.state;
    SwitchFrom(SetTask(k, k.current, t.(state := s)), rsp)
  }

  /** task_self_check */
  function RunningCount(tasks: seq<Task>): nat {
    if tasks == [] then 0 else (if tasks[0].state == Running then 1 else 0) + RunningCount(tasks[1..])
  }

  predicate SelfCheck(k: Kernel) {
    && (forall t :: t in k.tasks && t.isUser && t.state != New ==> t.space != NoSpace && t.cr3 != 0)
    && RunningCount(k.tasks) <= 1
    && (k.current >= 0 ==> k.current < |k.tasks| && k.tasks[k.current].state == Running)
  }
}
