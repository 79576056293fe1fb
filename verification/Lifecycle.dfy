/** What every run of ticks, sleeps, wakes, creations, spawns, exits, kills, waits and
    reaps keeps: one running task, an idle task that never stops, one live task for each
    process that has not exited, and no address space torn down under a task. */
module Lifecycle {
  import opened Words
  import opened Tasks

  /** Process j is the one that live user task i runs for. */
  ghost predicate Owns(k: Kernel, j: nat, i: nat)
    requires j < |k.procs| && i < |k.tasks|
  {
    var p, t := k.procs[j], k.tasks[i];
    p.used && !p.exited && p.pid == t.pid && p.space == t.space && p.mainTid == i
  }

  ghost predicate TaskOk(k: Kernel, i: nat)
    requires i < |k.tasks|
  {
    var t := k.tasks[i];
    && (t.state != New && t.isUser ==> 0 < t.pid < k.nextPid && t.space.UserSpace? && t.cr3 != 0)
    && (t.state != New && !t.isUser ==> t.pid == 0 && t.space == KernelSpace)
    && (Live(t) && t.isUser ==> exists j :: 0 <= j < |k.procs| && Owns(k, j, i))
  }

  ghost predicate ProcOk(k: Kernel, j: nat)
    requires j < |k.procs|
  {
    var p := k.procs[j];
    && (!p.used ==> p.space == NoSpace && !p.reapPending)
    && (p.used ==> 0 < p.pid < k.nextPid && p.space != KernelSpace)
    && (p.used && !p.exited ==>
          !p.reapPending && p.space.UserSpace? && 0 <= p.mainTid < |k.tasks|
          && Live(k.tasks[p.mainTid]) && k.tasks[p.mainTid].isUser && Owns(k, j, p.mainTid))
    && (p.used && p.exited && p.space != NoSpace ==> p.reapPending)
    && (p.used && p.exited && p.space == NoSpace ==> !p.reapPending && p.mainTid < 0)
  }

  predicate Apart(p: Process, q: Process) {
    p.used && q.used ==> p.pid != q.pid && (p.space != NoSpace ==> p.space != q.space)
  }

  /** The two tables agree with each other. */
  ghost predicate Core(k: Kernel) {
    && Shaped(k) && k.nextPid > 0
    && (forall i :: 0 <= i < |k.tasks| ==> TaskOk(k, i))
    && (forall j :: 0 <= j < |k.procs| ==> ProcOk(k, j))
    && (forall i, j :: 0 <= i < j < |k.procs| ==> Apart(k.procs[i], k.procs[j]))
  }

  /** No task but the current one may be RUNNING; idle can be chosen. */
  ghost predicate Between(k: Kernel, idle: nat) {
    && Core(k) && idle < MAX_TASKS && Ready(k.tasks[idle]) && !k.tasks[idle].isUser
    && (k.current >= 0 ==> k.tasks[k.current].state != New)
    && (forall i :: 0 <= i < MAX_TASKS && i != k.current ==> k.tasks[i].state != Running)
  }

  /** The state after every completed call: exactly the current task is RUNNING. */
  ghost predicate Inv(k: Kernel, idle: nat) {
    Between(k, idle) && k.current >= 0 && k.tasks[k.current].state == Running && k.slice < TICKS_PER_SLICE
  }

  // ------------------------------------------------------------ the small steps

  lemma ReapKeeps(k: Kernel)
    requires Core(k)
    ensures Core(Reap(k))
  {
    var r := Reap(k);
    forall i | 0 <= i < |r.tasks| ensures TaskOk(r, i) {
      assert TaskOk(k, i);
      if Live(k.tasks[i]) && k.tasks[i].isUser {
        var j :| 0 <= j < |k.procs| && Owns(k, j, i);
        assert ProcOk(k, j) && Owns(r, j, i);
      }
    }
    forall j | 0 <= j < |r.procs| ensures ProcOk(r, j) { assert ProcOk(k, j); }
    forall i, j | 0 <= i < j < |r.procs| ensures Apart(r.procs[i], r.procs[j]) {
      assert Apart(k.procs[i], k.procs[j]) && ProcOk(k, i) && ProcOk(k, j);
    }
  }

  /** Reaping gives back the record and the space of every process that has exited, except
      that the space the call runs in waits for a later call. */
  lemma ReapFrees(k: Kernel, j: nat)
    requires Core(k) && j < |k.procs| && k.procs[j].used && k.procs[j].exited
    ensures SlotUsable(Reap(k).procs[j]) <==> k.procs[j].space == NoSpace || k.procs[j].space != CurrentSpace(k)
    ensures Reap(k).procs[j].space == if k.procs[j].space == CurrentSpace(k) then k.procs[j].space else NoSpace
  {
    assert ProcOk(k, j);
  }

  /** A record can be taken again exactly if it is unused, or its process has exited and its
      space is gone. */
  lemma UsableWhen(k: Kernel, j: nat)
    requires Core(k) && j < |k.procs|
    ensures var p := k.procs[j]; SlotUsable(p) <==> !p.used || (p.exited && p.space == NoSpace)
  {
    assert ProcOk(k, j);
  }

  /** Reaping tears down no address space that a live task, or the task the call runs
      in, still uses. */
  lemma ReapSafe(k: Kernel, j: nat, i: nat)
    requires Core(k) && j < |k.procs| && i < |k.tasks| && Doomed(k.procs[j], CurrentSpace(k))
    requires Live(k.tasks[i]) || i == k.current
    ensures k.tasks[i].space != k.procs[j].space
  {
    assert TaskOk(k, i) && ProcOk(k, j);
    if Live(k.tasks[i]) && k.tasks[i].isUser {
      var m :| 0 <= m < |k.procs| && Owns(k, m, i);
      if m < j { assert Apart(k.procs[m], k.procs[j]); }
      if j < m { assert Apart(k.procs[j], k.procs[m]); }
      assert ProcOk(k, m);
    }
  }

  /** A task changes in nothing the tables share. */
  lemma TouchTask(k: Kernel, c: nat, t: Task)
    requires Core(k) && c < |k.tasks|
    requires var u := k.tasks[c]; t.pid == u.pid && t.space == u.space && t.isUser == u.isUser && t.cr3 == u.cr3
                                  && (Live(t) <==> Live(u)) && (t.state == New <==> u.state == New)
    ensures Core(SetTask(k, c, t))
  {
    var r := SetTask(k, c, t);
    forall i | 0 <= i < |r.tasks| ensures TaskOk(r, i) {
      assert TaskOk(k, i);
      if Live(k.tasks[i]) && k.tasks[i].isUser {
        var j :| 0 <= j < |k.procs| && Owns(k, j, i);
        assert Owns(r, j, i);
      }
    }
    forall j | 0 <= j < |r.procs| ensures ProcOk(r, j) { assert ProcOk(k, j); }
  }

  lemma CoreScalars(k: Kernel, current: int, slice: nat, switches: nat)
    requires Core(k) && -1 <= current < MAX_TASKS
    ensures Core(k.(current := current, slice := slice, switches := switches))
  {
    var r := k.(current := current, slice := slice, switches := switches);
    forall i | 0 <= i < |r.tasks| ensures TaskOk(r, i) {
      assert TaskOk(k, i);
      if Live(k.tasks[i]) && k.tasks[i].isUser {
        var j :| 0 <= j < |k.procs| && Owns(k, j, i);
        assert Owns(r, j, i);
      }
    }
    forall j | 0 <= j < |r.procs| ensures ProcOk(r, j) { assert ProcOk(k, j); }
  }

  // -------------------------------------------------------------- the big steps

  lemma PutAwayKeeps(k: Kernel, idle: nat, rsp: nat)
    requires Between(k, idle)
    ensures var a := PutAway(Reap(k), rsp);
            && Between(a, idle) && a.current == k.current && a.slice == k.slice
            && (forall i :: 0 <= i < MAX_TASKS ==> a.tasks[i].state != Running)
  {
    ReapKeeps(k);
    var r := Reap(k);
    if r.current >= 0 {
      var t := r.tasks[r.current];
      TouchTask(r, r.current, t.(rsp := rsp, state := if t.state == Running then Runnable else t.state));
    }
  }

  /** context_switch_from: the scan always finds a task while idle is ready, so the
      branches that put a WAITING or ZOMBIE task back to RUNNING are never taken; after
      the call exactly the current task runs. */
  lemma SwitchKeeps(k: Kernel, idle: nat, rsp: nat)
    requires Between(k, idle) && k.slice < TICKS_PER_SLICE
    ensures var a := PutAway(Reap(k), rsp);
            Pick(a.tasks, a.current) >= 0 && Ready(a.tasks[Pick(a.tasks, a.current)])
    ensures Inv(SwitchFrom(k, rsp).0, idle)
    ensures SwitchFrom(k, rsp).0.slice == k.slice
  {
    PutAwayKeeps(k, idle, rsp);
    hide Core, Reap, PutAway, Between, Inv;
    EnterKeeps(PutAway(Reap(k), rsp), idle);
  }

  lemma EnterKeeps(a: Kernel, idle: nat)
    requires Between(a, idle) && a.slice < TICKS_PER_SLICE
    requires forall i :: 0 <= i < MAX_TASKS ==> a.tasks[i].state != Running
    ensures Pick(a.tasks, a.current) >= 0 && Ready(a.tasks[Pick(a.tasks, a.current)])
    ensures var r := Enter(a, Pick(a.tasks, a.current)).0; Inv(r, idle) && r.slice == a.slice
  {
    hide TaskOk, ProcOk, Apart, Pick, Distance;
    PickNearest(a.tasks, a.current);
    var n := Pick(a.tasks, a.current);
    var t := a.tasks[n].(state := Running, timeslice := (a.tasks[n].timeslice + 1) % U32);
    TouchTask(a, n, a.tasks[n].(state := Running));
    TouchTask(a, n, t);
    CoreScalars(SetTask(a, n, t), n, a.slice, a.switches + 1);
  }

  lemma TickKeeps(k: Kernel, idle: nat, rsp: nat)
    requires Between(k, idle) && k.slice < TICKS_PER_SLICE && k.current >= 0
    ensures Inv(Tick(k, rsp).0, idle)
  {
    if k.tasks[k.current].state == Running && k.slice + 1 < TICKS_PER_SLICE {
      CoreScalars(k, k.current, k.slice + 1, k.switches);
    } else {
      CoreScalars(k, k.current, 0, k.switches);
      SwitchKeeps(k.(slice := 0), idle, rsp);
    }
  }

  lemma SleepKeeps(k: Kernel, idle: nat, rsp: nat)
    requires Inv(k, idle) && k.current != idle
    ensures Inv(Sleep(k, rsp).0, idle)
  {
    var t := k.tasks[k.current].(state := Waiting);
    TouchTask(k, k.current, t);
    TickKeeps(SetTask(k, k.current, t), idle, rsp);
  }

  lemma WakeKeeps(k: Kernel, idle: nat, tid: int)
    requires Inv(k, idle)
    ensures Inv(Wake(k, tid), idle)
  {
    if 0 <= tid < MAX_TASKS && k.tasks[tid].state == Waiting {
      TouchTask(k, tid, k.tasks[tid].(state := Runnable));
    }
  }

  lemma YieldKeeps(k: Kernel, idle: nat, rsp: nat)
    requires Inv(k, idle)
    ensures Inv(SysYield(k, rsp).0, idle)
  {
    var t := k.tasks[k.current].(state := Runnable);
    TouchTask(k, k.current, t);
    SwitchKeeps(SetTask(k, k.current, t), idle, rsp);
  }

  /** A slot that holds no live task may be overwritten by a kernel task, or lose its stack. */
  lemma FillSlot(k: Kernel, c: nat, t: Task)
    requires Core(k) && c < |k.tasks| && !Live(k.tasks[c])
    requires (t.state != New && !t.isUser ==> t.pid == 0 && t.space == KernelSpace)
    requires t.state != New && t.isUser ==> 0 < t.pid < k.nextPid && t.space.UserSpace? && t.cr3 != 0 && !Live(t)
    ensures Core(SetTask(k, c, t))
  {
    var r := SetTask(k, c, t);
    forall i | 0 <= i < |r.tasks| ensures TaskOk(r, i) {
      assert TaskOk(k, i);
      if i != c && Live(k.tasks[i]) && k.tasks[i].isUser {
        var j :| 0 <= j < |k.procs| && Owns(k, j, i);
        assert Owns(r, j, i);
      }
    }
    forall j | 0 <= j < |r.procs| ensures ProcOk(r, j) { assert ProcOk(k, j); }
  }

  /** Live tasks and the scheduler's variables are left alone, and nothing starts running. */
  ghost predicate OnlyAdds(k: Kernel, r: Kernel) {
    && Shaped(k) && Shaped(r) && r.current == k.current && r.slice == k.slice && r.switches == k.switches
    && (forall i :: 0 <= i < MAX_TASKS && Live(k.tasks[i]) ==> r.tasks[i] == k.tasks[i])
    && (forall i :: 0 <= i < MAX_TASKS && r.tasks[i].state == Running ==> k.tasks[i].state == Running)
  }

  lemma CreateKernelCore(k: Kernel, cr3: nat, entry: Code, stack: nat)
    requires Core(k)
    ensures var r := CreateTask(k, 0, KernelSpace, cr3, InKernel(entry), stack).0; Core(r) && OnlyAdds(k, r)
  {
    var slot := FreeSlot(k.tasks);
    if slot < |k.tasks| {
      assert TaskOk(k, slot);
      FillSlot(k, slot, k.tasks[slot].(stack := 0));
      if stack != 0 { FillSlot(k, slot, CreateTask(k, 0, KernelSpace, cr3, InKernel(entry), stack).0.tasks[slot]); }
    }
  }

  lemma AddsKeeps(k: Kernel, idle: nat, r: Kernel)
    requires Inv(k, idle) && Core(r) && OnlyAdds(k, r)
    ensures Inv(r, idle)
  {
  }

  lemma NextPidKeeps(k: Kernel)
    requires Core(k)
    ensures Core(k.(nextPid := k.nextPid + 1))
  {
    var r := k.(nextPid := k.nextPid + 1);
    forall i | 0 <= i < |r.tasks| ensures TaskOk(r, i) {
      assert TaskOk(k, i);
      if Live(k.tasks[i]) && k.tasks[i].isUser {
        var j :| 0 <= j < |k.procs| && Owns(k, j, i);
        assert Owns(r, j, i);
      }
    }
    forall j | 0 <= j < |r.procs| ensures ProcOk(r, j) { assert ProcOk(k, j); }
  }

  /** A new process and its task enter together. */
  lemma JoinKeeps(k: Kernel, c: nat, t: Task, s: nat, p: Process)
    requires Core(k) && c < |k.tasks| && !Live(k.tasks[c]) && s < |k.procs| && SlotUsable(k.procs[s])
    requires t.isUser && Live(t) && 0 < t.pid < k.nextPid && t.space.UserSpace? && t.cr3 != 0
    requires p.used && !p.exited && !p.reapPending && p.pid == t.pid && p.space == t.space && p.mainTid == c
    requires forall j :: 0 <= j < |k.procs| && k.procs[j].used ==>
               k.procs[j].pid != p.pid && k.procs[j].space != p.space
    ensures Core(SetTask(k, c, t).(procs := k.procs[s := p]))
  {
    var r := SetTask(k, c, t).(procs := k.procs[s := p]);
    forall i | 0 <= i < |r.tasks| ensures TaskOk(r, i) {
      assert TaskOk(k, i);
      if i == c {
        assert Owns(r, s, c);
      } else if Live(k.tasks[i]) && k.tasks[i].isUser {
        var j :| 0 <= j < |k.procs| && Owns(k, j, i);
        assert Owns(r, j, i);
      }
    }
    forall j | 0 <= j < |r.procs| ensures ProcOk(r, j) {
      assert ProcOk(k, j);
      if j == s { assert Owns(r, s, c); }
    }
    forall i, j | 0 <= i < j < |r.procs| ensures Apart(r.procs[i], r.procs[j]) { assert Apart(k.procs[i], k.procs[j]); }
  }

  /** The space an image was loaded into is a new one. */
  predicate FreshImage(k: Kernel, image: Image) {
    image.Loaded? ==>
      && image.cr3 != 0
      && forall j :: 0 <= j < |k.procs| && k.procs[j].used ==> k.procs[j].space != UserSpace(image.d)
  }

  lemma SpawnCore(k: Kernel, image: Image)
    requires Core(k) && FreshImage(k, image)
    ensures var r := Spawn(k, image).0; Core(r) && OnlyAdds(k, r)
  {
    var s, c := ProcSlot(k.procs, 0), FreeSlot(k.tasks);
    if s < |k.procs| && image.Loaded? {
      var a := k.(nextPid := k.nextPid + 1);
      NextPidKeeps(k);
      if c < |k.tasks| {
        assert TaskOk(a, c);
        FillSlot(a, c, a.tasks[c].(stack := 0));
        if image.stack != 0 {
          forall j | 0 <= j < |k.procs| && k.procs[j].used ensures k.procs[j].pid != k.nextPid { assert ProcOk(k, j); }
          var how := ForUser(image.start, image.sp);
          var (b, tid) := CreateTask(a, k.nextPid, UserSpace(image.d), image.cr3, how, image.stack);
          JoinKeeps(a, c, b.tasks[c], s, Process(true, k.nextPid, UserSpace(image.d), tid, false, 0, false));
        }
      }
    }
  }

  /** The live task of a process and its record end together. */
  lemma EndKeeps(k: Kernel, j: nat, t: Task, code: int)
    requires Core(k) && j < |k.procs| && k.procs[j].used && !k.procs[j].exited
    requires 0 <= k.procs[j].mainTid < |k.tasks|
    requires var u := k.tasks[k.procs[j].mainTid]; t == u.(exitCode := t.exitCode, state := Zombie)
    ensures Core(MarkExited(SetTask(k, k.procs[j].mainTid, t), j, code))
  {
    var c := k.procs[j].mainTid;
    var r := MarkExited(SetTask(k, c, t), j, code);
    assert ProcOk(k, j);
    forall i | 0 <= i < |r.tasks| ensures TaskOk(r, i) {
      assert TaskOk(k, i);
      if i != c && Live(k.tasks[i]) && k.tasks[i].isUser {
        var m :| 0 <= m < |k.procs| && Owns(k, m, i);
        assert m != j && Owns(r, m, i);
      }
    }
    forall m | 0 <= m < |r.procs| ensures ProcOk(r, m) {
      assert ProcOk(k, m);
      if m < j { assert Apart(k.procs[m], k.procs[j]); } else if j < m { assert Apart(k.procs[j], k.procs[m]); }
    }
    forall i, m | 0 <= i < m < |r.procs| ensures Apart(r.procs[i], r.procs[m]) { assert Apart(k.procs[i], k.procs[m]); }
  }

  /** A live user task is the only live task with its pid, and its process knows it. */
  lemma OneTask(k: Kernel, i: nat)
    requires Core(k) && i < |k.tasks| && Live(k.tasks[i]) && k.tasks[i].isUser
    ensures var j := FindPid(k.procs, k.tasks[i].pid, 0);
            && j < |k.procs| && Owns(k, j, i)
            && (forall m :: 0 <= m < |k.tasks| && Live(k.tasks[m]) && k.tasks[m].pid == k.tasks[i].pid ==> m == i)
  {
    assert TaskOk(k, i);
    var o :| 0 <= o < |k.procs| && Owns(k, o, i);
    SamePid(k, o);
    forall m | 0 <= m < |k.tasks| && Live(k.tasks[m]) && k.tasks[m].pid == k.tasks[i].pid ensures m == i {
      assert TaskOk(k, m);
      var q :| 0 <= q < |k.procs| && Owns(k, q, m);
      SamePid(k, q);
    }
  }

  lemma SamePid(k: Kernel, o: nat)
    requires Core(k) && o < |k.procs| && k.procs[o].used
    ensures FindPid(k.procs, k.procs[o].pid, 0) == o
  {
    var j := FindPid(k.procs, k.procs[o].pid, 0);
    assert forall m :: 0 <= m < o ==> Apart(k.procs[m], k.procs[o]);
  }

  /** The state in which sys_exit switches away. */
  function Exited(k: Kernel, code: int): Kernel
    requires Shaped(k) && k.current >= 0
  {
    var t := k.tasks[k.current];
    SetTask(TaskExited(k, t.pid, code), k.current, t.(exitCode := code, state := Zombie))
  }

  lemma ExitBetween(k: Kernel, idle: nat, code: int)
    requires Inv(k, idle) && k.tasks[k.current].isUser
    ensures Between(Exited(k, code), idle) && Exited(k, code).slice < TICKS_PER_SLICE
  {
    var c := k.current;
    OneTask(k, c);
    var j := FindPid(k.procs, k.tasks[c].pid, 0);
    var t := k.tasks[c].(exitCode := code, state := Zombie);
    EndKeeps(k, j, t, code);
    assert MarkExited(SetTask(k, c, t), j, code) == Exited(k, code);
  }

  lemma ExitKeeps(k: Kernel, idle: nat, code: int, rsp: nat)
    requires Inv(k, idle) && k.tasks[k.current].isUser
    ensures Inv(SysExit(k, code, rsp).0, idle)
  {
    ExitBetween(k, idle, code);
    SwitchKeeps(Exited(k, code), idle, rsp);
  }

  /** The victim of a kill is the process's own task. */
  lemma VictimIsMain(k: Kernel, pid: int)
    requires Core(k)
    requires var j := FindPid(k.procs, pid, 0); j < |k.procs| && !k.procs[j].exited
    ensures var j, v := FindPid(k.procs, pid, 0), FindVictim(k.tasks, pid, 0);
            pid > 0 && v < |k.tasks| && v == k.procs[j].mainTid && k.tasks[v].isUser && Owns(k, j, v)
  {
    var j := FindPid(k.procs, pid, 0);
    assert ProcOk(k, j);
    OneTask(k, k.procs[j].mainTid);
  }

  lemma KillKeeps(k: Kernel, idle: nat, pid: int, code: int)
    requires Inv(k, idle) && !k.tasks[k.current].isUser
    ensures Inv(Kill(k, pid, code).0, idle)
  {
    var j := FindPid(k.procs, pid, 0);
    if j < |k.procs| && !k.procs[j].exited {
      VictimIsMain(k, pid);
      var v := FindVictim(k.tasks, pid, 0);
      EndKeeps(k, j, k.tasks[v].(exitCode := code, state := Zombie), code);
    }
  }

  lemma WaitKeeps(k: Kernel, idle: nat, pid: int)
    requires Inv(k, idle)
    ensures Inv(WaitPoll(k, pid).0, idle)
  {
    var j := FindPid(k.procs, pid, 0);
    if j < |k.procs| && k.procs[j].exited && !k.procs[j].reapPending && k.procs[j].space == NoSpace {
      var r := WaitPoll(k, pid).0;
      forall i | 0 <= i < |r.tasks| ensures TaskOk(r, i) {
        assert TaskOk(k, i);
        if Live(k.tasks[i]) && k.tasks[i].isUser {
          var m :| 0 <= m < |k.procs| && Owns(k, m, i);
          assert Owns(r, m, i);
        }
      }
      forall m | 0 <= m < |r.procs| ensures ProcOk(r, m) { assert ProcOk(k, m); }
      forall i, m | 0 <= i < m < |r.procs| ensures Apart(r.procs[i], r.procs[m]) {
        assert Apart(k.procs[i], k.procs[m]);
      }
    }
  }

  // ------------------------------------------------------------------------ boot

  /** task_init and process_init. */
  function Initial(): (k: Kernel)
    ensures Shaped(k)
  {
    Kernel(seq(MAX_TASKS, _ => Task(0, New, 0, 0, 0, 0, false, NoSpace, 0, NoFrame)), -1, 0, 0,
           seq(MAX_PROCESSES, _ => Process(false, 0, NoSpace, -1, false, 0, false)), 1)
  }

  /** The tables after kernel_main has made the shell and the idle task. */
  function KernelTasks(cr3: nat, shell: nat, idle: nat): (k: Kernel)
    ensures Shaped(k)
  {
    var a := CreateTask(Initial(), 0, KernelSpace, cr3, InKernel(ShellTask), shell).0;
    CreateTask(a, 0, KernelSpace, cr3, InKernel(IdleTask), idle).0
  }

  /** The shell is task 0, the idle task is task 1 and ready. */
  lemma KernelTasksReady(cr3: nat, shell: nat, idle: nat)
    requires shell != 0 && idle != 0
    ensures var k := KernelTasks(cr3, shell, idle);
            && Between(k, 1) && k.current == -1 && k.slice == 0 && Ready(k.tasks[0])
            && k.tasks[0].frame.Frame? && k.tasks[0].frame.rip == ShellTask
            && k.tasks[1].frame.Frame? && k.tasks[1].frame.rip == IdleTask
  {
    var i := Initial();
    assert Core(i);
    CreateKernelCore(i, cr3, ShellTask, shell);
    var a := CreateTask(i, 0, KernelSpace, cr3, InKernel(ShellTask), shell).0;
    assert FirstEmpty(i.tasks, 0) == 0;
    CreateKernelCore(a, cr3, IdleTask, idle);
    assert FirstEmpty(a.tasks, 0) == 1;
  }

  /** Before the first schedule() tasks are only added. */
  lemma AddsBetween(k: Kernel, r: Kernel)
    requires Between(k, 1) && k.current == -1 && k.slice == 0 && Ready(k.tasks[0]) && Core(r) && OnlyAdds(k, r)
    ensures Between(r, 1) && r.current == -1 && r.slice == 0 && Ready(r.tasks[0])
  {
  }
}
