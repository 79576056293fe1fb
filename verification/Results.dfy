/** What process_spawn_from_elf, process_kill, process_wait_poll and the task creations return,
    and what a caller may conclude from it over whole runs; said of the two tables alone. */
module Results {
  import opened Words
  import opened Tasks
  import opened Lifecycle
  import opened SchedulerRuns

  /** There is a record of process pid, and it says whether the process has exited. */
  ghost predicate Recorded(k: Kernel, pid: int, exited: bool) {
    exists j :: 0 <= j < |k.procs| && RecordOf(k.procs[j], pid) && k.procs[j].exited == exited
  }

  predicate RecordOf(p: Process, pid: int) { p.used && p.pid == pid }

  /** The process has exited and its address space is gone. */
  predicate Finished(p: Process) { p.used && p.exited && !p.reapPending && p.space == NoSpace }

  lemma OneRecord(k: Kernel, pid: int, j: nat)
    requires Core(k) && j < |k.procs| && RecordOf(k.procs[j], pid)
    ensures FindPid(k.procs, pid, 0) == j
    ensures forall i :: 0 <= i < |k.procs| && RecordOf(k.procs[i], pid) ==> i == j
  {
    SamePid(k, j);
    forall i | 0 <= i < |k.procs| && RecordOf(k.procs[i], pid) ensures i == j { SamePid(k, i); }
  }

  // ------------------------------------------------------------------- waiting

  /** process_wait_poll answers -1 exactly without a record, 0 exactly for a process that has
      not exited, 1 exactly for one that has, with its code; it changes nothing, except that
      a finished record it reports on is cleared. */
  lemma WaitAnswers(k: Kernel, pid: int)
    requires Core(k)
    ensures var (r, answer, code) := WaitPoll(k, pid);
            && -1 <= answer <= 1
            && (answer == 0 <==> Recorded(k, pid, false)) && (answer == 1 <==> Recorded(k, pid, true))
            && (answer == 1 ==> forall p :: p in k.procs && RecordOf(p, pid) ==> code == p.exitCode)
            && |r.procs| == |k.procs| && r == k.(procs := r.procs)
            && forall j :: 0 <= j < |k.procs| ==>
                 if RecordOf(k.procs[j], pid) && Finished(k.procs[j]) then !r.procs[j].used
                 else r.procs[j] == k.procs[j]
  {
    var i := FindPid(k.procs, pid, 0);
    if i < |k.procs| {
      OneRecord(k, pid, i);
    }
  }

  // ------------------------------------------------------------------- killing

  /** process_kill answers -1 exactly without a record, 1 exactly for a process that has
      exited, and 0 exactly for one that has not: then its record has the code and awaits
      reaping, its task is a zombie with the code, and nothing else changes. */
  lemma KillAnswers(k: Kernel, pid: int, code: int)
    requires Core(k)
    ensures var (r, answer) := Kill(k, pid, code);
            && -1 <= answer <= 1 && (answer != 0 ==> r == k)
            && (answer == 0 <==> Recorded(k, pid, false)) && (answer == 1 <==> Recorded(k, pid, true))
            && (answer == 0 ==>
                  && |r.tasks| == |k.tasks| && |r.procs| == |k.procs| && r == k.(tasks := r.tasks, procs := r.procs)
                  && (forall j :: 0 <= j < |k.procs| ==>
                        if RecordOf(k.procs[j], pid)
                        then r.procs[j] == k.procs[j].(exited := true, exitCode := code, reapPending := true)
                        else r.procs[j] == k.procs[j])
                  && forall i :: 0 <= i < |k.tasks| ==>
                       if Live(k.tasks[i]) && k.tasks[i].pid == pid
                       then r.tasks[i] == k.tasks[i].(exitCode := code, state := Zombie)
                       else r.tasks[i] == k.tasks[i])
  {
    var i := FindPid(k.procs, pid, 0);
    if i < |k.procs| {
      OneRecord(k, pid, i);
      if !k.procs[i].exited {
        VictimIsMain(k, pid);
        OneTask(k, FindVictim(k.tasks, pid, 0));
      }
    }
  }

  // ------------------------------------------------------------------ creating

  /** A slot that find_free_slot can use: a zombie, or one that is new and has no stack. */
  predicate SlotFree(t: Task) { t.state == Zombie || (t.state == New && t.stack == 0) }

  lemma {:induction false} EmptyIff(tasks: seq<Task>, i: nat)
    requires i <= |tasks|
    ensures FirstEmpty(tasks, i) < |tasks| <==> exists j :: i <= j < |tasks| && !Live(tasks[j]) && tasks[j].stack == 0
    decreases |tasks| - i
  {
    if i < |tasks| && !(!Live(tasks[i]) && tasks[i].stack == 0) { EmptyIff(tasks, i + 1); }
  }

  lemma {:induction false} ZombieIff(tasks: seq<Task>, i: nat)
    requires i <= |tasks|
    ensures FirstZombie(tasks, i) < |tasks| <==> exists j :: i <= j < |tasks| && tasks[j].state == Zombie
    decreases |tasks| - i
  {
    if i < |tasks| && tasks[i].state != Zombie { ZombieIff(tasks, i + 1); }
  }

  /** find_free_slot finds a free slot exactly if there is one, and one without a stack to
      free exactly if there is such a one. */
  lemma FreeSlotIff(tasks: seq<Task>)
    ensures var r := FreeSlot(tasks);
            && (r < |tasks| <==> exists j :: 0 <= j < |tasks| && SlotFree(tasks[j]))
            && (r < |tasks| ==> SlotFree(tasks[r]))
            && (r < |tasks| && tasks[r].stack != 0 ==>
                  forall j :: 0 <= j < |tasks| && !Live(tasks[j]) ==> tasks[j].stack != 0)
  {
    EmptyIff(tasks, 0);
    ZombieIff(tasks, 0);
    hide FirstEmpty, FirstZombie;
  }

  /** Whether an initial frame at rsp is the topmost aligned one of the stack. */
  predicate AtTop(rsp: nat, stack: nat) {
    rsp % 16 == 0 && rsp + FRAME_BYTES <= stack + STACK_SIZE < rsp + FRAME_BYTES + 16
  }

  /** The first iretq with this frame goes where it was asked to: in ring 0 and on the task's own
      stack for a kernel function, in ring 3 and on the user's stack for a user program;
      interrupts are on. */
  predicate StartsAt(f: Frame, how: Mode, stack: nat) {
    && f.Frame? && f.rflags / 0x200 % 2 == 1
    && match how
       case InKernel(entry) =>
         f.rip == entry && f.cs % 4 == 0 && f.ss % 4 == 0 && f.rsp % 16 == 0 && f.rsp <= stack + STACK_SIZE < f.rsp + 16
       case ForUser(start, sp) => f.rip == Address(start) && f.cs % 4 == 3 && f.ss % 4 == 3 && f.rsp == sp
  }

  /** Task u is new in its slot and ready to run for pid in the given space. */
  predicate NewTask(t: Task, u: Task, pid: int, space: Space, cr3: nat, how: Mode, stack: nat) {
    && !Live(t) && u.state == Runnable && u.pid == pid && u.space == space && u.cr3 == cr3 && u.isUser == how.ForUser?
    && u.stack == stack && AtTop(u.rsp, stack) && u.timeslice == 0 && u.exitCode == 0 && StartsAt(u.frame, how, stack)
  }

  /** The task creations return the slot of the new task, the one slot that changes, or -1
      exactly if there is no free slot or no memory for a stack. */
  lemma CreateAnswers(k: Kernel, pid: int, space: Space, cr3: nat, how: Mode, stack: nat)
    requires Shaped(k)
    ensures var (r, tid) := CreateTask(k, pid, space, cr3, how, stack);
            && (tid >= 0 <==> stack != 0 && exists i :: 0 <= i < |k.tasks| && SlotFree(k.tasks[i]))
            && -1 <= tid < |k.tasks| && |r.tasks| == |k.tasks| && r == k.(tasks := r.tasks)
            && (tid >= 0 ==> NewTask(k.tasks[tid], r.tasks[tid], pid, space, cr3, how, stack))
            && forall i :: 0 <= i < |k.tasks| && i != tid ==>
                 r.tasks[i] == k.tasks[i] || (!Live(k.tasks[i]) && r.tasks[i] == k.tasks[i].(stack := 0))
  {
    FreeSlotIff(k.tasks);
    hide FreeSlot;
  }

  lemma {:induction false} UsableIff(procs: seq<Process>, i: nat)
    requires i <= |procs|
    ensures var r := ProcSlot(procs, i); forall j :: i <= j < r ==> !SlotUsable(procs[j])
    decreases |procs| - i
  {
    if i < |procs| && !SlotUsable(procs[i]) { UsableIff(procs, i + 1); }
  }

  /** Record j becomes that of the new process, with task i its one task. */
  predicate NewProcess(k: Kernel, r: Kernel, image: Image, j: nat, i: nat)
    requires image.Loaded? && Shaped(k) && Shaped(r)
  {
    && j < |k.procs| && i < |k.tasks| && SlotUsable(k.procs[j])
    && (forall m :: 0 <= m < j ==> !SlotUsable(k.procs[m]))
    && RecordOf(r.procs[j], k.nextPid) && !r.procs[j].exited && !r.procs[j].reapPending
    && r.procs[j].space == UserSpace(image.d) && r.procs[j].mainTid == i
    && NewTask(k.tasks[i], r.tasks[i], k.nextPid, UserSpace(image.d), image.cr3,
               ForUser(image.start, image.sp), image.stack)
    && (forall m :: 0 <= m < |k.procs| && m != j ==> r.procs[m] == k.procs[m])
    && (forall m :: 0 <= m < |k.tasks| && m != i ==> r.tasks[m] == k.tasks[m])
  }

  /** process_spawn_from_elf returns the next pid, with a record and a task for it in usable
      slots, exactly if there are such slots, the image is in a space and there is memory for
      a kernel stack; otherwise -1, and no record and no live task changes. */
  lemma SpawnAnswers(k: Kernel, image: Image)
    requires Core(k)
    ensures var (r, pid) := Spawn(k, image);
            && (pid == -1 || pid == k.nextPid > 0) && Shaped(r)
            && (pid >= 0 <==>
                  && image.Loaded? && image.stack != 0
                  && (exists j :: 0 <= j < |k.procs| && SlotUsable(k.procs[j]))
                  && (exists i :: 0 <= i < |k.tasks| && SlotFree(k.tasks[i])))
            && (pid >= 0 ==> r.nextPid == pid + 1 && exists j: nat, i: nat :: NewProcess(k, r, image, j, i))
            && (pid < 0 ==>
                  && r.procs == k.procs && k.nextPid <= r.nextPid
                  && forall i :: 0 <= i < |k.tasks| ==>
                       r.tasks[i] == k.tasks[i] || (!Live(k.tasks[i]) && r.tasks[i] == k.tasks[i].(stack := 0)))
  {
    UsableIff(k.procs, 0);
    if image.Loaded? {
      var a := k.(nextPid := k.nextPid + 1);
      var how := ForUser(image.start, image.sp);
      CreateAnswers(a, k.nextPid, UserSpace(image.d), image.cr3, how, image.stack);
      CreatedAlone(a, k.nextPid, UserSpace(image.d), image.cr3, how, image.stack);
      var j, i := ProcSlot(k.procs, 0), CreateTask(a, k.nextPid, UserSpace(image.d), image.cr3, how, image.stack).1;
      hide CreateTask, ProcSlot;
      if Spawn(k, image).1 >= 0 { assert NewProcess(k, Spawn(k, image).0, image, j, i); }
    }
  }

  lemma CreatedAlone(k: Kernel, pid: int, space: Space, cr3: nat, how: Mode, stack: nat)
    requires Shaped(k)
    ensures var (r, tid) := CreateTask(k, pid, space, cr3, how, stack);
            tid >= 0 ==> forall i :: 0 <= i < |k.tasks| && i != tid ==> r.tasks[i] == k.tasks[i]
  {
  }

  // ------------------------------------------------------------- over whole runs

  /** A wait on a process that runs answers 0 and changes nothing. */
  lemma WaitOnLive(k: Kernel, j: nat)
    requires Core(k) && j < |k.procs| && k.procs[j].used && !k.procs[j].exited
    ensures WaitPoll(k, k.procs[j].pid).0 == k && WaitPoll(k, k.procs[j].pid).1 == 0
  {
    OneRecord(k, k.procs[j].pid, j);
  }

  /** A process that has not exited keeps its record through every call that does not end it. */
  lemma RecordStays(k: Kernel, idle: nat, c: Call, j: nat)
    requires Inv(k, idle) && Allowed(k, idle, c) && j < |k.procs| && k.procs[j].used && !k.procs[j].exited
    requires forall code :: !Ends(k, c, k.procs[j].pid, code)
    ensures j < |Do(k, c).procs| && Do(k, c).procs[j] == k.procs[j]
  {
    var pid := k.procs[j].pid;
    assert ProcOk(k, j);
    OneRecord(k, pid, j);
    if Reaps(k, c) {
      ProcsAfter(k, idle, c);
      if c.ExitProcess? {
        OneTask(k, k.current);
        assert !Ends(k, c, pid, c.code);
      }
    } else if c.KillProcess? {
      KillAnswers(k, c.pid, c.code);
      assert !Ends(k, c, pid, c.code);
    } else if c.WaitFor? {
      WaitAnswers(k, c.pid);
    } else if c.SpawnImage? {
      SpawnAnswers(k, c.image);
    }
  }

  /** Step i of the run ends process pid. */
  ghost predicate EndsAt(ks: seq<Kernel>, cs: seq<Call>, idle: nat, i: nat, pid: int)
    requires |ks| == |cs| + 1 && i < |cs|
  {
    StepAt(ks, cs, idle, i) && exists code :: Ends(ks[i], cs[i], pid, code)
  }

  /** A process that has not exited has its record until it ends. */
  lemma {:induction false} RecordedThrough(ks: seq<Kernel>, cs: seq<Call>, idle: nat, m: nat, n: nat, pid: int)
    requires Run(ks, cs, idle) && m <= n <= |cs| && Recorded(ks[m], pid, false)
    requires forall i :: m <= i < n ==> !EndsAt(ks, cs, idle, i, pid)
    ensures Recorded(ks[n], pid, false)
    decreases n
  {
    hide *;
    RunLength(ks, cs, idle);
    if m < n {
      RecordedThrough(ks, cs, idle, m, n - 1, pid);
      StepOf(ks, cs, idle, n - 1);
      NoEnd(ks, cs, idle, n - 1, pid);
      StaysRecorded(ks[n - 1], idle, cs[n - 1], pid);
    }
  }

  /** From a spawn that returned pid until the process ends, a wait for it answers 0. */
  lemma WaitWhileRunning(ks: seq<Kernel>, cs: seq<Call>, idle: nat, m: nat, n: nat, pid: int)
    requires Run(ks, cs, idle) && m < n <= |cs| && StepAt(ks, cs, idle, m)
    requires cs[m].SpawnImage? && Spawn(ks[m], cs[m].image).1 == pid && pid >= 0
    requires forall i :: m < i < n ==> !EndsAt(ks, cs, idle, i, pid)
    ensures WaitPoll(ks[n], pid).0 == ks[n] && WaitPoll(ks[n], pid).1 == 0
  {
    hide *;
    RunLength(ks, cs, idle);
    StepOf(ks, cs, idle, m);
    SpawnRecorded(ks[m], idle, cs[m]);
    RecordedThrough(ks, cs, idle, m + 1, n, pid);
    StepOf(ks, cs, idle, n - 1);
    RecordedAnswer(ks[n], idle, pid);
  }

  lemma NoEnd(ks: seq<Kernel>, cs: seq<Call>, idle: nat, i: nat, pid: int)
    requires |ks| == |cs| + 1 && i < |cs| && StepAt(ks, cs, idle, i) && !EndsAt(ks, cs, idle, i, pid)
    ensures forall code :: !Ends(ks[i], cs[i], pid, code)
  {
  }

  lemma SpawnRecorded(k: Kernel, idle: nat, c: Call)
    requires Inv(k, idle) && Allowed(k, idle, c) && c.SpawnImage? && Spawn(k, c.image).1 >= 0
    ensures Recorded(Do(k, c), Spawn(k, c.image).1, false)
  {
    SpawnAnswers(k, c.image);
    hide Spawn;
    var j: nat, i: nat :| NewProcess(k, Spawn(k, c.image).0, c.image, j, i);
    assert RecordOf(Do(k, c).procs[j], k.nextPid);
  }

  lemma StaysRecorded(k: Kernel, idle: nat, c: Call, pid: int)
    requires Inv(k, idle) && Allowed(k, idle, c) && Recorded(k, pid, false) && forall code :: !Ends(k, c, pid, code)
    ensures Recorded(Do(k, c), pid, false)
  {
    var j :| 0 <= j < |k.procs| && RecordOf(k.procs[j], pid) && !k.procs[j].exited;
    RecordStays(k, idle, c, j);
    assert RecordOf(Do(k, c).procs[j], pid);
  }

  lemma RecordedAnswer(k: Kernel, idle: nat, pid: int)
    requires Inv(k, idle) && Recorded(k, pid, false)
    ensures WaitPoll(k, pid).0 == k && WaitPoll(k, pid).1 == 0
  {
    var j :| 0 <= j < |k.procs| && RecordOf(k.procs[j], pid) && !k.procs[j].exited;
    WaitOnLive(k, j);
  }

  /** The call takes away the record that says how process pid ended: a wait for it once it
      is finished, or a spawn that succeeds when its slot is the first usable one. */
  ghost predicate Loses(k: Kernel, c: Call, pid: int)
    requires Shaped(k)
  {
    exists j :: 0 <= j < |k.procs| && RecordOf(k.procs[j], pid) && LosesSlot(k, c, j)
  }

  predicate LosesSlot(k: Kernel, c: Call, j: nat)
    requires Shaped(k) && j < |k.procs|
  {
    || (c.WaitFor? && c.pid == k.procs[j].pid && Finished(k.procs[j]))
    || (c.SpawnImage? && Spawn(k, c.image).1 >= 0
        && SlotUsable(k.procs[j]) && forall m :: 0 <= m < j ==> !SlotUsable(k.procs[m]))
  }

  /** The record of a process that has exited is lost exactly through such a call; otherwise
      it keeps saying how the process ended. */
  lemma LosesIff(k: Kernel, idle: nat, c: Call, j: nat)
    requires Inv(k, idle) && Allowed(k, idle, c) && j < |k.procs| && k.procs[j].used && k.procs[j].exited
    ensures |Do(k, c).procs| == |k.procs|
    ensures var p, q := k.procs[j], Do(k, c).procs[j];
            && (!RecordOf(q, p.pid) <==> LosesSlot(k, c, j))
            && (RecordOf(q, p.pid) ==> q.exited && q.exitCode == p.exitCode)
  {
    assert ProcOk(k, j);
    OneRecord(k, k.procs[j].pid, j);
    if Reaps(k, c) {
      ProcsAfter(k, idle, c);
      if c.ExitProcess? { OneTask(k, k.current); }
    } else if c.KillProcess? {
      KillAnswers(k, c.pid, c.code);
    } else if c.WaitFor? {
      WaitAnswers(k, c.pid);
    } else if c.SpawnImage? {
      SpawnTakes(k, c.image, j);
    }
  }

  lemma SpawnTakes(k: Kernel, image: Image, j: nat)
    requires Core(k) && j < |k.procs| && k.procs[j].used
    ensures var (r, pid) := Spawn(k, image);
            && |r.procs| == |k.procs|
            && (RecordOf(r.procs[j], k.procs[j].pid) ==> r.procs[j] == k.procs[j])
            && (!RecordOf(r.procs[j], k.procs[j].pid) <==>
                  pid >= 0 && SlotUsable(k.procs[j]) && forall m :: 0 <= m < j ==> !SlotUsable(k.procs[m]))
  {
    SpawnAnswers(k, image);
    assert ProcOk(k, j);
    hide Spawn;
    if Spawn(k, image).1 >= 0 {
      var a: nat, i: nat :| NewProcess(k, Spawn(k, image).0, image, a, i);
      if a < j { assert SlotUsable(k.procs[a]); }
    }
  }

  /** The process has exited with this code, and its record is there. */
  ghost predicate Ended(k: Kernel, pid: int, code: int) {
    exists j :: 0 <= j < |k.procs| && RecordOf(k.procs[j], pid) && k.procs[j].exited && k.procs[j].exitCode == code
  }

  lemma EndIsRecorded(k: Kernel, idle: nat, c: Call, pid: int, code: int)
    requires Inv(k, idle) && Allowed(k, idle, c) && Ends(k, c, pid, code)
    ensures Ended(Do(k, c), pid, code)
  {
    var j := FindPid(k.procs, pid, 0);
    if c.ExitProcess? {
      OneTask(k, k.current);
      ProcsAfter(k, idle, c);
    } else {
      KillAnswers(k, pid, code);
    }
    assert RecordOf(Do(k, c).procs[j], pid);
  }

  /** A task that exits is left with its code, never to be chosen, and another runs. */
  lemma ExitLeaves(k: Kernel, idle: nat, c: Call)
    requires Inv(k, idle) && Allowed(k, idle, c) && c.ExitProcess?
    ensures var r := Do(k, c);
            && r.tasks[k.current].state == Zombie && r.tasks[k.current].exitCode == c.code
            && r.current != k.current && r.tasks[r.current].state == Running
  {
    var t := k.tasks[k.current];
    var a := TaskExited(k, t.pid, c.code);
    var z := SetTask(a, a.current, t.(exitCode := c.code, state := Zombie));
    DoKeeps(k, idle, c);
    PickNearest(PutAway(Reap(z), c.rsp).tasks, k.current);
    hide Inv, Allowed, FindPid;
  }

  lemma EndedStays(k: Kernel, idle: nat, c: Call, pid: int, code: int)
    requires Inv(k, idle) && Allowed(k, idle, c) && Ended(k, pid, code) && !Loses(k, c, pid)
    ensures Ended(Do(k, c), pid, code)
  {
    var j :| 0 <= j < |k.procs| && RecordOf(k.procs[j], pid) && k.procs[j].exited && k.procs[j].exitCode == code;
    LosesIff(k, idle, c, j);
    hide Do;
    assert RecordOf(Do(k, c).procs[j], pid);
  }

  lemma EndedAnswer(k: Kernel, idle: nat, pid: int, code: int)
    requires Inv(k, idle) && Ended(k, pid, code)
    ensures WaitPoll(k, pid).1 == 1 && WaitPoll(k, pid).2 == code
  {
    var j :| 0 <= j < |k.procs| && RecordOf(k.procs[j], pid) && k.procs[j].exited && k.procs[j].exitCode == code;
    OneRecord(k, pid, j);
  }

  /** Step i of the run takes the record of pid away. */
  ghost predicate LosesAt(ks: seq<Kernel>, cs: seq<Call>, idle: nat, i: nat, pid: int)
    requires |ks| == |cs| + 1 && i < |cs|
  {
    StepAt(ks, cs, idle, i) && Loses(ks[i], cs[i], pid)
  }

  lemma NoLoss(ks: seq<Kernel>, cs: seq<Call>, idle: nat, i: nat, pid: int)
    requires |ks| == |cs| + 1 && i < |cs| && StepAt(ks, cs, idle, i) && !LosesAt(ks, cs, idle, i, pid)
    ensures !Loses(ks[i], cs[i], pid)
  {
  }

  /** From the exit or kill that ended it, a wait for the process answers 1 with its code, as
      long as no call has taken the record away. */
  lemma {:induction false} WaitReports(ks: seq<Kernel>, cs: seq<Call>, idle: nat, m: nat, n: nat, pid: int, code: int)
    requires Run(ks, cs, idle) && m < n <= |cs| && StepAt(ks, cs, idle, m) && Ends(ks[m], cs[m], pid, code)
    requires forall i :: m < i < n ==> !LosesAt(ks, cs, idle, i, pid)
    ensures Ended(ks[n], pid, code) && WaitPoll(ks[n], pid).1 == 1 && WaitPoll(ks[n], pid).2 == code
    decreases n
  {
    hide *;
    RunLength(ks, cs, idle);
    StepOf(ks, cs, idle, n - 1);
    if n == m + 1 {
      EndIsRecorded(ks[m], idle, cs[m], pid, code);
    } else {
      WaitReports(ks, cs, idle, m, n - 1, pid, code);
      NoLoss(ks, cs, idle, n - 1, pid);
      EndedStays(ks[n - 1], idle, cs[n - 1], pid, code);
    }
    EndedAnswer(ks[n], idle, pid, code);
  }

  /** A process that has ended never runs again: no later state has a live task with its pid. */
  lemma NeverRunsAgain(ks: seq<Kernel>, cs: seq<Call>, idle: nat, m: nat, n: nat, pid: int, code: int, i: nat)
    requires Run(ks, cs, idle) && m < n <= |cs| && StepAt(ks, cs, idle, m) && Ends(ks[m], cs[m], pid, code)
    requires i < |ks[n].tasks| && Live(ks[n].tasks[i])
    ensures ks[n].tasks[i].pid != pid
  {
    Follows(ks, cs, idle, m);
    RunKeeps(ks, cs, idle, n);
    EndSettles(ks[m], idle, cs[m], pid, code);
    EndedPid(ks[m], idle, cs[m], pid, code);
    SettledThrough(ks, cs, idle, m + 1, n, pid, code);
    hide Run, Do, Ends, Allowed;
    assert TaskOk(ks[n], i);
    if ks[n].tasks[i].isUser { OneTask(ks[n], i); }
  }

  lemma EndedPid(k: Kernel, idle: nat, c: Call, pid: int, code: int)
    requires Inv(k, idle) && Allowed(k, idle, c) && Ends(k, c, pid, code)
    ensures pid > 0
  {
    if c.ExitProcess? { assert TaskOk(k, k.current); }
  }

  /** After every call that reaps, the one process that has exited and still has an address
      space is that of the task in which the reaping happened. */
  lemma SpacesGo(k: Kernel, idle: nat, c: Call, j: nat)
    requires Inv(k, idle) && Allowed(k, idle, c) && Reaps(k, c) && j < |Do(k, c).procs|
    requires Do(k, c).procs[j].used && Do(k, c).procs[j].exited && Do(k, c).procs[j].space != NoSpace
    ensures Do(k, c).procs[j].space == k.tasks[k.current].space
  {
    ProcsAfter(k, idle, c);
    ReapPointOk(k, idle, c);
    assert ProcOk(ReapPoint(k, c), j);
  }
}
