/** kernel/kernel.c: the order in which kernel_main brings the parts up, and from there
    the calls of a run, made in place. */
module Boot {
  import opened Words
  import P = Pmm
  import PT = PageTables
  import Paging
  import Kmalloc
  import Vmm
  import U = UserPages
  import Img = ElfImage
  import L = LoadSteps
  import Elf
  import opened T = Tasks
  import opened Lifecycle
  import opened Scheduler
  import Runs = SchedulerRuns
  import Resuming

  /** The frames of the page tables lie between the kernel image and the bitmap. */
  lemma InArena(n: nat, k: nat, m: PT.Node)
    requires k <= 512 && m in Paging.Places(n, k)
    ensures n <= Paging.Places(n, k)[m] < n + k + 4 && m.o == PT.Kernel && !m.Pt?
  {
  }

  /** The tables of paging_init map no data, and open nothing to users. */
  lemma NoData(mem: PT.Memory, n: nat, k: nat, free: set<nat>, max: nat)
    requires k <= 512 && PT.Tree(mem, Paging.Places(n, k)) && PT.Root(PT.Kernel) in Paging.Places(n, k)
    requires forall v :: PT.Walk(mem, Paging.Places(n, k)[PT.Root(PT.Kernel)], v) == Paging.Expected(v, max)
    ensures U.Tidy(U.State(mem, Paging.Places(n, k), free))
  {
    hide *;
    var node := Paging.Places(n, k);
    forall m | m in node ensures !m.Pt? && m.o == PT.Kernel { InArena(n, k, m); }
    forall t, w ensures NothingThere(mem, node, t, w) { KernelLeaf(mem, node, max, t, w); }
    NothingUsed(mem, node, free);
  }

  /** No data is mapped at page w, and users may not touch what is. */
  ghost predicate NothingThere(mem: PT.Memory, node: map<PT.Node, nat>, t: PT.Owner, w: PT.Vpn) {
    var l := PT.LeafAt(mem, node, t, w);
    !l.Mapped? && (PT.MeetsHuge(l) ==> !l.e.user)
  }

  lemma NothingUsed(mem: PT.Memory, node: map<PT.Node, nat>, free: set<nat>)
    requires forall m :: m in node ==> m.o == PT.Kernel
    requires forall t, w :: NothingThere(mem, node, t, w)
    ensures U.Tidy(U.State(mem, node, free))
  {
    hide PT.LeafAt;
    var s := U.State(mem, node, free);
    forall t, w ensures !U.LeafIn(s, t, w).Mapped? && (PT.MeetsHuge(U.LeafIn(s, t, w)) ==> !U.LeafIn(s, t, w).e.user) {
      assert NothingThere(mem, node, t, w);
    }
  }

  lemma KernelLeaf(mem: PT.Memory, node: map<PT.Node, nat>, max: nat, t: PT.Owner, w: PT.Vpn)
    requires PT.Tree(mem, node) && PT.Root(PT.Kernel) in node
    requires PT.Walk(mem, node[PT.Root(PT.Kernel)], w) == Paging.Expected(w, max)
    requires forall m :: m in node ==> !m.Pt? && m.o == PT.Kernel
    ensures NothingThere(mem, node, t, w)
  {
    PT.WalkIsLeafAt(mem, node, PT.Kernel, w);
    hide PT.Tree, PT.Walk;
  }

  /** paging_init, pmm_init, kmalloc_init, the shadow buffer, vmm_init, task_init and
      process_init: everything the later calls rely on holds, the kernel's translation is
      the one paging_init built, and no frame of its tables is free. null is the panic for
      want of memory. */
  method InitMemory(m: seq<P.Descriptor>, kernelEnd: nat, fb: nat, height: nat, pitch: nat, rsdp: nat,
                    before: PT.Memory)
    returns (k: Machine?)
    requires P.Disjoint(m)
    ensures k != null ==>
              && fresh(k) && fresh(k.tasks) && fresh(k.procs) && fresh(k.loader) && fresh(k.loader.vm)
              && fresh(k.loader.vm.pmm) && fresh(k.loader.vm.pmm.bitmap)
              && k.Tied() && k.K() == Initial()
              && forall v ::
                   k.loader.vm.LeafOf(PT.Kernel, v) == Paging.Expected(v, Paging.MaxMemory(m, fb, height, pitch))
  {
    hide Paging.Places, PT.Tree, PT.Walk, Paging.Expected, U.Tidy, P.Stores;
    var mem, pml4, end := Paging.PagingInit(m, kernelEnd, fb, height, pitch, before);
    var frames := InitFrames(m, P.Boot(kernelEnd, end * 0x1000, fb, height * pitch * 4, rsdp));
    if frames == null { return null; }
    ghost var places := Paging.Places(pml4, end - pml4 - 4);
    forall n | n in places ensures n.o == PT.Kernel && places[n] !in frames.free { InArena(pml4, end - pml4 - 4, n); }
    RootPlace(pml4, end - pml4 - 4);
    var vm := new Vmm.AddressSpaces.Init(frames, mem, pml4, places);
    NoData(mem, pml4, end - pml4 - 4, frames.free, Paging.MaxMemory(m, fb, height, pitch));
    var loader := new Elf.Loader(vm);
    k := new Machine(loader);
  }

  /** pmm_init, kmalloc_init and the shadow buffer: no frame of the page-table arena is free. */
  method InitFrames(m: seq<P.Descriptor>, boot: P.Boot) returns (frames: P.FrameAllocator?)
    requires P.Disjoint(m)
    ensures frames != null ==> fresh(frames) && fresh(frames.bitmap) && frames.Valid()
    ensures frames != null ==>
              forall f :: P.CeilPage(boot.kernelEnd) <= f < boot.arenaEnd / 0x1000 ==> f !in frames.free
  {
    hide P.Conventional, P.Reserved, P.Stores;
    frames := new P.FrameAllocator.Init(m, boot);
    forall f | P.CeilPage(boot.kernelEnd) <= f < boot.arenaEnd / 0x1000 ensures f !in frames.free {
      ArenaReserved(m, boot, frames.totalPages, f);
    }
    var ok := StartHeap(frames);
    if !ok { return null; }
    var shadow := frames.AllocPages((boot.fbBytes + 0xFFF) / 0x1000);
    if shadow == 0 { return null; }
  }

  method StartHeap(frames: P.FrameAllocator) returns (ok: bool)
    requires frames.Valid()
    modifies frames, frames.bitmap
    ensures frames.Valid() && frames.free <= old(frames.free)
  {
    var heap := new Kmalloc.KernelHeap(frames);
    ok := heap.Initialize();
  }

  lemma ArenaReserved(m: seq<P.Descriptor>, b: P.Boot, total: nat, f: nat)
    requires P.CeilPage(b.kernelEnd) <= f < b.arenaEnd / 0x1000
    ensures f in P.Reserved(m, b, total)
  {
    assert f in P.ArenaPages(b) by { assert P.IsPage(f); }
  }

  lemma RootPlace(n: nat, k: nat)
    requires k <= 512
    ensures PT.Root(PT.Kernel) in Paging.Places(n, k) && Paging.Places(n, k)[PT.Root(PT.Kernel)] == n
  {
  }

  /** Every segment of the image that passes the checks and has a page lies above the
      identity map, which ends at max or at 512 GiB. */
  ghost predicate AboveMap(b: seq<Byte>, max: nat) {
    Img.HeaderOk(b) ==>
      forall i :: 0 <= i < Img.Phnum(b) ==> SegmentAbove(b, Img.SegmentAt(b, i), max)
  }

  predicate SegmentAbove(b: seq<Byte>, q: Img.Segment, max: nat) {
    q.kind == Img.PT_LOAD && Img.SegmentOk(b, q) && Img.FirstPage(q) < Img.LastPage(q) ==>
      Img.FirstPage(q) * 0x1000 >= max || Img.FirstPage(q) * 0x1000 >= 0x80_0000_0000
  }

  /** With the tables that paging_init built, an image is clear of huge pages exactly if it
      lies above the identity map. */
  lemma ClearIffAbove(s: U.State, b: seq<Byte>, max: nat)
    requires max % Paging.HUGE == 0 && forall v :: U.LeafIn(s, PT.Kernel, v) == Paging.Expected(v, max)
    ensures L.ClearOfHuge(s, PT.Kernel, b) <==> AboveMap(b, max)
  {
    hide Paging.Expected, PT.LeafAt, Img.SegmentAt, Img.SegmentOk, Img.FirstPage, Img.LastPage, L.NoHuge;
    if Img.HeaderOk(b) {
      var n := Img.Phnum(b);
      hide Img.HeaderOk;
      forall i | 0 <= i < n && Img.SegmentAt(b, i).kind == Img.PT_LOAD && Img.SegmentOk(b, Img.SegmentAt(b, i))
        ensures L.NoHuge(s, PT.Kernel, Img.SegmentAt(b, i)) <==> SegmentAbove(b, Img.SegmentAt(b, i), max)
      {
        SegmentIff(s, b, Img.SegmentAt(b, i), max);
      }
    }
  }

  lemma SegmentIff(s: U.State, b: seq<Byte>, q: Img.Segment, max: nat)
    requires max % Paging.HUGE == 0 && forall v :: U.LeafIn(s, PT.Kernel, v) == Paging.Expected(v, max)
    requires q.kind == Img.PT_LOAD && Img.SegmentOk(b, q)
    ensures L.NoHuge(s, PT.Kernel, q) <==> SegmentAbove(b, q, max)
  {
    hide Paging.Expected, PT.LeafAt, PT.VpnOf;
    forall p: nat | Img.Covers(q, p)
      ensures PT.MeetsHuge(L.PageLeaf(s, PT.Kernel, p)) <==> p * 0x1000 < max && p * 0x1000 < 0x80_0000_0000
    {
      Paging.ExpectedAddresses(p * 0x1000, max);
    }
    if Img.FirstPage(q) < Img.LastPage(q) { assert Img.Covers(q, Img.FirstPage(q)); }
  }

  /** An image that starts at the link address is clear exactly if the identity map ends at or
      below it, at 128 GiB. */
  lemma LinkedImageIff(s: U.State, b: seq<Byte>, max: nat, k: nat)
    requires max % Paging.HUGE == 0 && forall v :: U.LeafIn(s, PT.Kernel, v) == Paging.Expected(v, max)
    requires Img.HeaderOk(b) && k < Img.Phnum(b)
    requires forall i :: 0 <= i < Img.Phnum(b) ==> Img.FirstPage(Img.SegmentAt(b, i)) * 0x1000 >= L.LINK_ADDRESS
    requires var q := Img.SegmentAt(b, k);
             && q.kind == Img.PT_LOAD && Img.SegmentOk(b, q) && Img.FirstPage(q) < Img.LastPage(q)
             && Img.FirstPage(q) * 0x1000 == L.LINK_ADDRESS
    ensures L.ClearOfHuge(s, PT.Kernel, b) <==> max <= L.LINK_ADDRESS
  {
    ClearIffAbove(s, b, max);
    hide Paging.Expected, PT.LeafAt, Img.SegmentAt, Img.SegmentOk, L.ClearOfHuge, Img.HeaderOk, Img.Phnum;
    hide Img.FirstPage, Img.LastPage;
    if AboveMap(b, max) { assert SegmentAbove(b, Img.SegmentAt(b, k), max); }
  }

  /** kernel_main from paging_init to schedule(), for images that lie above the identity map. */
  method KernelMain(m: seq<P.Descriptor>, kernelEnd: nat, fb: nat, height: nat, pitch: nat, rsdp: nat,
                    before: PT.Memory,
                    shell: nat, idle: nat, hello: seq<Byte>, s1: nat, burn: seq<Byte>, s2: nat)
    returns (k: Machine?)
    requires P.Disjoint(m) && shell != 0 && idle != 0
    requires |hello| < U64 && Img.NoWrap(hello) && AboveMap(hello, Paging.MaxMemory(m, fb, height, pitch))
    requires |burn| < U64 && Img.NoWrap(burn) && AboveMap(burn, Paging.MaxMemory(m, fb, height, pitch))
    ensures k != null ==> k.Valid() && k.current == 0
  {
    k := InitMemory(m, kernelEnd, fb, height, pitch, rsdp, before);
    if k == null { return; }
    ghost var max := Paging.MaxMemory(m, fb, height, pitch);
    WholeHuge(Paging.Need(m, fb, height, pitch));
    KernelLeaves(k.loader, max);
    hide Paging.MaxMemory, Paging.Expected, AboveMap, L.ClearOfHuge, Img.NoWrap, Machine.Valid, Machine.Tied;
    ClearIffAbove(k.Now(), hello, max);
    ClearIffAbove(k.Now(), burn, max);
    var panicked := Start(k, shell, idle, hello, s1, burn, s2);
    if panicked { return null; }
  }

  lemma KernelLeaves(l: Elf.Loader, max: nat)
    requires l.Valid() && l.vm.Live(PT.Kernel) && forall v :: l.vm.LeafOf(PT.Kernel, v) == Paging.Expected(v, max)
    ensures forall v :: U.LeafIn(l.Now(), PT.Kernel, v) == Paging.Expected(v, max)
  {
    l.SoundNow();
    U.TreeOf(l.Now(), l.vm.pmm.totalPages);
    hide PT.Tree, Paging.Expected, PT.LeafAt, PT.Walk, U.Tidy, Vmm.Sound;
    forall v ensures U.LeafIn(l.Now(), PT.Kernel, v) == Paging.Expected(v, max) {
      PT.WalkIsLeafAt(l.vm.mem, l.vm.node, PT.Kernel, v);
      assert l.vm.LeafOf(PT.Kernel, v) == Paging.Expected(v, max);
    }
  }

  lemma WholeHuge(need: nat)
    ensures (need + Paging.HUGE - 1) % U64 / Paging.HUGE * Paging.HUGE % Paging.HUGE == 0
  {
  }

  /** The end of kernel_main: the shell and idle tasks, the two user processes, whichever
      of their spawns succeed, and schedule(). shell, idle, s1 and s2 are the answers of
      kmalloc for the four kernel stacks. */
  method Start(k: Machine, shell: nat, idle: nat, hello: seq<Byte>, s1: nat, burn: seq<Byte>, s2: nat)
    returns (panicked: bool)
    requires k.Tied() && k.K() == Initial() && shell != 0 && idle != 0
    requires |hello| < U64 && Img.NoWrap(hello) && L.ClearOfHuge(k.Now(), PT.Kernel, hello)
    requires |burn| < U64 && Img.NoWrap(burn) && L.ClearOfHuge(k.Now(), PT.Kernel, burn)
    modifies k, k.tasks, k.procs, k.loader.vm, k.loader.vm.pmm, k.loader.vm.pmm.bitmap
    ensures panicked || (k.Valid() && k.current == 0)
  {
    hide Elf.Loader.Valid, Coupled, Core, T.CreateTask, L.ClearOfHuge, U.NoNewHuge, Img.NoWrap, Spawned, SwitchFrom;
    hide Between, Initial, OnlyAdds;
    ghost var root, s0 := k.loader.vm.kernelRoot, k.Now();
    AtFirst();
    var tid := k.CreateKernelTask(ShellTask, shell);
    tid := k.CreateKernelTask(IdleTask, idle);
    KernelTasksReady(root, shell, idle);
    ghost var x, y;
    panicked, x, y := SpawnBoth(k, hello, s1, burn, s2);
    if panicked { return; }
    ShellIsNext(k.K());
    var next := k.ContextSwitchFrom(0);
    return false;
  }

  /** The two spawns of kernel_main. When both succeed, each process has its image and its
      stack, except that in the slots all spaces share the two images lie in one memory,
      the second over the first. */
  method SpawnBoth(k: Machine, hello: seq<Byte>, s1: nat, burn: seq<Byte>, s2: nat)
    returns (panicked: bool, ghost x: Image, ghost y: Image)
    requires k.Tied() && BeforeFirst(k.K())
    requires |hello| < U64 && Img.NoWrap(hello) && L.ClearOfHuge(k.Now(), PT.Kernel, hello)
    requires |burn| < U64 && Img.NoWrap(burn) && L.ClearOfHuge(k.Now(), PT.Kernel, burn)
    modifies k`nextPid, k.tasks, k.procs, k.loader.vm, k.loader.vm.pmm, k.loader.vm.pmm.bitmap
    ensures panicked || (k.Tied() && BeforeFirst(k.K()))
    ensures !panicked && x.Loaded? && y.Loaded? ==>
              && Img.HeaderOk(hello) && Img.HeaderOk(burn)
              && L.OneMemory(old(k.Now()), k.Now(), PT.User(x.d), hello, PT.User(y.d), burn)
  {
    hide Elf.Loader.Valid, Coupled, Core, L.ClearOfHuge, U.NoNewHuge, Img.NoWrap, Spawned, Between, OnlyAdds;
    hide Img.HeaderOk;
    hide L.SpawnEffect, L.OneMemory, L.ImageIn, U.StackPage, BeforeFirst;
    x, y := Nothing, Nothing;
    ghost var a, s, image, done := k.K(), k.Now(), Nothing, 0;
    BeforeFirstIs(a);
    var r, pid;
    r, pid, image, done := k.SpawnFromElf(hello, s1);
    if r.Panicked? { return true, x, y; }
    if r.Fine? { x := image; }
    SpawnedBetween(a, image, k.K(), pid);
    ghost var b, s' := k.K(), k.Now();
    L.ClearKept(s, s', PT.Kernel, burn);
    r, pid, image, done := k.SpawnFromElf(burn, s2);
    if r.Panicked? { return true, x, y; }
    if r.Fine? { y := image; }
    SpawnedBetween(b, image, k.K(), pid);
    if x.Loaded? && y.Loaded? { L.TwoImages(s, s', k.Now(), PT.User(x.d), hello, PT.User(y.d), burn); }
    return false, x, y;
  }

  /** No task runs yet, and the shell is ready. */
  ghost predicate BeforeFirst(k: Kernel) {
    Core(k) && Between(k, IDLE) && k.current == -1 && k.slice == 0 && Ready(k.tasks[0])
  }

  lemma BeforeFirstIs(k: Kernel)
    requires BeforeFirst(k)
    ensures Core(k) && Between(k, IDLE) && k.current == -1 && k.slice == 0 && Ready(k.tasks[0])
  {
  }

  lemma AtFirst()
    ensures Core(Initial()) && Initial().current == -1
  {
  }

  lemma SpawnedBetween(k: Kernel, image: Image, r: Kernel, pid: int)
    requires BeforeFirst(k) && Spawned(k, image, r, pid)
    ensures BeforeFirst(r) && Core(r) && r.current == -1
  {
    AddsBetween(k, r);
  }

  lemma ShellIsNext(k: Kernel)
    requires Between(k, IDLE) && k.current == -1 && k.slice == 0 && Ready(k.tasks[0])
    ensures SwitchFrom(k, 0).0.current == 0
  {
    Runs.ShellFirst(k);
  }

  // ------------------------------------------------------------------ running

  /** Any call of a run but a spawn, made in place: the tables do what the run says, so
      the theorems about runs hold for the methods of Machine. */
  method Perform(k: Machine, c: Runs.Call) returns (next: nat, answer: int, code: int)
    requires k.Valid() && Runs.Allowed(k.K(), IDLE, c) && !c.SpawnImage?
    requires (c.NewKernelTask? ==> c.cr3 == k.loader.vm.kernelRoot)
    modifies k, k.tasks, k.procs, k.loader.vm, k.loader.vm.pmm, k.loader.vm.pmm.bitmap
    ensures k.Valid() && k.K() == Runs.Do(old(k.K()), c) && next == Resuming.Returned(old(k.K()), c)
    ensures c.NewKernelTask? ==> answer == T.CreateTask(old(k.K()), 0, KernelSpace, c.cr3, InKernel(c.entry), c.stack).1
    ensures c.KillProcess? ==> answer == Kill(old(k.K()), c.pid, c.code).1
    ensures c.WaitFor? ==> answer == WaitPoll(old(k.K()), c.pid).1 && code == WaitPoll(old(k.K()), c.pid).2
  {
    hide Elf.Loader.Valid, Coupled, Inv, Core, Tick, Sleep, Wake, T.CreateTask, Kill, WaitPoll, Reap, SysExit, SysYield;
    hide Reaped, OnlyAdds;
    ghost var was := k.K();
    Running(was);
    Runs.DoKeeps(was, IDLE, c);
    next, answer, code := 0, 0, 0;
    match c {
      case TimerTick(rsp) => next := k.ScheduleOnTick(rsp);
      case GoToSleep(rsp) => next := k.TaskSleep(rsp);
      case WakeUp(tid) => k.TaskWake(tid);
      case NewKernelTask(_, entry, stack) => answer := k.CreateKernelTask(entry, stack);
      case KillProcess(pid, c) => answer := k.ProcessKill(pid, c);
      case WaitFor(pid) => answer, code := k.WaitPoll(pid);
      case ReapNow => k.ReapDeferred();
      case ExitProcess(c, rsp) => next := k.SysExit(c, rsp);
      case YieldCpu(rsp) => next := k.SysYield(rsp);
    }
  }

  lemma Running(k: Kernel)
    requires Inv(k, IDLE)
    ensures Core(k) && Between(k, IDLE) && k.current >= 0 && T.Live(k.tasks[k.current]) && k.slice < TICKS_PER_SLICE
  {
  }

  /** A spawn, in place, is the step of a run with the image that was made. */
  lemma SpawnIsStep(k: Kernel, image: Image, r: Kernel, pid: int)
    requires Inv(k, IDLE) && Spawned(k, image, r, pid)
    ensures Runs.Allowed(k, IDLE, Runs.SpawnImage(image)) && r == Runs.Do(k, Runs.SpawnImage(image)) && Inv(r, IDLE)
  {
    Runs.DoKeeps(k, IDLE, Runs.SpawnImage(image));
  }
}
