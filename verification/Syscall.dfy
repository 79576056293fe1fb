/** kernel/syscall.c: the range check on user pointers, and the dispatcher with the
    switch it makes after some calls. */
module Syscall {
  import opened Words
  import PT = PageTables
  import U = UserPages
  import Vmm
  import Sample = Samples
  import Img = ElfImage
  import L = LoadSteps
  import Elf
  import opened T = Tasks
  import opened Lifecycle
  import opened Scheduler

  const USER_TOP: nat := 0x8000_0000_0000
  const SYS_WRITE: nat := 0
  const SYS_EXIT: nat := 1
  const SYS_YIELD: nat := 2
  const SYS_SPAWN: nat := 3
  const SYS_GETPID: nat := 4

  function RetErr(e: nat): nat
    requires e < U64
  {
    (U64 - e) % U64
  }

  function OwnerOf(s: Space): PT.Owner {
    if s.UserSpace? then PT.User(s.d) else PT.Kernel
  }

  ghost predicate MappedAt(mem: PT.Memory, node: map<PT.Node, nat>, s: Space, a: nat) {
    PT.LeafAt(mem, node, OwnerOf(s), PT.VpnOf(a)).Mapped?
  }

  /** Every byte of the range lies below USER_TOP and in a mapped page. */
  ghost predicate RangeMapped(mem: PT.Memory, node: map<PT.Node, nat>, s: Space, start: nat, len: nat) {
    && s != NoSpace
    && (|| len == 0
        || (start + len <= USER_TOP && forall a: nat :: start <= a < start + len ==> MappedAt(mem, node, s, a)))
  }

  /** The page of a is under a huge page whose first frame, read as a page table, has a
      present word for it that names a frame other than 0. */
  ghost predicate ThroughHuge(mem: PT.Memory, node: map<PT.Node, nat>, s: Space, a: nat) {
    var v := PT.VpnOf(a);
    var l := PT.LeafAt(mem, node, OwnerOf(s), v);
    l.Huge2M? && PT.Entry(mem, l.e.frame, v.i1).present && PT.Entry(mem, l.e.frame, v.i1).frame != 0
  }

  ghost predicate Answers(mem: PT.Memory, node: map<PT.Node, nat>, s: Space, a: nat) {
    MappedAt(mem, node, s, a) || ThroughHuge(mem, node, s, a)
  }

  /** What user_range_valid answers. */
  ghost predicate RangeAnswers(mem: PT.Memory, node: map<PT.Node, nat>, s: Space, start: nat, len: nat) {
    && s != NoSpace
    && (|| len == 0
        || (start + len <= USER_TOP && forall a: nat :: start <= a < start + len ==> Answers(mem, node, s, a)))
  }

  /** Every range that is mapped is accepted. One that is not mapped is accepted if and
      only if every page answers and at least one does so through a huge page. */
  lemma AcceptedIff(mem: PT.Memory, node: map<PT.Node, nat>, s: Space, start: nat, len: nat)
    ensures RangeMapped(mem, node, s, start, len) ==> RangeAnswers(mem, node, s, start, len)
    ensures RangeAnswers(mem, node, s, start, len) && !RangeMapped(mem, node, s, start, len) <==>
            && s != NoSpace && len > 0 && start + len <= USER_TOP
            && (forall a: nat :: start <= a < start + len ==> Answers(mem, node, s, a))
            && exists a: nat :: start <= a < start + len && ThroughHuge(mem, node, s, a)
  {
    hide PT.LeafAt, PT.VpnOf;
    forall a: nat ensures !(MappedAt(mem, node, s, a) && ThroughHuge(mem, node, s, a)) {}
    if RangeAnswers(mem, node, s, start, len) && !RangeMapped(mem, node, s, start, len) {
      var a: nat :| start <= a < start + len && !MappedAt(mem, node, s, a);
      assert Answers(mem, node, s, a) && ThroughHuge(mem, node, s, a);
    }
  }

  /** A range that is accepted and not mapped, in a state with a user space whose tables are
      sound: one byte under an identity page whose first bytes look like a table word. */
  lemma AcceptedUnmapped()
    ensures var mem, node, s := Sample.Mem(), Sample.Places(), UserSpace(Sample.SPACE);
            && Vmm.Sound(mem, node, {}, Sample.TOTAL) && U.Tidy(Sample.Now())
            && PT.Root(PT.User(Sample.SPACE)) in node
            && RangeAnswers(mem, node, s, 0x20_0000, 1) && !RangeMapped(mem, node, s, 0x20_0000, 1)
  {
    hide *;
    Sample.IsSound();
    Sample.SoundIs();
    Sample.IsTidy();
    SampleByte();
    OneByte(Sample.Mem(), Sample.Places(), Sample.SPACE, 0x20_0000);
  }

  lemma OneByte(mem: PT.Memory, node: map<PT.Node, nat>, d: nat, a: nat)
    requires a + 1 <= USER_TOP && ThroughHuge(mem, node, UserSpace(d), a)
    ensures RangeAnswers(mem, node, UserSpace(d), a, 1) && !RangeMapped(mem, node, UserSpace(d), a, 1)
  {
    hide PT.LeafAt, PT.VpnOf, PT.Entry;
    assert !MappedAt(mem, node, UserSpace(d), a);
  }

  lemma SampleByte()
    ensures 0x20_0000 + 1 <= USER_TOP
    ensures ThroughHuge(Sample.Mem(), Sample.Places(), UserSpace(Sample.SPACE), 0x20_0000)
  {
    Sample.LeavesThere(PT.User(Sample.SPACE), Sample.IdentityVpn());
    Sample.DataWord();
    FirstHuge();
    hide PT.LeafAt, PT.Entry, PT.VpnOf, Sample.Mem, Sample.Places, Sample.WordAt;
  }

  lemma FirstHuge()
    ensures PT.VpnOf(0x20_0000) == Sample.IdentityVpn()
  {
  }

  /** user_range_valid asks page by page; its answer, byte by byte. */
  method UserRangeValid(l: Elf.Loader, s: Space, start: nat, len: nat) returns (ok: bool)
    requires l.Valid() && start < U64 && len < U64 && (s.UserSpace? ==> l.vm.Live(PT.User(s.d)))
    ensures ok <==> RangeAnswers(l.vm.mem, l.vm.node, s, start, len)
  {
    hide U.Tidy, PT.LeafAt, PT.VpnOf, PT.VirtToPhys, Answers;
    if s == NoSpace { return false; }
    if len == 0 { return true; }
    if start >= USER_TOP { return false; }
    if (start + len) % U64 < start { return false; }
    if (start + len) % U64 > USER_TOP { return false; }
    var va, to := start / 0x1000 * 0x1000, (start + len - 1) / 0x1000 * 0x1000;
    KernelLives(l);
    while va <= to
      invariant va % 0x1000 == 0 && start / 0x1000 * 0x1000 <= va
      invariant forall a: nat :: start <= a < start + len && a < va ==> Answers(l.vm.mem, l.vm.node, s, a)
    {
      var first := if va < start then start else va;
      PageAnswers(l, s, va);
      SamePage(l.vm.mem, l.vm.node, s, va, first);
      if PT.VirtToPhys(l.vm.mem, l.vm.RootFrame(OwnerOf(s)), va) == 0 { return false; }
      forall a: nat | va <= a < va + 0x1000 ensures Answers(l.vm.mem, l.vm.node, s, a) {
        SamePage(l.vm.mem, l.vm.node, s, va, a);
      }
      va := va + 0x1000;
    }
    return true;
  }

  /** At the start of a page, vmm_virt_to_phys is non-zero exactly if the page answers. */
  lemma PageAnswers(l: Elf.Loader, s: Space, va: nat)
    requires l.Valid() && va % 0x1000 == 0 && l.vm.Live(OwnerOf(s))
    ensures PT.VirtToPhys(l.vm.mem, l.vm.RootFrame(OwnerOf(s)), va) != 0 <==> Answers(l.vm.mem, l.vm.node, s, va)
  {
    var o := OwnerOf(s);
    l.vm.RootIs(o);
    PT.WalkIsLeafAt(l.vm.mem, l.vm.node, o, PT.VpnOf(va));
    l.vm.Cases(o, PT.VpnOf(va));
    if PT.LeafAt(l.vm.mem, l.vm.node, o, PT.VpnOf(va)).Huge2M? {
      PT.VirtToPhysUnderHuge(l.vm.mem, l.vm.RootFrame(o), va);
    } else {
      l.Probe(o, va);
    }
  }

  lemma SamePage(mem: PT.Memory, node: map<PT.Node, nat>, s: Space, a: nat, c: nat)
    requires a / 0x1000 == c / 0x1000
    ensures Answers(mem, node, s, a) <==> Answers(mem, node, s, c)
  {
    U.OnePage(a, c);
    hide PT.VpnOf, PT.LeafAt;
  }

  lemma KernelLives(l: Elf.Loader)
    requires l.Valid()
    ensures l.vm.Live(PT.Kernel)
  {
  }

  /** The int that the low 32 bits of a register stand for. */
  function ToInt(r: nat): (i: int)
    ensures -0x8000_0000 <= i < 0x8000_0000 && (r - i) % 0x1_0000_0000 == 0
  {
    var x: int := r % 0x1_0000_0000;
    if x < 0x8000_0000 then x else x - 0x1_0000_0000
  }

  /** What a system call that gives up the processor makes of the tables. */
  ghost function GivesUp(k: Kernel, rax: nat, rbx: nat, rsp: nat): (Kernel, nat)
    requires Shaped(k) && k.current >= 0
  {
    if rax == SYS_EXIT then SysExit(k, ToInt(rbx), rsp) else SysYield(k, rsp)
  }

  predicate IsSwitch(rax: nat, rcx: nat) {
    rax == SYS_EXIT || rax == SYS_YIELD || (rax == SYS_WRITE && rcx == 0)
  }

  /** What the user program sees in rax, as a signed number. */
  function Signed(r: int): int { if r < 0x8000_0000_0000_0000 then r else r - 0x1_0000_0000_0000_0000 }

  /** What the other calls return, short of spawning: a write the number of bytes, -22 for too
      many, -14 for a range that is not accepted; getpid the pid; anything else -38. */
  ghost predicate Returns(k: Kernel, mem: PT.Memory, node: map<PT.Node, nat>, rax: nat, rbx: nat, rcx: nat, ret: int)
    requires Shaped(k) && k.current >= 0
  {
    var t := k.tasks[k.current];
    && (rax == SYS_WRITE && rcx > 4096 ==> Signed(ret) == -22)
    && (rax == SYS_WRITE && rcx <= 4096 ==>
          if RangeAnswers(mem, node, t.space, rbx, rcx) then ret == rcx else Signed(ret) == -14)
    && (rax == SYS_GETPID ==> ret == t.pid && CallerIs(k, ret))
    && (rax != SYS_WRITE && rax != SYS_GETPID ==> Signed(ret) == -38)
  }

  /** The calling task is the one of the process with this pid, which has not exited. */
  ghost predicate CallerIs(k: Kernel, pid: int)
    requires Shaped(k) && k.current >= 0
  {
    exists j :: 0 <= j < |k.procs| && var p := k.procs[j];
      p.used && !p.exited && p.pid == pid && p.mainTid == k.current && p.space == k.tasks[k.current].space
  }

  /** What spawning asks of an image: no sum over its headers wraps, and no page of it lies
      under a huge page. */
  ghost predicate Loadable(k: Machine, b: seq<Byte>)
    reads k.loader.vm`mem, k.loader.vm`node, k.loader.vm.pmm`free
  {
    |b| < U64 && Img.NoWrap(b) && L.ClearOfHuge(k.Now(), PT.Kernel, b)
  }

  /** syscall_dispatch, called by a user task: exit, yield and a write of no bytes give up
      the processor, every other call returns to the caller with the tables unchanged
      except for what a spawn adds. hello, burn and stack stand for the two images linked
      into the kernel and for kmalloc's answer. */
  method Dispatch(k: Machine, rax: nat, rbx: nat, rcx: nat, rsp: nat, hello: seq<Byte>, burn: seq<Byte>, stack: nat)
    returns (panicked: bool, ret: int, next: nat, ghost image: Image)
    requires k.Valid() && k.tasks[k.current].isUser && k.nextPid <= 0x7FFF_FFFF && rbx < U64 && rcx < U64
    requires rax == SYS_SPAWN ==> k.nextPid < 0x7FFF_FFFF && Loadable(k, hello) && Loadable(k, burn)
    modifies k, k.tasks, k.procs, k.loader.vm, k.loader.vm.pmm, k.loader.vm.pmm.bitmap
    ensures panicked ==> rax == SYS_SPAWN
    ensures panicked || k.Valid()
    ensures IsSwitch(rax, rcx) ==>
              && (k.K(), next) == GivesUp(old(k.K()), rax, rbx, rsp)
              && Signed(ret) == if rax == SYS_EXIT then -11 else 0
    ensures !IsSwitch(rax, rcx) && !panicked ==> next == 0
    ensures !IsSwitch(rax, rcx) && rax != SYS_SPAWN ==>
              && k.K() == old(k.K())
              && Returns(old(k.K()), old(k.loader.vm.mem), old(k.loader.vm.node), rax, rbx, rcx, ret)
    ensures rax == SYS_SPAWN && !panicked ==>
              && Spawned(old(k.K()), image, k.K(), if Signed(ret) == -12 then -1 else ret)
              && (ToInt(rbx) !in {0, 1} ==> Signed(ret) == -12)
  {
    hide Elf.Loader.Valid, Coupled, Core, SysExit, SysYield, Img.NoWrap, L.ClearOfHuge, Spawned, RangeAnswers, Inv;
    panicked, image, next := false, Nothing, 0;
    CoreOf(k.K());
    UserCalls(k.K(), k.loader.vm.node);
    SpawnNothing(k.K());
    if rax == SYS_WRITE {
      ret := Write(k, rbx, rcx);
    } else if rax == SYS_EXIT {
      next := k.SysExit(ToInt(rbx), rsp);
      return false, RetErr(11), next, image;
    } else if rax == SYS_YIELD {
      ret := 0;
    } else if rax == SYS_SPAWN {
      panicked, ret, image := SpawnCall(k, ToInt(rbx), hello, burn, stack);
    } else if rax == SYS_GETPID {
      ret := k.tasks[k.current].pid;
    } else {
      ret := RetErr(38);
    }
    if !panicked && (ret == RetErr(11) || ret == 0) {
      next := k.SysYield(rsp);
    }
  }

  /** sys_write, without the printing. */
  method Write(k: Machine, rbx: nat, rcx: nat) returns (ret: int)
    requires k.Valid() && k.tasks[k.current].isUser && rbx < U64 && rcx < U64
    ensures Returns(k.K(), k.loader.vm.mem, k.loader.vm.node, SYS_WRITE, rbx, rcx, ret)
    ensures (rcx == 0 <==> ret == 0) && ret != RetErr(11)
  {
    hide Elf.Loader.Valid, Coupled, Core;
    UserCalls(k.K(), k.loader.vm.node);
    if rcx > 4096 { return RetErr(22); }
    var ok := UserRangeValid(k.loader, k.tasks[k.current].space, rbx, rcx);
    if !ok { return RetErr(14); }
    return rcx;
  }

  /** sys_spawn and process_spawn_builtin */
  method SpawnCall(k: Machine, id: int, hello: seq<Byte>, burn: seq<Byte>, stack: nat)
    returns (panicked: bool, ret: int, ghost image: Image)
    requires k.Valid() && k.nextPid < 0x7FFF_FFFF && Loadable(k, hello) && Loadable(k, burn)
    modifies k, k.tasks, k.procs, k.loader.vm, k.loader.vm.pmm, k.loader.vm.pmm.bitmap
    ensures panicked || k.Valid()
    ensures panicked || Spawned(old(k.K()), image, k.K(), if Signed(ret) == -12 then -1 else ret)
    ensures panicked || (ret != 0 && ret != RetErr(11))
    ensures id !in {0, 1} ==> !panicked && Signed(ret) == -12
  {
    hide Elf.Loader.Valid, Coupled, Core, Img.NoWrap, L.ClearOfHuge, Inv, Spawned, Spawn;
    ghost var was := k.K();
    CoreOf(was);
    SpawnNothing(was);
    image, ret := Nothing, RetErr(12);
    if id != 0 && id != 1 { return false, ret, image; }
    var r, pid;
    ghost var done;
    r, pid, image, done := k.SpawnFromElf(if id == 0 then hello else burn, stack);
    if r.Panicked? { return true, 0, image; }
    SpawnedInv(was, image, k.K(), pid);
    return false, if pid < 0 then RetErr(12) else pid, image;
  }

  lemma CoreOf(k: Kernel)
    requires Inv(k, IDLE)
    ensures Core(k) && k.current >= 0 && T.Live(k.tasks[k.current])
  {
  }

  lemma SpawnedInv(k: Kernel, image: Image, r: Kernel, pid: int)
    requires Inv(k, IDLE) && Spawned(k, image, r, pid)
    ensures Inv(r, IDLE) && (pid == -1 || 0 < pid <= k.nextPid)
  {
    AddsKeeps(k, IDLE, r);
  }

  /** The caller has an address space, and it exists. */
  lemma UserCalls(k: Kernel, node: map<PT.Node, nat>)
    requires Inv(k, IDLE) && Coupled(k, node) && k.tasks[k.current].isUser
    ensures Core(k) && k.current >= 0
    ensures var t := k.tasks[k.current];
            && 0 < t.pid < k.nextPid && t.space.UserSpace? && PT.Root(PT.User(t.space.d)) in node
            && CallerIs(k, t.pid)
  {
    assert TaskOk(k, k.current) && RootOk(k.tasks[k.current], node);
    var j :| 0 <= j < |k.procs| && Owns(k, j, k.current);
  }
}
