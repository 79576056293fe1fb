/** The ELF loader and the user stack of kernel/process.c, on the frames and page tables that
    Pmm and Vmm keep. */
module Elf {
  import opened Words
  import opened ElfImage
  import opened PageTables
  import opened Pmm
  import opened Vmm
  import opened UserPages
  import opened LoadSteps
  import V = VmmRuns

  datatype Progress = Fine | Rejected | Panicked

  class Loader {
    const vm: AddressSpaces

    constructor (v: AddressSpaces)
      ensures vm == v
    {
      vm := v;
    }

    ghost function Now(): State
      reads vm`mem, vm`node, vm.pmm`free
    {
      State(vm.mem, vm.node, vm.pmm.free)
    }

    ghost predicate Valid()
      reads vm, vm.pmm, vm.pmm.bitmap
    {
      vm.Valid() && Tidy(Now())
    }

    lemma SoundNow()
      requires Valid()
      ensures SoundState(Now(), vm.pmm.totalPages) && Tidy(Now())
    {
    }

    /** pmm_alloc_page and the loop that clears the page. */
    method TakeZeroed() returns (f: nat)
      requires Valid()
      modifies vm`mem, vm.pmm`freePages, vm.pmm`free, vm.pmm.bitmap
      ensures f == 0 <==> old(vm.pmm.free) == {}
      ensures f == 0 ==> Valid() && Now() == old(Now())
      ensures f != 0 ==> && vm.Valid() && f in old(vm.pmm.free) && Fresh(vm.node, f)
                         && Now() == State(old(vm.mem)[f := ZeroPage()], vm.node, old(vm.pmm.free) - {f})
                         && SameLeaves(old(vm.mem), vm.node, vm.mem, vm.node)
    {
      hide Sound, Stores, Step, SameLeaves, Tidy, Fresh, ZeroPage;
      f := vm.pmm.AllocPage();
      if f == 0 { return; }
      TakeKeeps(old(Now()), vm.pmm.totalPages, f, ZeroPage());
      vm.mem := vm.mem[f := ZeroPage()];
    }

    /** pmm_alloc_page, the loop that clears the page, and vmm_map. */
    method MapZeroed(o: Owner, p: nat, flags: Flags) returns (r: Outcome, f: nat)
      requires Valid() && vm.Live(o) && flags.user && PageVpn(p).i4 < 256
      modifies vm`mem, vm`node, vm.pmm`freePages, vm.pmm`free, vm.pmm.bitmap
      ensures r.Done? && f != 0 ==>
                && Valid() && NewPage(old(Now()), Now(), o, p, f, flags) && !old(PageLeaf(Now(), o, p)).Mapped?
                && Granted(vm.mem, vm.RootFrame(o), PageVpn(p)) == Rights(flags.write, flags.user, flags.nx)
      ensures f == 0 ==> r.Done? && Valid() && Now() == old(Now()) && vm.pmm.free == {}
      ensures var l := old(PageLeaf(Now(), o, p));
              f != 0 ==> (r.ThroughHugePage? <==> l.Huge2M?) && (r.AlreadyMapped? <==> l.Mapped?)
      ensures r.OutOfMemory? ==> vm.pmm.free == {}
    {
      hide Sound, Stores, V.Step, Grows, LeafSet, SameLeaves, Tidy, NewPage, LeafAt, Granted, VpnOf, Fresh, LeafPte;
      hide ZeroPage, UserPath;
      f := TakeZeroed();
      if f == 0 { return Done, 0; }
      SameAt(old(vm.mem), vm.node, vm.mem, vm.node, o, PageVpn(p));
      Multiple(p);
      Multiple(f);
      r := vm.Map(o, p * 0x1000, f * 0x1000, flags);
      if r.Done? {
        NewPageOf(old(Now()), vm.pmm.totalPages, Now(), o, p, f, flags);
        vm.RootIs(o);
      }
    }

    /** vmm_virt_to_phys answers the question whether a page is mapped. */
    lemma Probe(o: Owner, a: nat)
      requires Valid() && vm.Live(o) && !MeetsHuge(LeafIn(Now(), o, VpnOf(a)))
      ensures var l, phys := LeafIn(Now(), o, VpnOf(a)), VirtToPhys(vm.mem, vm.RootFrame(o), a);
              && (phys != 0 <==> l.Mapped?)
              && (l.Mapped? ==>
                    phys / 0x1000 == l.e.frame && phys % 0x1000 == a % 0x1000 && DataFrame(Now(), l.e.frame))
    {
      vm.RootIs(o);
      WalkIsLeafAt(vm.mem, vm.node, o, VpnOf(a));
      VirtToPhysIsWalk(vm.mem, vm.node[Root(o)], a);
      hide VirtToPhys, LeafAt, Walk, VpnOf, Tree, MappedOnce;
    }

    /** One turn of the page loop: a page that is not mapped gets a new zeroed frame. */
    method MapOne(o: Owner, b: seq<Byte>, n: nat, p: nat, flags: Flags, ghost s0: State) returns (r: Progress)
      requires HeaderOk(b) && n < Phnum(b) && SegmentOk(b, SegmentAt(b, n)) && Covers(SegmentAt(b, n), p)
      requires flags == SegmentFlags(SegmentAt(b, n)) && NoHuge(s0, o, SegmentAt(b, n))
      requires Valid() && vm.Live(o) && Loading(s0, Now(), o, b, n, 0)
      modifies vm`mem, vm`node, vm.pmm`freePages, vm.pmm`free, vm.pmm.bitmap
      ensures r.Panicked? || (Valid() && vm.Live(o) && Extends(old(Now()), Now()) && Loading(s0, Now(), o, b, n, 0))
      ensures r.Fine? ==> PageLeaf(Now(), o, p).Mapped?
      ensures r.Fine? ==> forall q: nat :: old(PageLeaf(Now(), o, q)).Mapped? ==> PageLeaf(Now(), o, q).Mapped?
      ensures !r.Fine? ==> vm.pmm.free == {}
    {
      ExtendsItself(Now());
      PageState(s0, Now(), o, b, n, SegmentAt(b, n), p);
      hide HeaderOk, SegmentAt, Loading, LeafAt, VirtToPhys, VpnOf, NewPage, Granted, Sound, Stores, Tidy, Covers;
      hide SegmentOk;
      hide NoHuge, Extends, Step;
      Probe(o, p * 0x1000);
      if VirtToPhys(vm.mem, vm.RootFrame(o), p * 0x1000) != 0 { return Fine; }
      var out, f := MapZeroed(o, p, flags);
      if !out.Done? { return Panicked; }
      if f == 0 { return Rejected; }
      NewPageExtends(old(Now()), Now(), o, p, f, flags);
      LoadingPlace(s0, old(Now()), vm.pmm.totalPages, Now(), o, b, n, p, f);
      return Fine;
    }

    /** The page loop of load_elf_into_as for segment n. */
    method MapSegment(o: Owner, b: seq<Byte>, n: nat, ghost s0: State) returns (r: Progress)
      requires HeaderOk(b) && n < Phnum(b) && SegmentAt(b, n).kind == PT_LOAD && SegmentOk(b, SegmentAt(b, n))
      requires Valid() && vm.Live(o) && Loading(s0, Now(), o, b, n, 0) && NoHuge(s0, o, SegmentAt(b, n))
      modifies vm`mem, vm`node, vm.pmm`freePages, vm.pmm`free, vm.pmm.bitmap
      ensures r.Panicked? || (Valid() && vm.Live(o) && Extends(old(Now()), Now()) && Loading(s0, Now(), o, b, n, 0))
      ensures r.Fine? ==> SegmentMapped(Now(), o, SegmentAt(b, n), LastPage(SegmentAt(b, n)))
      ensures !r.Fine? ==> vm.pmm.free == {}
    {
      ExtendsItself(Now());
      hide HeaderOk, SegmentAt, Loading, Sound, Stores, SegmentOk, NoHuge, Tidy, FirstPage, LastPage, Extends, LeafAt;
      hide PageVpn;
      var s := SegmentAt(b, n);
      var p := FirstPage(s);
      while p < LastPage(s)
        invariant FirstPage(s) <= p && Valid() && vm.Live(o) && Extends(old(Now()), Now())
        invariant Loading(s0, Now(), o, b, n, 0) && SegmentMapped(Now(), o, s, p)
      {
        ghost var was := Now();
        r := MapOne(o, b, n, p, SegmentFlags(s), s0);
        if r.Panicked? { return; }
        ExtendsOn(old(Now()), was, Now(), o);
        if r.Rejected? { return; }
        p := p + 1;
      }
      r := Fine;
    }

    /** One turn of the byte loop: file byte off goes where the walk leads. The walk
        always leads somewhere, so the loader's check there never fails. */
    method StoreByte(o: Owner, b: seq<Byte>, n: nat, off: nat, ghost s0: State) returns (r: Progress)
      requires HeaderOk(b) && n < Phnum(b) && SegmentAt(b, n).kind == PT_LOAD && SegmentOk(b, SegmentAt(b, n))
      requires off < SegmentAt(b, n).filesz && Valid() && vm.Live(o) && Loading(s0, Now(), o, b, n, off)
      requires SegmentMapped(Now(), o, SegmentAt(b, n), LastPage(SegmentAt(b, n)))
      modifies vm`mem
      ensures r.Fine? && Valid() && TablesKept(old(vm.mem), vm.mem, vm.node)
      ensures Loading(s0, Now(), o, b, n, off + 1) && SameLeaves(old(vm.mem), vm.node, vm.mem, vm.node)
    {
      hide HeaderOk, SegmentAt, Loading, LeafAt, VirtToPhys, VpnOf, Sound, Stores, Covers, SegmentMapped, Tidy;
      hide NextStored;
      hide SameLeaves, TablesKept;
      var s := SegmentAt(b, n);
      var va := s.vaddr + off;
      FileMapped(Now(), o, b, s, off);
      Probe(o, va);
      var phys := VirtToPhys(vm.mem, vm.RootFrame(o), va);
      r := if phys == 0 then Rejected else Fine;
      if phys != 0 {
        var f, i := phys / 0x1000, phys % 0x1000;
        ghost var s' := Now().(mem := vm.mem[f := Bytes(vm.mem[f].data[i := b[s.offset + off]])]);
        NextStoredIs(Now(), s', o, b, n, off, f);
        StoreKeeps(s0, Now(), vm.pmm.totalPages, s', o, b, n, off, f);
        vm.mem := vm.mem[f := Bytes(vm.mem[f].data[i := b[s.offset + off]])];
      }
    }

    /** The byte loop of load_elf_into_as for segment n; it alters no page table. */
    method CopySegment(o: Owner, b: seq<Byte>, n: nat, ghost s0: State) returns (r: Progress)
      requires HeaderOk(b) && n < Phnum(b) && SegmentAt(b, n).kind == PT_LOAD && SegmentOk(b, SegmentAt(b, n))
      requires Valid() && vm.Live(o) && Loading(s0, Now(), o, b, n, 0)
      requires SegmentMapped(Now(), o, SegmentAt(b, n), LastPage(SegmentAt(b, n)))
      modifies vm`mem
      ensures r.Fine? && Valid() && TablesKept(old(vm.mem), vm.mem, vm.node)
      ensures Loading(s0, Now(), o, b, n, SegmentAt(b, n).filesz)
      ensures SegmentMapped(Now(), o, SegmentAt(b, n), LastPage(SegmentAt(b, n)))
    {
      hide HeaderOk, SegmentAt, Loading, Sound, Stores, SegmentMapped, Tidy, TablesKept, SameLeaves;
      var s, off: nat := SegmentAt(b, n), 0;
      r := Fine;
      TablesAlike(vm.mem, vm.node);
      while off < s.filesz && r.Fine?
        invariant off <= s.filesz && r.Fine? && Valid() && TablesKept(old(vm.mem), vm.mem, vm.node)
        invariant Loading(s0, Now(), o, b, n, off) && SegmentMapped(Now(), o, s, LastPage(s))
      {
        ghost var was := Now();
        r := StoreByte(o, b, n, off, s0);
        TablesKeptOn(old(vm.mem), was.mem, vm.mem, vm.node);
        StillMapped(was, Now(), o, s, LastPage(s));
        off := off + 1;
      }
    }

    /** One turn of the segment loop of load_elf_into_as. */
    method LoadSegment(o: Owner, b: seq<Byte>, n: nat, ghost s0: State) returns (r: Progress)
      requires |b| < U64 && HeaderOk(b) && n < Phnum(b)
      requires (SegmentAt(b, n).kind == PT_LOAD ==> InWords(SegmentAt(b, n)))
      requires Valid() && vm.Live(o) && Loading(s0, Now(), o, b, n, 0)
      requires SegmentAt(b, n).kind == PT_LOAD && SegmentOk(b, SegmentAt(b, n)) ==> NoHuge(s0, o, SegmentAt(b, n))
      modifies vm`mem, vm`node, vm.pmm`freePages, vm.pmm`free, vm.pmm.bitmap
      ensures r.Panicked? || (Valid() && vm.Live(o) && Extends(old(Now()), Now()))
      ensures r.Panicked? || Loading(s0, Now(), o, b, if r.Fine? then n + 1 else n, 0)
      ensures !r.Fine? ==>
                || vm.pmm.free == {}
                || (r.Rejected? && SegmentAt(b, n).kind == PT_LOAD && !SegmentOk(b, SegmentAt(b, n)))
    {
      ExtendsItself(Now());
      hide HeaderOk, SegmentAt, Loading, Sound, Stores, Tidy, NoHuge, SegmentMapped, TablesKept, Extends;
      var s := SegmentAt(b, n);
      if s.kind != PT_LOAD {
        SegmentDone(s0, Now(), o, b, n, 0);
        return Fine;
      }
      SegmentChecks(b, s);
      if s.memsz < s.filesz { return Rejected; }
      if (s.offset + s.filesz) % U64 > |b| { return Rejected; }
      var segStart, segEnd := s.vaddr / 0x1000 * 0x1000, (s.vaddr + s.memsz + 0xFFF) % U64 / 0x1000 * 0x1000;
      if segStart < USER_LOWER_LIMIT || segEnd >= USER_UPPER_LIMIT { return Rejected; }
      r := MapSegment(o, b, n, s0);
      if !r.Fine? { return; }
      ghost var mapped := Now();
      r := CopySegment(o, b, n, s0);
      TreeOf(mapped, vm.pmm.totalPages);
      ExtendsData(old(Now()), mapped, Now());
      SegmentDone(s0, Now(), o, b, n, s.filesz);
    }

    /** The segment loop of load_elf_into_as. */
    method LoadSegments(o: Owner, b: seq<Byte>, ghost s0: State) returns (r: Progress, n: nat)
      requires Valid() && vm.Live(o) && |b| < U64 && NoWrap(b) && ClearOfHuge(s0, o, b) && HeaderOk(b)
      requires Extends(s0, Now()) && Loading(s0, Now(), o, b, 0, 0)
      modifies vm`mem, vm`node, vm.pmm`freePages, vm.pmm`free, vm.pmm.bitmap
      ensures n <= Phnum(b) && (r.Fine? ==> n == Phnum(b))
      ensures r.Panicked? || (Valid() && vm.Live(o) && Extends(s0, Now()) && Loading(s0, Now(), o, b, n, 0))
      ensures !r.Fine? ==> vm.pmm.free == {} || (r.Rejected? && !ImageOk(b))
    {
      NoHeader(s0, o, b);
      hide *;
      r, n := Fine, 0;
      while n < Phnum(b)
        invariant n <= Phnum(b) && Valid() && vm.Live(o) && Extends(s0, Now()) && Loading(s0, Now(), o, b, n, 0)
      {
        ghost var was := Now();
        NextSegment(s0, o, b, n);
        r := LoadSegment(o, b, n, s0);
        if r.Panicked? { return; }
        ExtendsOn(s0, was, Now(), o);
        if r.Rejected? { return; }
        n := n + 1;
      }
      r := Fine;
    }

    /** load_elf_into_as. It fails only for an image that breaks a check, or for want of
        memory; done is the number of program headers it got through. */
    method Load(o: Owner, b: seq<Byte>) returns (r: Progress, entry: nat, ghost done: nat)
      requires Valid() && vm.Live(o) && |b| < U64 && NoWrap(b) && ClearOfHuge(Now(), o, b)
      modifies vm`mem, vm`node, vm.pmm`freePages, vm.pmm`free, vm.pmm.bitmap
      ensures r.Panicked? || (Valid() && vm.Live(o) && Extends(old(Now()), Now()))
      ensures r.Panicked? || LoadEffect(old(Now()), Now(), o, b, done)
      ensures !r.Panicked? && HeaderOk(b) ==>
                done <= Phnum(b) && ImageIn(old(Now()), Now(), o, b, done) && AllPermitted(old(Now()), Now(), o, b)
      ensures r.Fine? ==> ImageOk(b) && entry == EntryPoint(b) && done == Phnum(b)
      ensures !r.Fine? ==> vm.pmm.free == {} || (r.Rejected? && !ImageOk(b))
    {
      ghost var s0 := Now();
      entry, done := 0, 0;
      hide *;
      ExtendsItself(s0);
      NoHeader(s0, o, b);
      SoundNow();
      var ok := CheckHeader(b);
      if !ok { return Rejected, 0, 0; }
      LoadingStart(s0, o, b);
      var n;
      r, n := LoadSegments(o, b, s0);
      if r.Panicked? { return; }
      LoadHasEffect(s0, Now(), o, b, n);
      LoadedImage(s0, Now(), o, b, n);
      done := n;
      if r.Fine? {
        AllChecked(s0, Now(), o, b, n);
        entry := EntryPoint(b);
      }
    }

    /** map_user_stack. */
    method MapStack(o: Owner) returns (r: Progress, rsp: nat)
      requires Valid() && vm.Live(o)
      modifies vm`mem, vm`node, vm.pmm`freePages, vm.pmm`free, vm.pmm.bitmap
      ensures r.Panicked? || (Valid() && vm.Live(o) && Extends(old(Now()), Now()) && PagesStay(old(Now()), Now()))
      ensures r.Fine? ==> rsp == STACK_TOP && forall k: nat :: k < STACK_PAGES ==> StackPage(Now(), o, k)
      ensures r.Rejected? ==> vm.pmm.free == {}
    {
      hide Sound, Stores, Tidy, StackPage, PagesStay, NewPage, Extends, LeafAt, Granted, PageVpn, LeafPte;
      var i: nat := 0;
      ExtendsItself(Now());
      PagesStayItself(Now());
      while i < STACK_PAGES
        invariant i <= STACK_PAGES && Valid() && vm.Live(o)
        invariant Extends(old(Now()), Now()) && PagesStay(old(Now()), Now())
        invariant forall k: nat :: k < i ==> StackPage(Now(), o, k)
      {
        ghost var was := Now();
        StackLow(i);
        var out, f := MapZeroed(o, StackPageNumber(i), STACK_FLAGS);
        if !out.Done? { return Panicked, 0; }
        if f == 0 { return Rejected, 0; }
        AddStackPage(old(Now()), was, vm.pmm.totalPages, Now(), o, i, f);
        i := i + 1;
      }
      r, rsp := Fine, STACK_TOP;
    }

    /** vmm_create_address_space, with no data disturbed. */
    method NewSpace() returns (r: Outcome, d: nat, f: nat)
      requires Valid()
      modifies vm`mem, vm`node, vm.pmm`freePages, vm.pmm`free, vm.pmm.bitmap
      ensures r.OutOfMemory? || (r.Done? && Valid())
      ensures r.Done? && d == 0 ==> Now() == old(Now())
      ensures r.Done? && d != 0 ==>
                && Root(User(d)) !in old(vm.node) && vm.node == old(vm.node)[Root(User(d)) := f]
                && SameLeaves(old(vm.mem), old(vm.node), vm.mem, vm.node)
                && forall t, w :: PageStays(old(Now()), Now(), t, w)
    {
      hide Sound, Stores, Tidy, Created, SameLeaves, PageStays;
      r, d, f := vm.Create();
      if r.Done? && d != 0 {
        CreatedTidy(old(Now()), vm.pmm.totalPages, Now(), d, f);
      }
    }

    /** vmm_destroy_address_space, with no data disturbed. */
    method DropSpace(d: nat)
      requires Valid() && vm.Live(User(d))
      modifies vm`node, vm.pmm`freePages, vm.pmm`free, vm.pmm.bitmap
      ensures Valid() && NoNewHuge(old(Now()), Now())
      ensures Now() == Dropped(old(Now()), d)
    {
      DroppedTidy(Now(), vm.pmm.totalPages, d);
      hide NoNewHuge, Sound, Stores, Tidy, V.Step, SpaceFrames, Without, Gave;
      ghost var given := vm.Destroy(d);
    }

    /** The memory part of process_spawn_from_elf: a new space with the image and a stack
        in it, or none. Either way the program headers the loader got through change what
        every space reads in the shared slots, and nothing else. */
    method MakeSpace(b: seq<Byte>) returns (r: Progress, d: nat, cr3: nat, entry: nat, rsp: nat, ghost done: nat)
      requires Valid() && |b| < U64 && NoWrap(b) && ClearOfHuge(Now(), Kernel, b)
      modifies vm`mem, vm`node, vm.pmm`freePages, vm.pmm`free, vm.pmm.bitmap
      ensures r.Panicked? || (Valid() && NoNewHuge(old(Now()), Now()) && SpawnEffect(old(Now()), Now(), b, done))
      ensures r.Rejected? ==> SameSpaces(old(vm.node), vm.node)
      ensures r.Fine? ==>
                && Root(User(d)) !in old(vm.node) && vm.Live(User(d)) && vm.node[Root(User(d))] == cr3 != 0
                && (forall t :: t != User(d) ==> SameSpace(old(vm.node), vm.node, t))
                && Ready(old(Now()), Now(), User(d), b) && entry == EntryPoint(b) && rsp == STACK_TOP
                && done == Phnum(b)
    {
      ghost var s0 := Now();
      NothingSpawned(s0, b);
      hide Sound, Stores, Tidy, SameLeaves, ClearOfHuge, ImageIn, StackPage, ReadsKept, PageStays, LoadEffect;
      hide SpawnEffect;
      hide NoWrap, HeaderOk, EntryPoint, Extends, SameSpaces, Without, NoNewHuge, AllPermitted, Phnum, SpaceFrames;
      cr3, entry, rsp, done := 0, 0, 0, 0;
      var out;
      out, d, cr3 := NewSpace();
      if !out.Done? { return Panicked, 0, 0, 0, 0, 0; }
      if d == 0 { return Rejected, 0, 0, 0, 0, 0; }
      ghost var s1 := Now();
      ClearForNew(s0, vm.pmm.totalPages, s1, d, b);
      r, entry, done := Load(User(d), b);
      if r.Panicked? { return; }
      ghost var s2 := Now();
      LoadMade(s0, vm.pmm.totalPages, s1, s2, d, cr3, b, done);
      if r.Rejected? {
        DropMade(s0, vm.pmm.totalPages, s2, d, b, done);
        DropSpace(d);
        HugeOn(s0, s2, Now());
        return;
      }
      r, rsp := MapStack(User(d));
      if r.Panicked? { return; }
      ghost var s3 := Now();
      StayReads(s2, s3);
      StackMade(s0, vm.pmm.totalPages, s1, s2, s3, d, cr3, b, done);
      if r.Rejected? {
        DropMade(s0, vm.pmm.totalPages, s3, d, b, done);
        DropSpace(d);
        HugeOn(s0, s3, Now());
        return;
      }
      ImageKept(s0, s1, s2, s3, User(d), b, done);
      Begins(s0, s1, s2, s3, vm.pmm.totalPages, d, b);
      RootNotZero(s3, vm.pmm.totalPages, d);
    }

    /** What Reads says is what the walk of vmm_virt_to_phys leads to. */
    lemma ReadsThroughWalk(o: Owner, a: nat, x: Byte)
      requires Valid() && vm.Live(o) && Reads(Now(), o, a, x)
      ensures var phys := VirtToPhys(vm.mem, vm.RootFrame(o), a);
              phys != 0 && Holds(vm.mem, phys / 0x1000, phys % 0x1000, x)
    {
      Probe(o, a);
    }
  }

  /** The checks of load_elf_into_as on the file header. */
  method CheckHeader(b: seq<Byte>) returns (ok: bool)
    requires |b| < U64 && NoWrap(b)
    ensures ok <==> HeaderOk(b)
  {
    if |b| < EHDR_SIZE { return false; }
    if b[0] != 0x7F || b[1] != 0x45 || b[2] != 0x4C || b[3] != 0x46 { return false; }
    if EntryPoint(b) < USER_LOWER_LIMIT || EntryPoint(b) >= USER_UPPER_LIMIT { return false; }
    if (Phoff(b) + Phnum(b) * PHDR_SIZE) % U64 > |b| { return false; }
    return true;
  }

  /** Without a header there is nothing to load. */
  lemma NoHeader(s: State, o: Owner, b: seq<Byte>)
    ensures if HeaderOk(b) then |b| >= EHDR_SIZE else !ImageOk(b) && LoadEffect(s, s, o, b, 0)
  {
    ExtendsItself(s);
    if !HeaderOk(b) { NoEffect(s, s, o, b); }
  }

  /** What an image must meet, for its segment n. */
  lemma NextSegment(s: State, o: Owner, b: seq<Byte>, n: nat)
    requires HeaderOk(b) && n < Phnum(b) && NoWrap(b) && ClearOfHuge(s, o, b)
    ensures var q := SegmentAt(b, n);
            q.kind == PT_LOAD ==> InWords(q) && if SegmentOk(b, q) then NoHuge(s, o, q) else !ImageOk(b)
  {
    hide SegmentAt, NoHuge;
  }

  /** s' is s after the next byte is stored. */
  lemma StoreKeeps(s0: State, s: State, total: nat, s': State, o: Owner, b: seq<Byte>, n: nat, off: nat, f: nat)
    requires HeaderOk(b) && n < Phnum(b) && Loading(s0, s, o, b, n, off) && SoundState(s, total) && Tidy(s)
    requires NextStored(s, s', o, b, n, off, f)
    ensures SoundState(s', total) && Tidy(s') && Loading(s0, s', o, b, n, off + 1)
    ensures SameLeaves(s.mem, s.node, s'.mem, s'.node) && TablesKept(s.mem, s'.mem, s.node)
  {
    assert f in s.mem && s.mem[f].Bytes? && s' == s.(mem := s.mem[f := s'.mem[f]]);
    hide HeaderOk, SegmentAt, Loading, LeafAt, VpnOf, Sound, Tidy, NextStored, SameLeaves, TablesKept, SegmentOk;
    WriteKeeps(s, total, f, s'.mem[f]);
    StoreKeepsData(s, s', o, b, n, off, f);
    OpenStays(s, s');
    hide Open;
    TidyStays(s, s');
    LoadingStore(s0, s, s', o, b, n, off, f);
  }

  lemma StillMapped(s: State, s': State, o: Owner, q: Segment, hi: nat)
    requires SegmentMapped(s, o, q, hi) && SameLeaves(s.mem, s.node, s'.mem, s'.node)
    ensures SegmentMapped(s', o, q, hi)
  {
    hide LeafAt, PageVpn, Covers;
  }

  lemma NothingSpawned(s: State, b: seq<Byte>)
    ensures SpawnEffect(s, s, b, 0) && NoNewHuge(s, s) && SameSpaces(s.node, s.node)
  {
    hide HeaderOk, Reads, LeafAt, VpnOf;
  }

  /** After the load: s1 is s0 with the new space, s2 is s1 with the image in it. */
  lemma LoadMade(s0: State, total: nat, s1: State, s2: State, d: nat, f: nat, b: seq<Byte>, n: nat)
    requires SoundState(s0, total) && SoundState(s2, total) && SameLeaves(s0.mem, s0.node, s1.mem, s1.node)
    requires Root(User(d)) !in s0.node && s1.node == s0.node[Root(User(d)) := f]
    requires forall t, w :: PageStays(s0, s1, t, w)
    requires Extends(s1, s2) && LoadEffect(s1, s2, User(d), b, n)
    ensures Root(User(d)) in s2.node && s2.node[Root(User(d))] == f && SameSpaces(s0.node, Without(s2.node, User(d)))
    ensures (forall t :: t != User(d) ==> SameSpace(s0.node, s2.node, t)) && NoNewHuge(s0, s2)
    ensures SpawnEffect(s0, s2, b, n)
  {
    hide SoundState, SameLeaves, PageStays, Extends, LoadEffect, NoNewHuge, Without, SameSpace, Put;
    TreeOf(s2, total);
    SpaceAdded(s0, s1, s2, d, f);
    ExtendsItself(s2);
    SpawnChanges(s0, total, s1, s2, s2, d, b, n);
  }

  /** After the stack: s3 is s2 with the stack pages. */
  lemma StackMade(s0: State, total: nat, s1: State, s2: State, s3: State, d: nat, f: nat, b: seq<Byte>, n: nat)
    requires SoundState(s0, total) && SoundState(s3, total) && SameLeaves(s0.mem, s0.node, s1.mem, s1.node)
    requires Root(User(d)) !in s0.node && s1.node == s0.node[Root(User(d)) := f]
    requires forall t, w :: PageStays(s0, s1, t, w)
    requires Extends(s1, s2) && LoadEffect(s1, s2, User(d), b, n) && Extends(s2, s3) && ReadsKept(s2, s3)
    ensures Root(User(d)) in s3.node && s3.node[Root(User(d))] == f && SameSpaces(s0.node, Without(s3.node, User(d)))
    ensures (forall t :: t != User(d) ==> SameSpace(s0.node, s3.node, t)) && NoNewHuge(s0, s3)
    ensures SpawnEffect(s0, s3, b, n)
  {
    hide SoundState, SameLeaves, PageStays, Extends, LoadEffect, NoNewHuge, Without, SameSpace, Put, ReadsKept;
    TreeOf(s3, total);
    ExtendsOn(s1, s2, s3, User(d));
    SpaceAdded(s0, s1, s3, d, f);
    SpawnChanges(s0, total, s1, s2, s3, d, b, n);
  }

  lemma StayReads(s: State, s': State)
    requires PagesStay(s, s')
    ensures ReadsKept(s, s')
  {
    hide PageStays;
    PagesStayReads(s, s');
  }

  lemma Begins(s0: State, s1: State, s2: State, s: State, total: nat, d: nat, b: seq<Byte>)
    requires SameLeaves(s0.mem, s0.node, s1.mem, s1.node) && ImageOk(b) && AllPermitted(s1, s2, User(d), b)
    requires ImageIn(s1, s2, User(d), b, Phnum(b)) && ImageIn(s0, s, User(d), b, Phnum(b)) && PagesStay(s2, s)
    requires SoundState(s, total) && Tidy(s) && Root(User(d)) in s.node
    requires forall k: nat :: k < STACK_PAGES ==> StackPage(s, User(d), k)
    ensures Ready(s0, s, User(d), b)
  {
    ImageOpens(s0, s1, s2, s, total, d, b);
    hide SameLeaves, AllPermitted, ImageIn, PagesStay, SoundState, Tidy, HeaderOk, StackPage, StackByte, ImageOpen;
    forall a: nat | STACK_TOP - 0x4000 <= a < STACK_TOP ensures StackByte(s, User(d), a) {
      StackBytes(s, total, d, a);
    }
  }

  lemma DropMade(s0: State, total: nat, s: State, d: nat, b: seq<Byte>, n: nat)
    requires SoundState(s0, total) && SoundState(s, total) && Root(User(d)) in s.node && Root(User(d)) !in s0.node
    requires SpawnEffect(s0, s, b, n)
    ensures SpawnEffect(s0, Dropped(s, d), b, n)
  {
    TreeOf(s0, total);
    DropChanges(s0, total, s, d, b, n);
  }
}
