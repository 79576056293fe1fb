/** kernel/paging.c: the kernel's own page tables, an identity map of 2 MiB pages and a
    higher-half map of the first GiB, built by a bump allocator behind the kernel image. */
module Paging {
  import opened Words
  import opened PageTables
  import Pmm

  const HUGE: nat := 0x20_0000
  const FOUR_GIB: nat := 0x1_0000_0000

  /** The end of the highest conventional-memory descriptor. */
  function RamTop(m: seq<Pmm.Descriptor>): nat {
    if m == [] then 0
    else
      var r, d := RamTop(m[..|m| - 1]), m[|m| - 1];
      if d.kind == Pmm.CONVENTIONAL && Pmm.End(d) > r then Pmm.End(d) else r
  }

  /** The framebuffer's end; the C code multiplies in 32 bits and adds in 64. */
  function FramebufferEnd(fb: nat, height: nat, pitch: nat): nat {
    fb + (height * pitch * 4) % U32
  }

  function Max(a: nat, b: nat): nat { if a < b then b else a }

  /** The highest address that paging_init wants below the limit of the identity map. */
  function Need(m: seq<Pmm.Descriptor>, fb: nat, height: nat, pitch: nat): nat {
    Max(Max(RamTop(m), FramebufferEnd(fb, height, pitch)), FOUR_GIB)
  }

  /** max_memory: the need, rounded up to 2 MiB in 64-bit arithmetic. */
  function MaxMemory(m: seq<Pmm.Descriptor>, fb: nat, height: nat, pitch: nat): nat {
    (Need(m, fb, height, pitch) + HUGE - 1) % U64 / HUGE * HUGE
  }

  /** RamTop is the maximum it is called: no conventional descriptor ends above it, and it
      is 0 or the end of one. */
  lemma {:induction false} RamTopIs(m: seq<Pmm.Descriptor>)
    ensures forall i :: 0 <= i < |m| && m[i].kind == Pmm.CONVENTIONAL ==> Pmm.End(m[i]) <= RamTop(m)
    ensures RamTop(m) == 0 || exists i :: 0 <= i < |m| && m[i].kind == Pmm.CONVENTIONAL && Pmm.End(m[i]) == RamTop(m)
  {
    if m != [] {
      var k := |m| - 1;
      RamTopIs(m[..k]);
      if RamTop(m) != 0 && RamTop(m) == RamTop(m[..k]) {
        var i :| 0 <= i < k && m[..k][i].kind == Pmm.CONVENTIONAL && Pmm.End(m[..k][i]) == RamTop(m[..k]);
        assert m[i] == m[..k][i];
      } else if RamTop(m) != 0 {
        assert Pmm.End(m[k]) == RamTop(m);
      }
      forall i | 0 <= i < |m| && m[i].kind == Pmm.CONVENTIONAL ensures Pmm.End(m[i]) <= RamTop(m) {
        if i < k { assert m[..k][i] == m[i]; }
      }
    }
  }

  /** The limit lies in the 2 MiB from the need on, except that a need in the last 2 MiB
      below 2^64 wraps and is not met. */
  lemma LimitMeetsNeed(need: nat)
    requires FOUR_GIB <= need < U64
    ensures var max := (need + HUGE - 1) % U64 / HUGE * HUGE;
            && max % HUGE == 0 && (need <= max <==> need + HUGE - 1 < U64)
            && (need + HUGE - 1 < U64 ==> max < need + HUGE)
  {
  }

  /** The framebuffer, bytes long, lies below the limit exactly if its size fits in 32 bits
      or RAM alone takes the limit past it. */
  lemma FramebufferBelow(ram: nat, fb: nat, bytes: nat, max: nat)
    requires max == (Max(ram, fb + bytes % U32) + HUGE - 1) / HUGE * HUGE
    ensures fb + bytes <= max <==> bytes < U32 || fb + bytes <= (ram + HUGE - 1) / HUGE * HUGE
  {
    var low := fb + bytes % U32;
    if bytes >= U32 {
      assert bytes % U32 + U32 <= bytes;
      RoundUp(low);
      RoundUp(ram);
      RoundUp(fb + bytes);
    } else {
      RoundUp(Max(ram, low));
    }
  }

  lemma RoundUp(a: nat)
    ensures a <= (a + HUGE - 1) / HUGE * HUGE < a + HUGE
  {
  }

  /** The word of a table that leads to the table in frame f: address | 0x3. */
  function ToTable(f: nat): Pte {
    Pte(true, f, true, false, false, false, false)
  }

  /** Word i of the page directory number j of the identity map. */
  function IdentityWord(j: Index, i: Index, max: nat): Pte {
    var a := (j * 512 + i) * HUGE;
    if a < max then Pte(true, a / 0x1000, true, false, true, true, a == 0xFEC0_0000 || a == 0xFEE0_0000) else ABSENT
  }

  /** Word i of the higher-half page directory: address | 0x83. */
  function HighWord(i: Index): Pte {
    Pte(true, i * 512, true, false, true, false, false)
  }

  // The frames the bump allocator hands out, in order, when the root is in frame n
  // and the identity map takes k page directories.
  function LowPdpt(n: nat): nat { n + 1 }
  function LowPd(n: nat, j: nat): nat { n + 2 + j }
  function HighPdpt(n: nat, k: nat): nat { n + 2 + k }
  function HighPd(n: nat, k: nat): nat { n + 3 + k }

  /** The root, the identity PDPT and its first k directories. */
  ghost predicate Low(mem: Memory, n: nat, k: nat, max: nat) {
    && IsTable(mem, n) && IsTable(mem, LowPdpt(n)) && k <= 512
    && (forall i: Index :: Entry(mem, LowPdpt(n), i) == if i < k then ToTable(LowPd(n, i)) else ABSENT)
    && (forall j: Index :: j < k ==> IsTable(mem, LowPd(n, j)))
    && (forall j: Index, i: Index :: j < k ==> Entry(mem, LowPd(n, j), i) == IdentityWord(j, i, max))
  }

  /** All the tables paging_init builds. */
  ghost predicate Built(mem: Memory, n: nat, k: nat, max: nat) {
    && Low(mem, n, k, max) && (max <= k * 0x4000_0000 || k == 512)
    && IsTable(mem, HighPdpt(n, k)) && IsTable(mem, HighPd(n, k))
    && (forall i: Index :: Entry(mem, n, i)
          == if i == 0 then ToTable(LowPdpt(n)) else if i == 511 then ToTable(HighPdpt(n, k)) else ABSENT)
    && (forall i: Index :: Entry(mem, HighPdpt(n, k), i) == if i == 510 then ToTable(HighPd(n, k)) else ABSENT)
    && (forall i: Index :: Entry(mem, HighPd(n, k), i) == HighWord(i))
  }

  /** What the hardware finds at page v in those tables. */
  function Expected(v: Vpn, max: nat): Leaf {
    if v.i4 == 0 then
      var e := IdentityWord(v.i3, v.i2, max);
      if e.present then Huge2M(e) else NotMapped
    else if v.i4 == 511 && v.i3 == 510 then Huge2M(HighWord(v.i2))
    else NotMapped
  }

  lemma WalkBuilt(mem: Memory, n: nat, k: nat, max: nat, v: Vpn)
    requires Built(mem, n, k, max)
    ensures Walk(mem, n, v) == Expected(v, max)
  {
    if v.i4 == 0 && v.i3 >= k {
      assert (v.i3 * 512 + v.i2) * HUGE >= k * 0x4000_0000;
    }
  }

  /** The kernel may write at a page and a user may not touch it. */
  predicate KernelOnly(l: Leaf, nx: bool, pcd: bool) {
    l.Huge2M? && l.e.present && l.e.write && !l.e.user && l.e.nx == nx && l.e.pcd == pcd
  }

  /** The same, as addresses: the identity map covers exactly the addresses below
      max_memory and 512 GiB, not executable, and uncached only at the I/O APIC and the local
      APIC; KERNEL_VIRT_BASE + x goes to x for x below 1 GiB, executable; nothing else in the
      48-bit space is mapped, and nothing is open to users. */
  lemma ExpectedAddresses(virt: nat, max: nat)
    requires virt < 0x1_0000_0000_0000 && max % HUGE == 0
    ensures var l := Expected(VpnOf(virt), max);
            if virt < 0x80_0000_0000 && virt < max then
              && KernelOnly(l, true, 0xFEC0_0000 <= virt < 0xFEE0_0000 || 0xFEE0_0000 <= virt < 0xFF00_0000)
              && Physical(l, virt) == virt
            else if 0xFFFF_8000_0000 <= virt < 0xFFFF_C000_0000 then
              KernelOnly(l, false, false) && Physical(l, virt) == virt - 0xFFFF_8000_0000
            else l == NotMapped
  {
    hide VpnOf, PageNumber;
    var v := VpnOf(virt);
    Directory(virt);
    if v.i4 == 0 { InDirectory(v.i3, v.i2, virt, max); }
  }

  /** virt / 2 MiB, from the upper three indices. */
  lemma Directory(virt: nat)
    requires virt < 0x1_0000_0000_0000
    ensures var v := VpnOf(virt); virt == ((v.i4 * 512 + v.i3) * 512 + v.i2) * HUGE + virt % HUGE
  {
    hide VpnOf;
    PageDigits(virt);
    var v := VpnOf(virt);
    SmallPage(virt);
    Pack((v.i4 * 512 + v.i3) * 512 + v.i2, v.i1, virt);
  }

  lemma SmallPage(virt: nat)
    requires virt < 0x1_0000_0000_0000
    ensures PageNumber(virt) == virt / 0x1000
  {
  }

  lemma Pack(h: nat, i: Index, virt: nat)
    requires virt / 0x1000 == h * 512 + i
    ensures virt == h * HUGE + virt % HUGE
  {
    assert virt == h * HUGE + (i * 0x1000 + virt % 0x1000);
  }

  lemma InDirectory(j: Index, i: Index, virt: nat, max: nat)
    requires virt == (j * 512 + i) * HUGE + virt % HUGE && max % HUGE == 0
    ensures var e := IdentityWord(j, i, max);
            (e.present <==> virt < max) && (e.present ==> e.frame * 0x1000 == (j * 512 + i) * HUGE)
  {
    var h := j * 512 + i;
    assert h * HUGE == h * 512 * 0x1000;
    assert max == max / HUGE * HUGE;
  }

  /** The place of every table, for the virtual memory manager that takes over. */
  ghost function Places(n: nat, k: nat): map<Node, nat> {
    (map j: Index | j < k :: Pd(Kernel, 0, j) := LowPd(n, j))
    + map[Root(Kernel) := n, Pdpt(Kernel, 0) := LowPdpt(n), Pdpt(Kernel, 511) := HighPdpt(n, k),
          Pd(Kernel, 511, 510) := HighPd(n, k)]
  }

  predicate HasPlace(k: nat, m: Node) {
    || m == Root(Kernel) || m == Pdpt(Kernel, 0) || m == Pdpt(Kernel, 511) || m == Pd(Kernel, 511, 510)
    || (m.Pd? && m.o == Kernel && m.a == 0 && m.b < k)
  }

  function PlaceOf(n: nat, k: nat, m: Node): nat {
    match m
    case Root(_) => n
    case Pdpt(_, a) => if a == 0 then LowPdpt(n) else HighPdpt(n, k)
    case Pd(_, a, b) => if a == 0 then LowPd(n, b) else HighPd(n, k)
    case Pt(_, _, _, _) => 0
  }

  lemma InPlaces(n: nat, k: nat, m: Node)
    requires k <= 512
    ensures m in Places(n, k) <==> HasPlace(k, m)
    ensures m in Places(n, k) ==> Places(n, k)[m] == PlaceOf(n, k, m)
  {
  }

  lemma LinkedPlaces(mem: Memory, n: nat, k: nat, max: nat, m: Node, i: Index)
    requires Built(mem, n, k, max) && m in Places(n, k)
    ensures !m.Pt? && Linked(mem, Places(n, k), m, i)
  {
    InPlaces(n, k, m);
    InPlaces(n, k, Child(m, i));
    hide Places;
    assert m.Pd? ==> Entry(mem, Places(n, k)[m], i).huge || !Entry(mem, Places(n, k)[m], i).present;
  }

  lemma PlacesApart(n: nat, k: nat, m: Node, m': Node)
    requires k <= 512 && HasPlace(k, m) && HasPlace(k, m') && PlaceOf(n, k, m) == PlaceOf(n, k, m')
    ensures m == m'
  {
  }

  lemma PlacesShape(n: nat, k: nat)
    requires k <= 512
    ensures Injective(Places(n, k)) && Root(Kernel) in Places(n, k) && Pdpt(Kernel, 0) in Places(n, k)
    ensures Pdpt(Kernel, 511) in Places(n, k)
    ensures forall m :: m in Places(n, k) && !m.Root? ==> Parent(m) in Places(n, k) && Via(m.o, m.a) == m.o
    ensures forall m :: m in Places(n, k) ==> m.o == Kernel && n <= Places(n, k)[m] < n + 4 + k
  {
    hide Places;
    forall m, m' | m in Places(n, k) && m' in Places(n, k) && Places(n, k)[m] == Places(n, k)[m'] ensures m == m' {
      InPlaces(n, k, m);
      InPlaces(n, k, m');
      PlacesApart(n, k, m, m');
    }
    InPlaces(n, k, Root(Kernel));
    InPlaces(n, k, Pdpt(Kernel, 0));
    InPlaces(n, k, Pdpt(Kernel, 511));
    forall m | m in Places(n, k) ensures m.o == Kernel && n <= Places(n, k)[m] < n + 4 + k { InPlaces(n, k, m); }
    forall m | m in Places(n, k) && !m.Root? ensures Parent(m) in Places(n, k) && Via(m.o, m.a) == m.o {
      InPlaces(n, k, m);
      InPlaces(n, k, Parent(m));
    }
  }

  lemma PlacesAreTables(mem: Memory, n: nat, k: nat, max: nat, m: Node)
    requires Built(mem, n, k, max) && m in Places(n, k)
    ensures IsTable(mem, Places(n, k)[m])
  {
    InPlaces(n, k, m);
    hide Places;
  }

  lemma BuiltIsTree(mem: Memory, n: nat, k: nat, max: nat)
    requires Built(mem, n, k, max)
    ensures Tree(mem, Places(n, k)) && Places(n, k)[Root(Kernel)] == n
    ensures forall m :: m in Places(n, k) ==> m.o == Kernel && n <= Places(n, k)[m] < n + 4 + k
  {
    PlacesShape(n, k);
    InPlaces(n, k, Root(Kernel));
    forall m | m in Places(n, k) ensures IsTable(mem, Places(n, k)[m]) { PlacesAreTables(mem, n, k, max, m); }
    forall m, i: Index | m in Places(n, k) && !m.Pt? ensures Linked(mem, Places(n, k), m, i) {
      LinkedPlaces(mem, n, k, max, m, i);
    }
    hide Places, Linked, Built, Injective, IsTable, Entry;
  }

  method HighestRam(m: seq<Pmm.Descriptor>) returns (top: nat)
    ensures top == RamTop(m)
    ensures forall i :: 0 <= i < |m| && m[i].kind == Pmm.CONVENTIONAL ==> Pmm.End(m[i]) <= top
    ensures top == 0 || exists i :: 0 <= i < |m| && m[i].kind == Pmm.CONVENTIONAL && Pmm.End(m[i]) == top
  {
    top := 0;
    var i := 0;
    while i < |m|
      invariant i <= |m| && top == RamTop(m[..i])
    {
      assert m[..i + 1][..i] == m[..i];
      var end := m[i].start + m[i].pages * PAGE_SIZE;
      if m[i].kind == Pmm.CONVENTIONAL {
        if end > top { top := end; }
      }
      i := i + 1;
    }
    assert m[..|m|] == m;
    RamTopIs(m);
  }

  class Builder {
    var mem: Memory
    var next: nat

    constructor (m: Memory, first: nat)
      ensures mem == m && next == first
    {
      mem := m;
      next := first;
    }

    /** alloc_table: the next frame of the arena, zeroed. */
    method AllocTable() returns (f: nat)
      modifies this
      ensures f == old(next) && next == f + 1 && IsTable(mem, f) && forall i: Index :: Entry(mem, f, i) == ABSENT
      ensures forall g :: g != f ==> (IsTable(mem, g) <==> IsTable(old(mem), g))
      ensures forall g, i: Index :: g != f ==> Entry(mem, g, i) == Entry(old(mem), g, i)
    {
      f := next;
      next := next + 1;
      mem := mem[f := EmptyTable()];
    }

    method Set(f: nat, i: Index, e: Pte)
      requires IsTable(mem, f)
      modifies this`mem
      ensures forall g :: IsTable(mem, g) <==> IsTable(old(mem), g)
      ensures forall g, j: Index :: Entry(mem, g, j) == if g == f && j == i then e else Entry(old(mem), g, j)
    {
      mem := SetEntry(mem, f, i, e);
    }

    /** The inner loop of the identity map: page directory number k. */
    method FillDirectory(pd: nat, k: Index, max: nat) returns (addr: nat)
      requires IsTable(mem, pd) && (forall i: Index :: Entry(mem, pd, i) == ABSENT) && max % HUGE == 0
      requires k * 0x4000_0000 < max
      modifies this`mem
      ensures forall i: Index :: Entry(mem, pd, i) == IdentityWord(k, i, max)
      ensures forall g :: IsTable(mem, g) <==> IsTable(old(mem), g)
      ensures forall g, j: Index :: g != pd ==> Entry(mem, g, j) == Entry(old(mem), g, j)
      ensures addr == if (k + 1) * 0x4000_0000 < max then (k + 1) * 0x4000_0000 else max
    {
      addr := k * 0x4000_0000;
      var i := 0;
      while i < 512 && addr < max
        invariant i <= 512 && addr == (k * 512 + i) * HUGE && addr <= max
        invariant forall g :: IsTable(mem, g) <==> IsTable(old(mem), g)
        invariant forall g, j: Index :: g != pd ==> Entry(mem, g, j) == Entry(old(mem), g, j)
        invariant forall j: Index :: Entry(mem, pd, j) == if j < i then IdentityWord(k, j, max) else ABSENT
      {
        Set(pd, i, Pte(true, addr / 0x1000, true, false, true, true, addr == 0xFEC0_0000 || addr == 0xFEE0_0000));
        addr := addr + HUGE;
        i := i + 1;
      }
      forall j: Index | i <= j ensures IdentityWord(k, j, max) == ABSENT {
        assert (k * 512 + j) * HUGE >= (k * 512 + i) * HUGE;
      }
    }

    /** The outer loop of the identity map. */
    method IdentityMap(n: nat, max: nat) returns (k: nat)
      requires next == n + 2 && Low(mem, n, 0, max) && max % HUGE == 0
      modifies this
      ensures Low(mem, n, k, max) && (max <= k * 0x4000_0000 || k == 512) && next == n + 2 + k
      ensures forall i: Index :: Entry(mem, n, i) == Entry(old(mem), n, i)
    {
      k := 0;
      var addr := 0;
      while addr < max && k < 512
        invariant Low(mem, n, k, max) && next == n + 2 + k
        invariant forall i: Index :: Entry(mem, n, i) == Entry(old(mem), n, i)
        invariant addr == if k * 0x4000_0000 < max then k * 0x4000_0000 else max
        decreases 512 - k
      {
        label start:
        var pd := AllocTable();
        Set(LowPdpt(n), k, ToTable(pd));
        addr := FillDirectory(pd, k, max);
        forall j: Index | j < k + 1 ensures IsTable(mem, LowPd(n, j)) {}
        forall j: Index, i: Index | j < k + 1 ensures Entry(mem, LowPd(n, j), i) == IdentityWord(j, i, max) {
          assert j < k ==> Entry(old@start(mem), LowPd(n, j), i) == IdentityWord(j, i, max);
        }
        k := k + 1;
      }
    }

    /** The higher-half map. */
    method HighMap(n: nat, k: nat, max: nat)
      requires next == n + 2 + k && Low(mem, n, k, max) && (max <= k * 0x4000_0000 || k == 512)
      requires forall i: Index :: Entry(mem, n, i) == if i == 0 then ToTable(LowPdpt(n)) else ABSENT
      modifies this
      ensures Built(mem, n, k, max) && next == n + 4 + k
    {
      var pdpt := AllocTable();
      Set(n, 511, ToTable(pdpt));
      var pd := AllocTable();
      Set(pdpt, 510, ToTable(pd));
      var i, phys := 0, 0;
      while i < 512
        invariant i <= 512 && phys == i * HUGE
        invariant IsTable(mem, pd) && IsTable(mem, pdpt) && Low(mem, n, k, max) && next == n + 4 + k
        invariant forall j: Index :: Entry(mem, n, j)
                    == if j == 0 then ToTable(LowPdpt(n)) else if j == 511 then ToTable(HighPdpt(n, k)) else ABSENT
        invariant forall j: Index :: Entry(mem, pdpt, j) == if j == 510 then ToTable(HighPd(n, k)) else ABSENT
        invariant forall j: Index :: Entry(mem, pd, j) == if j < i then HighWord(j) else ABSENT
      {
        label start:
        Set(pd, i, Pte(true, phys / 0x1000, true, false, true, false, false));
        phys := phys + HUGE;
        i := i + 1;
      }
    }
  }

  /** paging_init: the tables, the root's frame and the first frame after the arena. */
  method PagingInit(m: seq<Pmm.Descriptor>, kernelEnd: nat, fb: nat, height: nat, pitch: nat, before: Memory)
    returns (mem: Memory, pml4: nat, arenaEnd: nat)
    ensures pml4 == Pmm.CeilPage(kernelEnd) && pml4 + 4 <= arenaEnd <= pml4 + 516
    ensures forall v :: Walk(mem, pml4, v) == Expected(v, MaxMemory(m, fb, height, pitch))
    ensures Tree(mem, Places(pml4, arenaEnd - pml4 - 4))
  {
    hide Tree, Walk, Places, Expected;
    var b := new Builder(before, Pmm.CeilPage(kernelEnd));
    pml4 := b.AllocTable();
    var pdpt := b.AllocTable();
    b.Set(pml4, 0, ToTable(pdpt));
    var max := IdentityLimit(m, fb, height, pitch);
    var k := b.IdentityMap(pml4, max);
    b.HighMap(pml4, k, max);
    mem := b.mem;
    arenaEnd := b.next;
    forall v ensures Walk(mem, pml4, v) == Expected(v, max) { WalkBuilt(mem, pml4, k, max, v); }
    BuiltIsTree(mem, pml4, k, max);
  }

  /** The identity map up to max takes in 4 GiB and all conventional memory, and it takes in
      the framebuffer exactly if the size in bytes fits in 32 bits or RAM reaches as far. */
  ghost predicate Limits(m: seq<Pmm.Descriptor>, fb: nat, bytes: nat, max: nat) {
    && FOUR_GIB <= max && (forall i :: 0 <= i < |m| && m[i].kind == Pmm.CONVENTIONAL ==> Pmm.End(m[i]) <= max)
    && (fb + bytes <= max <==> bytes < U32 || fb + bytes <= (Max(RamTop(m), FOUR_GIB) + HUGE - 1) / HUGE * HUGE)
  }

  lemma LimitIs(m: seq<Pmm.Descriptor>, fb: nat, bytes: nat, need: nat)
    requires need == Max(Max(RamTop(m), fb + bytes % U32), FOUR_GIB)
    ensures var max := (need + HUGE - 1) % U64 / HUGE * HUGE;
            && (need < U64 ==> (need <= max <==> need + HUGE - 1 < U64)) && max % HUGE == 0
            && (need + HUGE - 1 < U64 ==> Limits(m, fb, bytes, max) && max < need + HUGE)
  {
    if need < U64 { LimitMeetsNeed(need); }
    if need + HUGE - 1 < U64 {
      RamTopIs(m);
      FramebufferBelow(Max(RamTop(m), FOUR_GIB), fb, bytes, (need + HUGE - 1) / HUGE * HUGE);
    }
  }

  /** A framebuffer that the identity map leaves out: 2^32 bytes at 4 GiB, which the product in
      32 bits makes no bytes at all. */
  lemma FramebufferLeftOut(m: seq<Pmm.Descriptor>)
    requires RamTop(m) <= FOUR_GIB
    ensures var max := MaxMemory(m, FOUR_GIB, 0x8000, 0x8000);
            && FOUR_GIB + 0x8000 * 0x8000 * 4 > max
            && forall a :: FOUR_GIB <= a < FOUR_GIB + 0x8000 * 0x8000 * 4 ==> Expected(VpnOf(a), max) == NotMapped
  {
    var max := MaxMemory(m, FOUR_GIB, 0x8000, 0x8000);
    assert max == FOUR_GIB;
    hide Expected, VpnOf, MaxMemory;
    forall a | FOUR_GIB <= a < FOUR_GIB + 0x8000 * 0x8000 * 4 ensures Expected(VpnOf(a), max) == NotMapped {
      ExpectedAddresses(a, max);
    }
  }

  /** All conventional memory below 512 GiB is in the identity map. */
  lemma RamIsMapped(m: seq<Pmm.Descriptor>, fb: nat, height: nat, pitch: nat, i: nat, a: nat)
    requires Need(m, fb, height, pitch) + HUGE - 1 < U64 && i < |m| && m[i].kind == Pmm.CONVENTIONAL
    requires m[i].start <= a < Pmm.End(m[i]) && a < 0x80_0000_0000
    ensures var l := Expected(VpnOf(a), MaxMemory(m, fb, height, pitch)); l.Huge2M? && Physical(l, a) == a
  {
    LimitIs(m, fb, height * pitch * 4, Need(m, fb, height, pitch));
    ExpectedAddresses(a, MaxMemory(m, fb, height, pitch));
  }

  method IdentityLimit(m: seq<Pmm.Descriptor>, fb: nat, height: nat, pitch: nat) returns (max: nat)
    ensures max == MaxMemory(m, fb, height, pitch) && max % HUGE == 0
    ensures var need := Need(m, fb, height, pitch);
            && (need < U64 ==> (need <= max <==> need + HUGE - 1 < U64))
            && (need + HUGE - 1 < U64 ==> Limits(m, fb, height * pitch * 4, max) && max < need + HUGE)
  {
    var ramTop := HighestRam(m);
    var fbEnd := fb + (height * pitch * 4) % U32;
    max := ramTop;
    if fbEnd > max { max := fbEnd; }
    if max < FOUR_GIB { max := FOUR_GIB; }
    LimitIs(m, fb, height * pitch * 4, max);
    max := (max + HUGE - 1) % U64 / HUGE * HUGE;
  }
}
